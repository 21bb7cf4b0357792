/**
 * The estimate screen: its in-memory list of line items, the entries of the
 * totals block, the loaded job id and the line being edited, and the
 * operations of its buttons over that state and the database.
 */
module Estimate {
  import opened Wrappers
  import opened Numerals
  import opened Totals
  import opened Tables
  import opened Ordering
  import opened Jobs
  import opened Store

  // ---------------------------------------------------------------------
  // The line-item list as a value.

  /**
   * `add_write_in_item`: the new line, or None when a field is empty or the
   * quantity is not an integer or the price is not a number.
   */
  function WriteInLine(desc: string, qtyText: string, priceText: string): (r: Option<LineItem>)
    ensures r.Some? <==> desc != [] && qtyText != [] && priceText != []
                         && ParseInt(qtyText).Some? && ParseFloat(priceText).Some?
    ensures r.Some? ==> r.value.category == WriteInCategory && r.value.name == desc && Priced(r.value)
    ensures r.Some? ==> r.value.qty == ParseInt(qtyText).value && r.value.unitPrice == ParseFloat(priceText).value
  {
    if desc == [] || qtyText == [] || priceText == [] then None
    else
      var qty := ParseInt(qtyText);
      var price := ParseFloat(priceText);
      if qty.None? || price.None? then None
      else Some(LineItem(desc, WriteInCategory, qty.value, price.value, LineTotal(qty.value, price.value)))
  }

  /**
   * The new line of `add_or_update_item_in_estimate`, from the category and
   * item menus, the quantity entry and the frame's price map; None when the
   * item is "-", the quantity is empty or not an integer, or the item has no
   * price.
   */
  function CatalogLine(category: string, itemName: string, qtyText: string, prices: map<string, real>)
    : (r: Option<LineItem>)
    ensures r.Some? <==> itemName != "-" && qtyText != [] && ParseInt(qtyText).Some? && itemName in prices
    ensures r.Some? ==> r.value.category == category && r.value.name == itemName && Priced(r.value)
    ensures r.Some? ==> r.value.qty == ParseInt(qtyText).value && r.value.unitPrice == prices[itemName]
  {
    if itemName == "-" || qtyText == [] then None
    else
      match ParseInt(qtyText)
      case None => None
      case Some(qty) =>
        if itemName in prices then Some(LineItem(itemName, category, qty, prices[itemName], LineTotal(qty, prices[itemName])))
        else None
  }

  /** `list.pop(i)` on an index in range. */
  function RemoveAt(s: seq<LineItem>, i: nat): (r: seq<LineItem>)
    requires i < |s|
    ensures |r| == |s| - 1
    ensures forall k :: 0 <= k < i ==> r[k] == s[k]
    ensures forall k :: i <= k < |r| ==> r[k] == s[k + 1]
  {
    s[..i] + s[i + 1..]
  }

  /** `list.insert(i, x)` on an index at most the length. */
  function InsertAt(s: seq<LineItem>, i: nat, x: LineItem): (r: seq<LineItem>)
    requires i <= |s|
    ensures |r| == |s| + 1 && r[i] == x
    ensures forall k :: 0 <= k < i ==> r[k] == s[k]
    ensures forall k :: i < k < |r| ==> r[k] == s[k - 1]
  {
    s[..i] + [x] + s[i..]
  }

  /** Popping what was just inserted gives the list back, and so does re-inserting what was just popped. */
  lemma RemoveInsertInverse(s: seq<LineItem>, i: nat, x: LineItem)
    requires i <= |s|
    ensures RemoveAt(InsertAt(s, i, x), i) == s
    ensures i < |s| ==> InsertAt(RemoveAt(s, i), i, s[i]) == s
  {
    var r := RemoveAt(InsertAt(s, i, x), i);
    assert forall k :: 0 <= k < |s| ==> r[k] == s[k];
    if i < |s| {
      var t := InsertAt(RemoveAt(s, i), i, s[i]);
      assert forall k :: 0 <= k < |s| ==> t[k] == s[k];
    }
  }

  /**
   * Where the new line of `add_or_update_item_in_estimate` goes: appended
   * when no line is being edited; otherwise popped out at the edited index
   * and inserted back there. None when that pop raises IndexError.
   */
  function PlaceLine(items: seq<LineItem>, editing: Option<nat>, x: LineItem): (r: Option<seq<LineItem>>)
    ensures editing.None? ==> r == Some(items + [x])
    ensures editing.Some? ==> (r.Some? <==> editing.value < |items|)
    ensures editing.Some? && r.Some? ==> r.value == items[editing.value := x]
  {
    match editing
    case None => Some(items + [x])
    case Some(i) =>
      if i < |items| then
        var r := InsertAt(RemoveAt(items, i), i, x);
        assert r == items[i := x];
        Some(r)
      else None
  }

  /** Placing a line changes the subtotal by exactly what it adds or replaces. */
  lemma PlaceLineSubtotal(items: seq<LineItem>, editing: Option<nat>, x: LineItem)
    requires PlaceLine(items, editing, x).Some?
    ensures editing.None? ==> Subtotal(PlaceLine(items, editing, x).value) == Subtotal(items) + x.total
    ensures editing.Some? ==> Subtotal(PlaceLine(items, editing, x).value)
                              == Subtotal(items) - items[editing.value].total + x.total
  {
    match editing
    case None => SubtotalAppend(items, x);
    case Some(i) => SubtotalReplace(items, i, x);
  }

  /**
   * `delete_item_from_estimate` once confirmed: the line at the index is
   * popped; an index out of range raises and leaves the list as it was.
   */
  function DeleteLine(items: seq<LineItem>, i: nat): (r: seq<LineItem>)
    ensures i < |items| ==> |r| == |items| - 1 && multiset(r) + multiset{items[i]} == multiset(items)
    ensures i < |items| ==> r == RemoveAt(items, i)
    ensures i >= |items| ==> r == items
  {
    if i < |items| then
      assert items == items[..i] + [items[i]] + items[i + 1..];
      RemoveAt(items, i)
    else items
  }

  /** Deleting a line takes exactly its total off the subtotal. */
  lemma DeleteLineSubtotal(items: seq<LineItem>, i: nat)
    requires i < |items|
    ensures Subtotal(DeleteLine(items, i)) == Subtotal(items) - items[i].total
  {
    SubtotalRemove(items, i);
  }

  /**
   * `move_item_in_estimate`: the line trades places with the one above or
   * below; at the top going up or at the bottom going down nothing moves.
   * An index out of range raises and leaves the list as it was.
   */
  function MoveLine(items: seq<LineItem>, i: nat, dir: Direction): (r: seq<LineItem>)
    ensures |r| == |items| && multiset(r) == multiset(items)
  {
    if i < |items| then
      match Neighbour(|items|, i, dir)
      case None => items
      case Some(j) => items[i := items[j]][j := items[i]]
    else items
  }

  /** A move that is allowed exchanges the two lines and leaves every other line in place. */
  lemma MoveLineShape(items: seq<LineItem>, i: nat, dir: Direction)
    requires i < |items| && Neighbour(|items|, i, dir).Some?
    ensures var j := Neighbour(|items|, i, dir).value;
            var r := MoveLine(items, i, dir);
            r[i] == items[j] && r[j] == items[i]
            && forall k :: 0 <= k < |items| && k != i && k != j ==> r[k] == items[k]
  {
  }

  /** Moving the first line up or the last line down leaves the list as it is. */
  lemma MoveLineAtBoundary(items: seq<LineItem>, i: nat, dir: Direction)
    requires (dir == Up && i == 0) || (dir == Down && i + 1 == |items|) || i >= |items|
    ensures MoveLine(items, i, dir) == items
  {
  }

  /** Moving never changes the subtotal. */
  lemma MoveLineSubtotal(items: seq<LineItem>, i: nat, dir: Direction)
    ensures Subtotal(MoveLine(items, i, dir)) == Subtotal(items)
  {
    SubtotalPermutation(MoveLine(items, i, dir), items);
  }

  /** A move followed by the opposite move from the line's new position restores the list. */
  lemma MoveLineThenBack(items: seq<LineItem>, i: nat, dir: Direction)
    requires i < |items| && Neighbour(|items|, i, dir).Some?
    ensures var j := Neighbour(|items|, i, dir).value;
            MoveLine(MoveLine(items, i, dir), j, Opposite(dir)) == items
  {
    var j := Neighbour(|items|, i, dir).value;
    var r := MoveLine(items, i, dir);
    assert Neighbour(|r|, j, Opposite(dir)) == Some(i);
    var back := MoveLine(r, j, Opposite(dir));
    assert forall k :: 0 <= k < |items| ==> back[k] == items[k];
  }

  // ---------------------------------------------------------------------
  // The screen.

  class EstimateFrame {
    /** The database the screen reads from and writes to. */
    const db: Database
    var lineItems: seq<LineItem>
    var currentJobId: Option<nat>
    var selectedCustomerId: Option<nat>
    var editingItemIndex: Option<nat>
    var jobName: string
    var markup: Entry
    var installQty: Entry
    var installCost: Entry
    var misc: Entry
    /** Item name to unit price, as `update_dropdowns` last read it from the price list. */
    var prices: map<string, real>

    /** The fields a save writes and a load fills in. */
    function Screen(): Form
      reads this
    {
      Form(lineItems, currentJobId, selectedCustomerId, jobName, markup, installQty, installCost, misc)
    }

    /** The frame comes up through `clear_estimate`: an empty new estimate. */
    constructor (db: Database)
      ensures this.db == db && prices == map[]
      ensures Screen() == Cleared(db.settings) && editingItemIndex.None?
    {
      this.db := db;
      prices := map[];
      new;
      ClearEstimate();
    }

    /** `update_dropdowns`, as far as the screen keeps it: the new price map. */
    method UpdateDropdowns(loaded: map<string, real>)
      modifies this`prices
      ensures prices == loaded
    {
      prices := loaded;
    }

    /** `set_customer`: the id of the chosen name, None when the name has none. */
    method SetCustomer(id: Option<nat>)
      modifies this`selectedCustomerId
      ensures selectedCustomerId == id
    {
      selectedCustomerId := id;
    }

    /**
     * `clear_estimate`, with the line being edited forgotten as well (see
     * the findings): no lines, no job, no customer, blank entries but for
     * the default markup and default install price.
     */
    method ClearEstimate()
      modifies this`lineItems, this`currentJobId, this`selectedCustomerId, this`editingItemIndex,
               this`jobName, this`markup, this`installQty, this`installCost, this`misc
      ensures Screen() == Cleared(db.settings) && editingItemIndex.None?
    {
      currentJobId := None;
      lineItems := [];
      selectedCustomerId := None;
      editingItemIndex := None;
      jobName := "";
      markup := Typed(LoadSetting(db.settings, "default_markup", ""));
      installQty := Blank;
      installCost := Typed(LoadSetting(db.settings, "default_install_price", ""));
      misc := Blank;
    }

    /** `add_write_in_item`: a well-formed write-in line is appended; otherwise nothing changes. */
    method AddWriteInItem(desc: string, qtyText: string, priceText: string)
      modifies this`lineItems
      ensures WriteInLine(desc, qtyText, priceText).None? ==> lineItems == old(lineItems)
      ensures WriteInLine(desc, qtyText, priceText).Some? ==>
                lineItems == old(lineItems) + [WriteInLine(desc, qtyText, priceText).value]
    {
      match WriteInLine(desc, qtyText, priceText)
      case None =>
      case Some(x) => lineItems := lineItems + [x];
    }

    /** `populate_edit_form`: the index is remembered before the line is read. */
    method PopulateEditForm(index: nat)
      modifies this`editingItemIndex
      ensures editingItemIndex == Some(index)
    {
      editingItemIndex := Some(index);
    }

    /**
     * `add_or_update_item_in_estimate`: without a selected customer or a
     * valid catalog line nothing changes; otherwise the line is placed by
     * `PlaceLine`, and when that succeeds the edit mode ends.
     */
    method AddOrUpdateItemInEstimate(category: string, itemName: string, qtyText: string)
      modifies this`lineItems, this`editingItemIndex
      ensures selectedCustomerId.None? || CatalogLine(category, itemName, qtyText, prices).None? ==>
                lineItems == old(lineItems) && editingItemIndex == old(editingItemIndex)
      ensures selectedCustomerId.Some? && CatalogLine(category, itemName, qtyText, prices).Some? ==>
                var placed := PlaceLine(old(lineItems), old(editingItemIndex), CatalogLine(category, itemName, qtyText, prices).value);
                if placed.None? then lineItems == old(lineItems) && editingItemIndex == old(editingItemIndex)
                else lineItems == placed.value && editingItemIndex.None?
    {
      if itemName == "-" || qtyText == [] || selectedCustomerId.None? {
        return;
      }
      var line := CatalogLine(category, itemName, qtyText, prices);
      if line.None? {
        return;
      }
      match editingItemIndex {
        case None =>
          lineItems := lineItems + [line.value];
        case Some(i) =>
          if i >= |lineItems| {
            return;
          }
          lineItems := InsertAt(RemoveAt(lineItems, i), i, line.value);
      }
      editingItemIndex := None;
    }

    /** `delete_item_from_estimate`: once confirmed (or unasked), the line at the index is popped. */
    method DeleteItemFromEstimate(index: nat, answer: bool)
      modifies this`lineItems
      ensures lineItems == if Proceeds(db.settings, answer) then DeleteLine(old(lineItems), index) else old(lineItems)
    {
      if Proceeds(db.settings, answer) && index < |lineItems| {
        lineItems := RemoveAt(lineItems, index);
      }
    }

    /** `move_item_in_estimate`: the two lines are swapped in place. */
    method MoveItemInEstimate(index: nat, dir: Direction)
      modifies this`lineItems
      ensures lineItems == MoveLine(old(lineItems), index, dir)
    {
      if dir == Up && 0 < index < |lineItems| {
        lineItems := lineItems[index := lineItems[index - 1]][index - 1 := lineItems[index]];
      } else if dir == Down && index + 1 < |lineItems| {
        lineItems := lineItems[index := lineItems[index + 1]][index + 1 := lineItems[index]];
      }
    }

    /**
     * `save_estimate`: with no selected customer nothing is written.
     * Otherwise the job row is inserted (a new estimate, which then holds
     * the new job id) or updated and its stored lines deleted (a loaded
     * one), and the loop inserts one row per line item in list order.
     */
    method SaveEstimate()
      requires db.Valid()
      modifies this`currentJobId, db`jobs, db`lines
      ensures SaveJob(old(db.jobs), old(db.lines), old(Screen())).None? ==>
                db.jobs == old(db.jobs) && db.lines == old(db.lines) && currentJobId == old(currentJobId)
      ensures SaveJob(old(db.jobs), old(db.lines), old(Screen())).Some? ==>
                var s := SaveJob(old(db.jobs), old(db.lines), old(Screen())).value;
                db.jobs == s.jobs && db.lines == s.lines && currentJobId == Some(s.jobId)
      ensures db.Valid()
    {
      if !Truthy(selectedCustomerId) {
        return;
      }
      var id := WriteJobRow();
      WriteLines(id);
    }

    /**
     * The job row part of `save_estimate`: a new estimate is inserted under
     * the next free job id, which it then holds; a loaded one is updated and
     * its stored lines deleted.
     */
    method WriteJobRow() returns (id: nat)
      requires db.Valid() && Truthy(selectedCustomerId)
      modifies this`currentJobId, db`jobs, db`lines
      ensures var s := SaveJob(old(db.jobs), old(db.lines), old(Screen())).value;
              db.jobs == s.jobs && id == s.jobId && currentJobId == Some(id)
              && s.lines == AppendLines(db.lines, id, lineItems)
      ensures db.Valid()
    {
      var f := Screen();
      match currentJobId {
        case None =>
          id := NextId(db.jobs);
          InsertKeepsIncreasing(db.jobs, JobRecord(selectedCustomerId.value, f));
          db.jobs := db.jobs + [Row(id, JobRecord(selectedCustomerId.value, f))];
          currentJobId := Some(id);
        case Some(j) =>
          id := j;
          SameIdsIncreasing(db.jobs, UpdateJob(db.jobs, id, f));
          WithoutLinesIncreasing(db.lines, {id});
          db.jobs := UpdateJob(db.jobs, id, f);
          db.lines := WithoutLinesOf(db.lines, {id});
      }
    }

    /** The loop of `save_estimate`: one line row per line item, in list order. */
    method WriteLines(id: nat)
      requires db.Valid()
      modifies db`lines
      ensures db.lines == AppendLines(old(db.lines), id, lineItems)
      ensures db.Valid()
    {
      var base := db.lines;
      var i := 0;
      while i < |lineItems|
        invariant 0 <= i <= |lineItems|
        invariant db.lines == AppendLines(base, id, lineItems[..i])
        invariant unchanged(db`customers, db`categories, db`pricelist, db`jobs)
      {
        assert lineItems[..i + 1][..i] == lineItems[..i];
        db.lines := db.lines + [Row(NextId(db.lines), LineRow(id, lineItems[i]))];
        i := i + 1;
      }
      assert lineItems[..i] == lineItems;
      AppendLinesIncreasing(base, id, lineItems);
    }

    /**
     * `load_estimate`: clear the screen, then, when the job exists, fill it
     * in from the job row and its stored lines (read by the loop in rowid
     * order), as `LoadJob` describes.
     */
    method LoadEstimate(jobId: nat, duplicate: bool)
      modifies this`lineItems, this`currentJobId, this`selectedCustomerId, this`editingItemIndex,
               this`jobName, this`markup, this`installQty, this`installCost, this`misc
      ensures Screen() == LoadJob(db.settings, db.jobs, db.lines, jobId, duplicate)
      ensures editingItemIndex.None?
    {
      ClearEstimate();
      var found := Find(db.jobs, jobId);
      if found.Some? {
        FillFromJob(jobId, found.value, duplicate);
      }
    }

    /** The part of `load_estimate` after the job row has been found. */
    method FillFromJob(jobId: nat, job: Job, duplicate: bool)
      requires Find(db.jobs, jobId) == Some(job)
      requires lineItems == [] && currentJobId.None? && misc == Cleared(db.settings).misc
      modifies this`lineItems, this`currentJobId, this`selectedCustomerId,
               this`jobName, this`markup, this`installQty, this`installCost, this`misc
      ensures Screen() == LoadJob(db.settings, db.jobs, db.lines, jobId, duplicate)
    {
      FillFromRow(jobId, job, duplicate);
      ReadStoredLines(JobLines(db.lines, jobId));
      LoadJobFound(db.settings, db.jobs, db.lines, jobId, job, duplicate);
    }

    /**
     * The entries `load_estimate` fills in from the job row: the job id
     * unless duplicating, the customer, the name, the markup, then the
     * installation entries and misc unless the installation fallback raises;
     * a duplicate's name gains " (Copy)" at the end.
     */
    method FillFromRow(jobId: nat, job: Job, duplicate: bool)
      requires currentJobId.None?
      modifies this`currentJobId, this`selectedCustomerId, this`jobName, this`markup, this`installQty,
               this`installCost, this`misc
      ensures var install := InstallFields(job);
              currentJobId == (if duplicate then None else Some(jobId)) && selectedCustomerId == Some(job.customerId)
              && jobName == (if install.Some? && duplicate then job.jobName + " (Copy)" else job.jobName)
              && markup == Shown(job.markupPercent.GetOr(0.0))
              && installQty == (if install.Some? then install.value.0 else Blank)
              && installCost == (if install.Some? then install.value.1 else Blank)
              && misc == (if install.Some? then Shown(job.miscCharge.GetOr(0.0)) else old(misc))
    {
      if !duplicate {
        currentJobId := Some(jobId);
      }
      selectedCustomerId := Some(job.customerId);
      jobName := job.jobName;
      markup := Shown(job.markupPercent.GetOr(0.0));
      installQty := Blank;
      installCost := Blank;
      var install := InstallFields(job);
      if install.Some? {
        installQty := install.value.0;
        installCost := install.value.1;
        misc := Shown(job.miscCharge.GetOr(0.0));
        if duplicate {
          jobName := jobName + " (Copy)";
        }
      }
    }

    /** The loop of `load_estimate` that appends each stored line, in order, to the list. */
    method ReadStoredLines(stored: seq<Line>)
      requires lineItems == []
      modifies this`lineItems
      ensures lineItems == LoadedLines(stored)
    {
      var i := 0;
      while i < |stored|
        invariant 0 <= i <= |stored|
        invariant lineItems == LoadedLines(stored[..i])
      {
        assert LoadedLines(stored[..i + 1]) == LoadedLines(stored[..i]) + [LoadedLine(stored[i])];
        lineItems := lineItems + [LoadedLine(stored[i])];
        i := i + 1;
      }
      assert stored[..i] == stored;
    }

    /**
     * `delete_current_estimate`: nothing for an estimate that was never
     * saved; otherwise, once confirmed, the job row and its lines are
     * deleted and the screen is cleared.
     */
    method DeleteCurrentEstimate(answer: bool)
      modifies this`lineItems, this`currentJobId, this`selectedCustomerId, this`editingItemIndex,
               this`jobName, this`markup, this`installQty, this`installCost, this`misc, db`jobs, db`lines
      ensures !Truthy(old(currentJobId)) || !Proceeds(db.settings, answer) ==>
                db.jobs == old(db.jobs) && db.lines == old(db.lines) && Screen() == old(Screen())
                && editingItemIndex == old(editingItemIndex)
      ensures Truthy(old(currentJobId)) && Proceeds(db.settings, answer) ==>
                (db.jobs, db.lines) == DeleteJob(old(db.jobs), old(db.lines), old(currentJobId).value)
                && Screen() == Cleared(db.settings) && editingItemIndex.None?
    {
      if !Truthy(currentJobId) || !Proceeds(db.settings, answer) {
        return;
      }
      var r := DeleteJob(db.jobs, db.lines, currentJobId.value);
      db.jobs := r.0;
      db.lines := r.1;
      ClearEstimate();
    }
  }
}
