/**
 * The manager windows and the application object, reduced to what their
 * buttons do to the database and to the estimate screen: the category
 * manager, the price-list window, the customer and estimate managers, and
 * the price-list import.
 */
module Managers {
  import opened Wrappers
  import opened Numerals
  import opened Tables
  import opened Ordering
  import opened Catalog
  import opened Jobs
  import opened CsvImport
  import opened Store
  import opened Estimate

  // ---------------------------------------------------------------------
  // The category manager.

  class CategoryManagerWindow {
    const db: Database
    /** The category whose name is in the entry for editing, if any. */
    var editingCategoryId: Option<nat>

    constructor (db: Database)
      ensures this.db == db && editingCategoryId.None?
    {
      this.db := db;
      editingCategoryId := None;
    }

    /** `populate_edit_fields`: the Edit button of a row. */
    method PopulateEditFields(catId: nat)
      modifies this`editingCategoryId
      ensures editingCategoryId == Some(catId)
    {
      editingCategoryId := Some(catId);
    }

    /**
     * `add_or_update_category`: an empty (stripped) name does nothing; while
     * editing the row is renamed, otherwise a category is added last. A name
     * another row already has raises IntegrityError: nothing is written and
     * the edit mode stays. On success the edit mode ends.
     */
    method AddOrUpdateCategory(nameText: string)
      requires Increasing(db.categories)
      modifies this`editingCategoryId, db`categories
      ensures Increasing(db.categories)
      ensures var name := Strip(nameText);
              var result := if Truthy(old(editingCategoryId)) then RenameCategory(old(db.categories), old(editingCategoryId).value, name)
                            else AddCategory(old(db.categories), name);
              if name == [] || result.None? then
                db.categories == old(db.categories) && editingCategoryId == old(editingCategoryId)
              else
                db.categories == result.value && editingCategoryId.None?
    {
      var name := Strip(nameText);
      if name == [] {
        return;
      }
      var result;
      if Truthy(editingCategoryId) {
        result := RenameCategory(db.categories, editingCategoryId.value, name);
        if result.Some? {
          SameIdsIncreasing(db.categories, result.value);
        }
      } else {
        result := AddCategory(db.categories, name);
        if result.Some? {
          InsertKeepsIncreasing(db.categories, result.value[|db.categories|].val);
          assert result.value == db.categories + [Row(NextId(db.categories), result.value[|db.categories|].val)];
        }
      }
      if result.None? {
        return;
      }
      db.categories := result.value;
      editingCategoryId := None;
    }

    /**
     * `delete_category`: once confirmed (or unasked), the items move to
     * "Uncategorized" and the row is deleted; when no "Uncategorized" row
     * exists the lookup raises before anything is written.
     */
    method DeleteCategory(catId: nat, answer: bool)
      requires Increasing(db.categories)
      modifies db`categories, db`pricelist
      ensures Increasing(db.categories)
      ensures var result := Catalog.DeleteCategory(old(db.categories), old(db.pricelist), catId);
              if !Proceeds(db.settings, answer) || result.None? then
                db.categories == old(db.categories) && db.pricelist == old(db.pricelist)
              else
                (db.categories, db.pricelist) == result.value
    {
      if !Proceeds(db.settings, answer) {
        return;
      }
      var u := UncategorizedId(db.categories);
      if u.None? {
        return;
      }
      DeleteIdKeepsIncreasing(db.categories, catId);
      db.pricelist := Reassign(db.pricelist, catId, u.value);
      db.categories := DeleteId(db.categories, catId);
    }

    /**
     * `move_category`: read the rows in sort order, find the row, and when
     * it has a neighbour in the direction of the move, exchange their
     * sort_order values with two UPDATEs.
     */
    method MoveCategory(catId: nat, dir: Direction)
      requires Increasing(db.categories)
      modifies db`categories
      ensures Increasing(db.categories)
      ensures db.categories == Catalog.MoveCategory(old(db.categories), catId, dir)
    {
      var sorted := SortByOrder(CategorySlots(db.categories));
      var index := FindIndex(sorted, catId);
      if index == -1 {
        return;
      }
      var other := Neighbour(|sorted|, index, dir);
      if other.None? {
        return;
      }
      var first := sorted[index];
      var second := sorted[other.value];
      var t := SetCategoryOrder(db.categories, first.id, second.order);
      SameIdsIncreasing(db.categories, t);
      SameIdsIncreasing(t, SetCategoryOrder(t, second.id, first.order));
      db.categories := SetCategoryOrder(t, second.id, first.order);
    }
  }

  // ---------------------------------------------------------------------
  // The price-list window.

  /**
   * The entries of the item form as `add_or_update_item` accepts them: the
   * stripped name, the price and the category id; None when the name or the
   * price is empty, the category is "-", the price is not a number or the
   * category is not in the window's map.
   */
  function ItemEntry(nameText: string, priceText: string, categoryName: string, categories: map<string, nat>)
    : (r: Option<(string, real, nat)>)
    ensures r.Some? ==> r.value.0 == Strip(nameText) != [] && ParseFloat(priceText) == Some(r.value.1)
                        && categoryName in categories && r.value.2 == categories[categoryName]
  {
    var name := Strip(nameText);
    if name == [] || priceText == [] || categoryName == "-" then None
    else
      match ParseFloat(priceText)
      case None => None
      case Some(price) => if categoryName in categories then Some((name, price, categories[categoryName])) else None
  }

  /** The price-list form is rejected exactly when one of its checks fails. */
  lemma ItemEntryRejects(nameText: string, priceText: string, categoryName: string, categories: map<string, nat>)
    ensures ItemEntry(nameText, priceText, categoryName, categories).None? <==>
              Strip(nameText) == [] || priceText == [] || categoryName == "-"
              || ParseFloat(priceText).None? || categoryName !in categories
  {
  }

  class PriceListWindow {
    const db: Database
    /** The item whose fields are in the form for editing, if any. */
    var editingItemId: Option<nat>
    /** Category name to id, as the window last read the categories table. */
    var categories: map<string, nat>

    constructor (db: Database, categories: map<string, nat>)
      ensures this.db == db && editingItemId.None? && this.categories == categories
    {
      this.db := db;
      editingItemId := None;
      this.categories := categories;
    }

    /** `populate_edit_fields`: the Edit button of an item. */
    method PopulateEditFields(itemId: nat)
      modifies this`editingItemId
      ensures editingItemId == Some(itemId)
    {
      editingItemId := Some(itemId);
    }

    /**
     * `add_or_update_item`: nothing when the stripped name or the price is
     * empty, the category is "-", or the price is not a number. While
     * editing, the item's name, price and category are updated; otherwise a
     * new item goes last in its category. Then the edit mode ends.
     */
    method AddOrUpdateItem(nameText: string, priceText: string, categoryName: string)
      requires Increasing(db.pricelist)
      modifies this`editingItemId, db`pricelist
      ensures Increasing(db.pricelist)
      ensures ItemEntry(nameText, priceText, categoryName, old(categories)).None? ==>
                db.pricelist == old(db.pricelist) && editingItemId == old(editingItemId)
      ensures ItemEntry(nameText, priceText, categoryName, old(categories)).Some? ==>
                var (name, price, catId) := ItemEntry(nameText, priceText, categoryName, old(categories)).value;
                editingItemId.None?
                && db.pricelist == match old(editingItemId)
                                   case Some(id) => UpdateItem(old(db.pricelist), id, name, price, catId)
                                   case None => AddItem(old(db.pricelist), name, price, catId)
    {
      var entry := ItemEntry(nameText, priceText, categoryName, categories);
      if entry.None? {
        return;
      }
      var (name, price, catId) := entry.value;
      WriteItem(name, price, catId);
    }

    /** The write of `add_or_update_item` once the form is accepted: update or insert, then leave edit mode. */
    method WriteItem(name: string, price: real, catId: nat)
      requires Increasing(db.pricelist)
      modifies this`editingItemId, db`pricelist
      ensures Increasing(db.pricelist) && editingItemId.None?
      ensures db.pricelist == match old(editingItemId)
                              case Some(id) => UpdateItem(old(db.pricelist), id, name, price, catId)
                              case None => AddItem(old(db.pricelist), name, price, catId)
    {
      match editingItemId {
        case Some(id) =>
          SameIdsIncreasing(db.pricelist, UpdateItem(db.pricelist, id, name, price, catId));
          db.pricelist := UpdateItem(db.pricelist, id, name, price, catId);
        case None =>
          AddItemIncreasing(db.pricelist, name, price, catId);
          db.pricelist := AddItem(db.pricelist, name, price, catId);
      }
      editingItemId := None;
    }

    /**
     * `move_item`: the move of `move_category` among the items of one
     * category, found by the same search loop.
     */
    method MoveItem(itemId: nat, dir: Direction, categoryId: nat)
      requires Increasing(db.pricelist)
      modifies db`pricelist
      ensures Increasing(db.pricelist)
      ensures db.pricelist == Catalog.MoveItem(old(db.pricelist), itemId, dir, categoryId)
    {
      var sorted := SortByOrder(ItemSlots(db.pricelist, categoryId));
      var index := FindIndex(sorted, itemId);
      if index == -1 {
        return;
      }
      var other := Neighbour(|sorted|, index, dir);
      if other.None? {
        return;
      }
      var first := sorted[index];
      var second := sorted[other.value];
      var t := SetItemOrder(db.pricelist, first.id, second.order);
      SameIdsIncreasing(db.pricelist, t);
      SameIdsIncreasing(t, SetItemOrder(t, second.id, first.order));
      db.pricelist := SetItemOrder(t, second.id, first.order);
    }

    /** `delete_item`: once confirmed (or unasked), the row is deleted. */
    method DeleteItem(itemId: nat, answer: bool)
      requires Increasing(db.pricelist)
      modifies db`pricelist
      ensures Increasing(db.pricelist)
      ensures db.pricelist == if Proceeds(db.settings, answer) then DeleteId(old(db.pricelist), itemId) else old(db.pricelist)
      ensures Proceeds(db.settings, answer) ==> itemId !in Ids(db.pricelist)
    {
      if Proceeds(db.settings, answer) {
        DeleteIdKeepsIncreasing(db.pricelist, itemId);
        db.pricelist := DeleteId(db.pricelist, itemId);
      }
    }
  }

  // ---------------------------------------------------------------------
  // The customer and estimate managers.

  class CustomerManagerWindow {
    const db: Database

    constructor (db: Database)
      ensures this.db == db
    {
      this.db := db;
    }

    /**
     * `delete_customer`, with the cascade completed (see the findings): once
     * confirmed (or unasked), the customer's jobs, their lines and the
     * customer row are deleted.
     */
    method DeleteCustomer(customerId: nat, answer: bool)
      requires Increasing(db.jobs) && Increasing(db.lines)
      modifies db`customers, db`jobs, db`lines
      ensures Increasing(db.jobs) && Increasing(db.lines)
      ensures old(NoOrphans(db.jobs, db.lines)) ==> NoOrphans(db.jobs, db.lines)
      ensures Proceeds(db.settings, answer) ==>
                (db.customers, db.jobs, db.lines) == Jobs.DeleteCustomer(old(db.customers), old(db.jobs), old(db.lines), customerId)
      ensures !Proceeds(db.settings, answer) ==>
                db.customers == old(db.customers) && db.jobs == old(db.jobs) && db.lines == old(db.lines)
    {
      if Proceeds(db.settings, answer) {
        DeleteCustomerKeepsOrder(db.customers, db.jobs, db.lines, customerId);
        var r := Jobs.DeleteCustomer(db.customers, db.jobs, db.lines, customerId);
        db.customers := r.0;
        db.jobs := r.1;
        db.lines := r.2;
      }
    }
  }

  class EstimateManagerWindow {
    const db: Database
    const frame: EstimateFrame

    constructor (frame: EstimateFrame)
      ensures db == frame.db && this.frame == frame
    {
      db := frame.db;
      this.frame := frame;
    }

    /**
     * `delete_job`: once confirmed (or unasked), the job's lines and the job
     * row are deleted, and the estimate screen is cleared when it shows
     * that job.
     */
    method DeleteJob(jobId: nat, answer: bool)
      requires db == frame.db
      modifies db`jobs, db`lines, frame`lineItems, frame`currentJobId, frame`selectedCustomerId,
               frame`editingItemIndex, frame`jobName, frame`markup, frame`installQty, frame`installCost, frame`misc
      ensures Proceeds(db.settings, answer) ==> (db.jobs, db.lines) == Jobs.DeleteJob(old(db.jobs), old(db.lines), jobId)
      ensures !Proceeds(db.settings, answer) ==> db.jobs == old(db.jobs) && db.lines == old(db.lines)
      ensures Proceeds(db.settings, answer) && old(frame.currentJobId) == Some(jobId) ==>
                frame.Screen() == Cleared(db.settings) && frame.editingItemIndex.None?
      ensures !Proceeds(db.settings, answer) || old(frame.currentJobId) != Some(jobId) ==>
                frame.Screen() == old(frame.Screen()) && frame.editingItemIndex == old(frame.editingItemIndex)
    {
      if !Proceeds(db.settings, answer) {
        return;
      }
      var r := Jobs.DeleteJob(db.jobs, db.lines, jobId);
      db.lines := r.1;
      db.jobs := r.0;
      if frame.currentJobId == Some(jobId) {
        frame.ClearEstimate();
      }
    }

    /** `load_job`: the Load button. */
    method LoadJob(jobId: nat)
      requires db == frame.db
      modifies frame`lineItems, frame`currentJobId, frame`selectedCustomerId,
               frame`editingItemIndex, frame`jobName, frame`markup, frame`installQty, frame`installCost, frame`misc
      ensures frame.Screen() == Jobs.LoadJob(db.settings, db.jobs, db.lines, jobId, false)
      ensures frame.editingItemIndex.None?
    {
      frame.LoadEstimate(jobId, false);
    }

    /** `duplicate_job`: the Duplicate button, a load as an unsaved copy. */
    method DuplicateJob(jobId: nat)
      requires db == frame.db
      modifies frame`lineItems, frame`currentJobId, frame`selectedCustomerId,
               frame`editingItemIndex, frame`jobName, frame`markup, frame`installQty, frame`installCost, frame`misc
      ensures frame.Screen() == Jobs.LoadJob(db.settings, db.jobs, db.lines, jobId, true)
      ensures frame.currentJobId.None? && frame.editingItemIndex.None?
    {
      frame.LoadEstimate(jobId, true);
    }
  }

  // ---------------------------------------------------------------------
  // The application object.

  class App {
    const db: Database

    constructor (db: Database)
      ensures this.db == db
    {
      this.db := db;
    }

    /**
     * `import_pricelist_csv`: nothing unless confirmed and a file is
     * chosen. Inside one transaction the price list is emptied, the header
     * row skipped, and each data row written by the loop; a file without a
     * header row or a row the loop cannot take rolls everything back.
     */
    method ImportPricelistCsv(confirm: bool, file: Option<seq<seq<string>>>)
      modifies db`categories, db`pricelist
      ensures !confirm || file.None? ==> db.categories == old(db.categories) && db.pricelist == old(db.pricelist)
      ensures confirm && file.Some? ==>
                match ImportPriceList(old(db.categories), file.value)
                case None => db.categories == old(db.categories) && db.pricelist == old(db.pricelist)
                case Some((cats, items)) => db.categories == cats && db.pricelist == items
    {
      if !confirm || file.None? {
        return;
      }
      var rows := file.value;
      if rows == [] {
        return;
      }
      var savedCategories, savedPricelist := db.categories, db.pricelist;
      db.pricelist := [];
      var cache: Cache := CacheOf(db.categories);
      ghost var start := Progress(db.categories, [], cache);
      var i := 1;
      while i < |rows|
        invariant 1 <= i <= |rows|
        invariant savedCategories == old(db.categories) && savedPricelist == old(db.pricelist)
        invariant ImportRows(start, rows[1..]) == ImportRows(Progress(db.categories, db.pricelist, cache), rows[i..])
      {
        assert rows[i..][1..] == rows[i + 1..];
        var ok;
        ok, cache := ImportRowInto(rows[i], cache);
        if !ok {
          db.categories, db.pricelist := savedCategories, savedPricelist;
          return;
        }
        i := i + 1;
      }
    }

    /**
     * One pass of the import loop: the category is looked up in the cache
     * or inserted last (and cached), then the item is inserted last in it.
     * A row without three fields, or whose price is not a number, raises.
     */
    method ImportRowInto(row: seq<string>, cache: Cache) returns (ok: bool, cache': Cache)
      modifies db`categories, db`pricelist
      ensures ok <==> !Malformed(row)
      ensures ok ==> ImportRow(Progress(old(db.categories), old(db.pricelist), cache), row)
                     == Some(Progress(db.categories, db.pricelist, cache'))
    {
      cache' := cache;
      if |row| != 3 {
        return false, cache';
      }
      var name := row[0];
      if name !in cache' {
        cache' := cache'[name := NextId(db.categories)];
        db.categories := AppendCategory(db.categories, name);
      }
      var price := ParseFloat(row[2]);
      if price.None? {
        return false, cache';
      }
      db.pricelist := AddItem(db.pricelist, row[1], price.value, cache'[name]);
      ok := true;
    }
  }
}
