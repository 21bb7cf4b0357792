/**
 * The catalog: the categories table and the price list, with the rules the
 * category manager and the price-list window apply to them. A new row sorts
 * after every existing one (MAX(sort_order) + 1), a move swaps two
 * sort_order values, and deleting a category hands its items to
 * "Uncategorized".
 */
module Catalog {
  import opened Wrappers
  import opened Ordering
  import opened Tables

  // ---------------------------------------------------------------------
  // Categories.

  /** The categories reduced to (id, sort_order), as `move_category` selects them. */
  function CategorySlots(t: seq<Row<Category>>): (r: seq<Slot>)
    ensures |r| == |t| && forall k :: 0 <= k < |t| ==> r[k] == Slot(t[k].id, t[k].val.sortOrder)
  {
    if t == [] then [] else [Slot(t[0].id, t[0].val.sortOrder)] + CategorySlots(t[1..])
  }

  /** `SELECT MAX(sort_order) FROM categories`, with `or 0` for an empty table. */
  function MaxCategoryOrder(t: seq<Row<Category>>): (r: int)
    ensures forall k :: 0 <= k < |t| ==> t[k].val.sortOrder <= r
    ensures t == [] ==> r == 0
    ensures t != [] ==> exists k :: 0 <= k < |t| && t[k].val.sortOrder == r
  {
    if t == [] then 0
    else if |t| == 1 then t[0].val.sortOrder
    else
      var m := MaxCategoryOrder(t[1..]);
      if t[0].val.sortOrder >= m then t[0].val.sortOrder else m
  }

  /** The UNIQUE constraint on categories.name. */
  predicate UniqueNames(t: seq<Row<Category>>) {
    forall i, j :: 0 <= i < j < |t| ==> t[i].val.name != t[j].val.name
  }

  /**
   * The INSERT branch of `add_or_update_category`: a new row after all others
   * in sort order; None when the name exists (the IntegrityError).
   */
  function AddCategory(t: seq<Row<Category>>, name: string): (r: Option<seq<Row<Category>>>)
    ensures r.None? <==> name in CategoryNames(t)
    ensures r.Some? ==> r.value == AppendCategory(t, name)
  {
    if name in CategoryNames(t) then None else Some(AppendCategory(t, name))
  }

  /** `INSERT INTO categories (name, sort_order) VALUES (?, IFNULL(MAX(sort_order), 0) + 1)`. */
  function AppendCategory(t: seq<Row<Category>>, name: string): (r: seq<Row<Category>>)
    ensures |r| == |t| + 1 && r[..|t|] == t
    ensures r[|t|].id == NextId(t) && r[|t|].val.name == name
    ensures forall k :: 0 <= k < |t| ==> t[k].val.sortOrder < r[|t|].val.sortOrder
  {
    var r := t + [Row(NextId(t), Category(name, MaxCategoryOrder(t) + 1))];
    assert r[..|t|] == t;
    r
  }

  /** The category named `name` changes nothing but the rows with that id. */
  function SetCategoryName(t: seq<Row<Category>>, id: nat, name: string): (r: seq<Row<Category>>)
    ensures |r| == |t| && Ids(r) == Ids(t) && CategorySlots(r) == CategorySlots(t)
    ensures forall k :: 0 <= k < |t| ==> r[k] == if t[k].id == id then Row(id, Category(name, t[k].val.sortOrder)) else t[k]
  {
    if t == [] then []
    else
      [if t[0].id == id then Row(id, Category(name, t[0].val.sortOrder)) else t[0]] + SetCategoryName(t[1..], id, name)
  }

  /**
   * The UPDATE branch of `add_or_update_category`. It fails (IntegrityError)
   * only when the row exists and another row already carries the name; an
   * id that is not in the table updates nothing.
   */
  function RenameCategory(t: seq<Row<Category>>, id: nat, name: string): (r: Option<seq<Row<Category>>>)
    ensures r.None? <==> id in Ids(t) && exists k :: 0 <= k < |t| && t[k].id != id && t[k].val.name == name
    ensures r.Some? ==> r.value == SetCategoryName(t, id, name)
  {
    if id in Ids(t) && exists k :: 0 <= k < |t| && t[k].id != id && t[k].val.name == name then None
    else Some(SetCategoryName(t, id, name))
  }

  /** The INSERT branch keeps the rowids in order and the names unique. */
  lemma AddCategoryKeepsUnique(t: seq<Row<Category>>, name: string)
    requires Increasing(t) && UniqueNames(t) && AddCategory(t, name).Some?
    ensures Increasing(AddCategory(t, name).value) && UniqueNames(AddCategory(t, name).value)
  {
    var r := AddCategory(t, name).value;
    forall i, j | 0 <= i < j < |r|
      ensures r[i].val.name != r[j].val.name
    {
      if j == |t| {
        assert r[i] == t[i];
        assert CategoryNames(t)[i] == t[i].val.name;
      }
    }
    InsertKeepsIncreasing(t, r[|t|].val);
  }

  /** The UPDATE branch keeps the rowids in order and the names unique. */
  lemma RenameCategoryKeepsUnique(t: seq<Row<Category>>, id: nat, name: string)
    requires Increasing(t) && UniqueNames(t) && RenameCategory(t, id, name).Some?
    ensures Increasing(RenameCategory(t, id, name).value) && UniqueNames(RenameCategory(t, id, name).value)
  {
    var r := RenameCategory(t, id, name).value;
    forall i, j | 0 <= i < j < |r|
      ensures r[i].id < r[j].id && r[i].val.name != r[j].val.name
    {
      assert r[i].id == t[i].id && r[j].id == t[j].id;
      if t[i].id == id {
        assert t[j].id != id;
      } else if t[j].id == id {
        assert id in Ids(t) by { assert Ids(t)[j] == id; }
      }
    }
  }

  /** A category inserted by `add_or_update_category` is listed last by ORDER BY sort_order. */
  lemma {:induction false} NewCategorySortsLast(t: seq<Row<Category>>, name: string)
    requires AddCategory(t, name).Some?
    ensures var r := AddCategory(t, name).value;
            SortByOrder(CategorySlots(r)) == SortByOrder(CategorySlots(t)) + [CategorySlots(r)[|t|]]
  {
    var r := AppendCategory(t, name);
    var s, before := CategorySlots(r), CategorySlots(t);
    assert s == before + [s[|t|]] by {
      forall k | 0 <= k < |t| ensures s[k] == before[k] {
        assert r[k] == r[..|t|][k];
      }
    }
    AppendLargest(before, s[|t|]);
  }

  /** The sort_order update of one category: `UPDATE categories SET sort_order = ? WHERE id = ?`. */
  function SetCategoryOrder(t: seq<Row<Category>>, id: nat, order: int): (r: seq<Row<Category>>)
    ensures |r| == |t| && Ids(r) == Ids(t) && CategoryNames(r) == CategoryNames(t)
    ensures forall k :: 0 <= k < |t| ==> r[k] == if t[k].id == id then Row(id, Category(t[k].val.name, order)) else t[k]
  {
    if t == [] then []
    else
      [if t[0].id == id then Row(id, Category(t[0].val.name, order)) else t[0]] + SetCategoryOrder(t[1..], id, order)
  }

  /**
   * `move_category`: find the row in ORDER BY sort_order, and when it has a
   * neighbour in the direction of the move, write the neighbour's sort_order
   * into the row and the row's into the neighbour; otherwise nothing.
   */
  function MoveCategory(t: seq<Row<Category>>, id: nat, dir: Direction): (r: seq<Row<Category>>)
    ensures |r| == |t| && Ids(r) == Ids(t) && CategoryNames(r) == CategoryNames(t)
  {
    match MovePlan(CategorySlots(t), id, dir)
    case None => t
    case Some(p) => SetCategoryOrder(SetCategoryOrder(t, p.target.id, p.target.order), p.other.id, p.other.order)
  }

  /** Distinct rowids give distinct slot ids. */
  lemma CategorySlotsDistinct(t: seq<Row<Category>>)
    requires Increasing(t)
    ensures DistinctIds(CategorySlots(t))
  {
    var s := CategorySlots(t);
    forall i, j | 0 <= i < j < |s| ensures s[i].id != s[j].id {
      assert s[i].id == t[i].id && s[j].id == t[j].id;
    }
  }

  /** The two UPDATE statements of a move do to the sort orders what the swap does to the slots. */
  lemma SwapCategoryOrders(t: seq<Row<Category>>, p: Swap)
    requires p.target.id != p.other.id
    ensures var r := SetCategoryOrder(SetCategoryOrder(t, p.target.id, p.target.order), p.other.id, p.other.order);
            Ids(r) == Ids(t) && CategoryNames(r) == CategoryNames(t)
            && CategorySlots(r) == ApplySwap(CategorySlots(t), p)
  {
    var r := SetCategoryOrder(SetCategoryOrder(t, p.target.id, p.target.order), p.other.id, p.other.order);
    var s := CategorySlots(t);
    ApplySwapAt(s, p);
    forall k | 0 <= k < |t|
      ensures CategorySlots(r)[k] == ApplySwap(s, p)[k]
    {
    }
  }

  /**
   * A move keeps every id and every name, and changes the sort orders
   * exactly as the planned swap does: only the target and its neighbour.
   */
  lemma MoveCategoryShape(t: seq<Row<Category>>, id: nat, dir: Direction)
    requires Increasing(t)
    ensures var r := MoveCategory(t, id, dir);
            Ids(r) == Ids(t) && CategoryNames(r) == CategoryNames(t) && Increasing(r)
    ensures MovePlan(CategorySlots(t), id, dir).None? ==> MoveCategory(t, id, dir) == t
    ensures MovePlan(CategorySlots(t), id, dir).Some? ==>
              CategorySlots(MoveCategory(t, id, dir)) == ApplySwap(CategorySlots(t), MovePlan(CategorySlots(t), id, dir).value)
  {
    if MovePlan(CategorySlots(t), id, dir).Some? {
      CategorySlotsDistinct(t);
      MovePlanNamesTwoRows(CategorySlots(t), id, dir);
      SwapCategoryOrders(t, MovePlan(CategorySlots(t), id, dir).value);
    }
    SameIdsIncreasing(t, MoveCategory(t, id, dir));
  }

  /** Equal ids, names and sort orders make equal tables. */
  lemma CategoriesFromParts(a: seq<Row<Category>>, b: seq<Row<Category>>)
    requires Ids(a) == Ids(b) && CategoryNames(a) == CategoryNames(b) && CategorySlots(a) == CategorySlots(b)
    ensures a == b
  {
    assert |a| == |Ids(a)| == |b|;
    forall k | 0 <= k < |a| ensures a[k] == b[k] {
      assert CategorySlots(a)[k] == CategorySlots(b)[k];
      assert CategoryNames(a)[k] == CategoryNames(b)[k];
    }
  }

  /**
   * With distinct sort orders, a move leaves the table unchanged exactly when
   * the id is absent or the row is already first (up) or last (down).
   */
  lemma MoveCategoryNoOpIff(t: seq<Row<Category>>, id: nat, dir: Direction)
    requires Increasing(t) && Keyed(CategorySlots(t))
    ensures MoveCategory(t, id, dir) == t <==>
            (forall z :: z in CategorySlots(t) ==> z.id != id)
            || (exists z :: z in CategorySlots(t) && z.id == id && Extreme(CategorySlots(t), z, dir))
  {
    var slots := CategorySlots(t);
    MovePlanNoneAtBoundary(slots, id, dir);
    if MovePlan(slots, id, dir).Some? {
      PlannedCategoryMoveChanges(t, id, dir);
    } else {
      MoveCategoryShape(t, id, dir);
    }
  }

  /** With distinct sort orders, a planned swap of categories changes the table. */
  lemma PlannedCategoryMoveChanges(t: seq<Row<Category>>, id: nat, dir: Direction)
    requires Increasing(t) && Keyed(CategorySlots(t)) && MovePlan(CategorySlots(t), id, dir).Some?
    ensures MoveCategory(t, id, dir) != t
  {
    MoveCategoryShape(t, id, dir);
    MovePlanChanges(CategorySlots(t), id, dir);
    assert CategorySlots(MoveCategory(t, id, dir)) != CategorySlots(t);
  }

  /**
   * With distinct sort orders, a move that changed something is undone by
   * moving the same category back the other way.
   */
  lemma {:induction false} MoveCategoryThenBack(t: seq<Row<Category>>, id: nat, dir: Direction)
    requires Increasing(t) && Keyed(CategorySlots(t))
    requires MoveCategory(t, id, dir) != t
    ensures MoveCategory(MoveCategory(t, id, dir), id, Opposite(dir)) == t
  {
    var slots := CategorySlots(t);
    var m := MoveCategory(t, id, dir);
    MoveCategoryShape(t, id, dir);
    {
      var moved := ApplySwap(slots, MovePlan(slots, id, dir).value);
      MoveThenMoveBackRestores(slots, id, dir);
      assert CategorySlots(m) == moved;
      MoveCategoryShape(m, id, Opposite(dir));
      var back := MoveCategory(m, id, Opposite(dir));
      assert CategorySlots(back) == ApplySwap(moved, MovePlan(moved, id, Opposite(dir)).value);
      CategoriesFromParts(back, t);
    }
  }

  /**
   * Whatever the sort orders, a move leaves the table unchanged exactly when
   * the id is absent, the row is first (up) or last (down) in ORDER BY
   * sort_order, or the neighbour it would swap with has the same sort_order.
   */
  lemma MoveCategoryUnchangedIff(t: seq<Row<Category>>, id: nat, dir: Direction)
    requires Increasing(t)
    ensures MoveCategory(t, id, dir) == t <==> Stuck(CategorySlots(t), id, dir)
  {
    var slots := CategorySlots(t);
    MoveCategoryShape(t, id, dir);
    if MovePlan(slots, id, dir).Some? {
      CategorySlotsDistinct(t);
      SwapUnchangedIff(slots, id, dir);
      if ApplySwap(slots, MovePlan(slots, id, dir).value) == slots {
        CategoriesFromParts(MoveCategory(t, id, dir), t);
      }
    }
  }

  /**
   * Adding, renaming, moving and deleting a category keep the sort orders
   * distinct when they were distinct before.
   */
  lemma CategoryEditsKeepKeyed(t: seq<Row<Category>>, items: seq<Row<Item>>, name: string, id: nat, dir: Direction)
    requires Increasing(t) && Keyed(CategorySlots(t))
    ensures AddCategory(t, name).Some? ==> Keyed(CategorySlots(AddCategory(t, name).value))
    ensures RenameCategory(t, id, name).Some? ==> Keyed(CategorySlots(RenameCategory(t, id, name).value))
    ensures Keyed(CategorySlots(MoveCategory(t, id, dir)))
    ensures DeleteCategory(t, items, id).Some? ==> Keyed(CategorySlots(DeleteCategory(t, items, id).value.0))
  {
    AppendKeepsKeyed(t, name);
    MoveCategoryShape(t, id, dir);
    if MovePlan(CategorySlots(t), id, dir).Some? {
      MoveKeepsKeyed(CategorySlots(t), id, dir);
    }
    DeleteKeepsKeyed(t, id);
  }

  /** A category appended after all others keeps ids and sort orders distinct. */
  lemma AppendKeepsKeyed(t: seq<Row<Category>>, name: string)
    requires Increasing(t) && Keyed(CategorySlots(t))
    ensures Keyed(CategorySlots(AppendCategory(t, name)))
  {
    var r := AppendCategory(t, name);
    var s, before := CategorySlots(r), CategorySlots(t);
    forall i, j | 0 <= i < j < |s|
      ensures s[i].id != s[j].id && s[i].order != s[j].order
    {
      assert r[i] == r[..|t|][i];
      if j < |t| {
        assert r[j] == r[..|t|][j];
        assert s[i] == before[i] && s[j] == before[j];
      }
    }
  }

  /** Deleting a row keeps ids and sort orders distinct. */
  lemma DeleteKeepsKeyed(t: seq<Row<Category>>, id: nat)
    requires Increasing(t) && Keyed(CategorySlots(t))
    ensures Keyed(CategorySlots(DeleteId(t, id)))
  {
    var r := DeleteId(t, id);
    var s, before := CategorySlots(r), CategorySlots(t);
    DeleteIdKeepsIncreasing(t, id);
    forall i, j | 0 <= i < j < |s|
      ensures s[i].id != s[j].id && s[i].order != s[j].order
    {
      assert r[i] in t && r[j] in t;
      var a :| 0 <= a < |t| && t[a] == r[i];
      var b :| 0 <= b < |t| && t[b] == r[j];
      assert before[a] == s[i] && before[b] == s[j];
      assert a != b;
    }
  }

  // ---------------------------------------------------------------------
  // Deleting a category.

  /** `SELECT id FROM categories WHERE name='Uncategorized'`, the first row it returns. */
  function UncategorizedId(t: seq<Row<Category>>): (r: Option<nat>)
    ensures r.None? <==> Uncategorized !in CategoryNames(t)
    ensures r.Some? ==> exists k :: 0 <= k < |t| && t[k] == Row(r.value, t[k].val) && t[k].val.name == Uncategorized
  {
    if t == [] then None
    else if t[0].val.name == Uncategorized then Some(t[0].id)
    else
      assert CategoryNames(t) == [t[0].val.name] + CategoryNames(t[1..]);
      var r := UncategorizedId(t[1..]);
      if r.Some? then
        var k :| 0 <= k < |t[1..]| && t[1..][k] == Row(r.value, t[1..][k].val) && t[1..][k].val.name == Uncategorized;
        assert t[k + 1] == t[1..][k];
        r
      else
        r
  }

  /** `UPDATE pricelist SET category_id = ? WHERE category_id = ?`. */
  function Reassign(items: seq<Row<Item>>, from: nat, to: nat): (r: seq<Row<Item>>)
    ensures |r| == |items| && Ids(r) == Ids(items)
    ensures forall k :: 0 <= k < |items| ==>
              r[k] == if items[k].val.categoryId == from then Row(items[k].id, items[k].val.(categoryId := to)) else items[k]
  {
    if items == [] then []
    else
      var head := if items[0].val.categoryId == from then Row(items[0].id, items[0].val.(categoryId := to)) else items[0];
      [head] + Reassign(items[1..], from, to)
  }

  /** The number of price-list items in a category. */
  function CountIn(items: seq<Row<Item>>, cat: nat): nat {
    if items == [] then 0
    else (if items[0].val.categoryId == cat then 1 else 0) + CountIn(items[1..], cat)
  }

  /**
   * Reassigning empties the old category, hands all its items to the new one
   * and leaves every other category's count alone.
   */
  lemma {:induction false} ReassignCounts(items: seq<Row<Item>>, from: nat, to: nat, c: nat)
    requires from != to
    ensures CountIn(Reassign(items, from, to), from) == 0
    ensures CountIn(Reassign(items, from, to), to) == CountIn(items, to) + CountIn(items, from)
    ensures c != from && c != to ==> CountIn(Reassign(items, from, to), c) == CountIn(items, c)
  {
    if items != [] {
      var r := Reassign(items, from, to);
      assert r[1..] == Reassign(items[1..], from, to);
      ReassignCounts(items[1..], from, to, c);
    }
  }

  /** Every item names a category that exists. */
  predicate ItemsInCategories(items: seq<Row<Item>>, cats: seq<Row<Category>>) {
    forall k :: 0 <= k < |items| ==> items[k].val.categoryId in Ids(cats)
  }

  /**
   * `delete_category` once confirmed: None when there is no "Uncategorized"
   * row (the lookup fails before any statement runs); otherwise the items
   * move to "Uncategorized" and then the category row goes.
   */
  function DeleteCategory(cats: seq<Row<Category>>, items: seq<Row<Item>>, catId: nat)
    : (r: Option<(seq<Row<Category>>, seq<Row<Item>>)>)
    ensures r.None? <==> Uncategorized !in CategoryNames(cats)
  {
    match UncategorizedId(cats)
    case None => None
    case Some(u) => Some((DeleteId(cats, catId), Reassign(items, catId, u)))
  }

  /**
   * Deleting a category other than "Uncategorized" removes its row, leaves no
   * item in it, keeps the number of items, adds its items to "Uncategorized",
   * and keeps every item pointing at an existing category.
   */
  lemma DeleteCategoryMovesItems(cats: seq<Row<Category>>, items: seq<Row<Item>>, catId: nat)
    requires DeleteCategory(cats, items, catId).Some?
    requires catId != UncategorizedId(cats).value
    ensures var (cats', items') := DeleteCategory(cats, items, catId).value;
            var u := UncategorizedId(cats).value;
            catId !in Ids(cats') && u in Ids(cats') && |items'| == |items|
            && CountIn(items', catId) == 0
            && CountIn(items', u) == CountIn(items, u) + CountIn(items, catId)
    ensures ItemsInCategories(items, cats) ==>
              ItemsInCategories(DeleteCategory(cats, items, catId).value.1, DeleteCategory(cats, items, catId).value.0)
  {
    var u := UncategorizedId(cats).value;
    var cats' := DeleteId(cats, catId);
    var items' := Reassign(items, catId, u);
    ReassignCounts(items, catId, u, 0);
    var k :| 0 <= k < |cats| && cats[k] == Row(u, cats[k].val) && cats[k].val.name == Uncategorized;
    assert cats[k] in cats';
    InIds(cats', cats[k]);
    if ItemsInCategories(items, cats) {
      forall m | 0 <= m < |items'|
        ensures items'[m].val.categoryId in Ids(cats')
      {
        var c := items[m].val.categoryId;
        if c != catId {
          assert c in Ids(cats);
          var n :| 0 <= n < |cats| && Ids(cats)[n] == c;
          assert cats[n] in cats';
          InIds(cats', cats[n]);
        }
      }
    }
  }

  // ---------------------------------------------------------------------
  // Price-list items.

  /** The items of one category reduced to (id, sort_order), in rowid order, as `move_item` selects them. */
  function ItemSlots(t: seq<Row<Item>>, cat: nat): (r: seq<Slot>)
    ensures forall z :: z in r <==> exists k :: 0 <= k < |t| && t[k].val.categoryId == cat && z == Slot(t[k].id, t[k].val.sortOrder)
  {
    if t == [] then []
    else
      var rest := ItemSlots(t[1..], cat);
      assert forall z :: z in rest <==> exists k :: 1 <= k < |t| && t[k].val.categoryId == cat && z == Slot(t[k].id, t[k].val.sortOrder) by {
        forall z | z in rest ensures exists k :: 1 <= k < |t| && t[k].val.categoryId == cat && z == Slot(t[k].id, t[k].val.sortOrder) {
          var k :| 0 <= k < |t[1..]| && t[1..][k].val.categoryId == cat && z == Slot(t[1..][k].id, t[1..][k].val.sortOrder);
          assert t[k + 1] == t[1..][k];
        }
        forall z | exists k :: 1 <= k < |t| && t[k].val.categoryId == cat && z == Slot(t[k].id, t[k].val.sortOrder) ensures z in rest {
          var k :| 1 <= k < |t| && t[k].val.categoryId == cat && z == Slot(t[k].id, t[k].val.sortOrder);
          assert t[1..][k - 1] == t[k];
        }
      }
      if t[0].val.categoryId == cat then [Slot(t[0].id, t[0].val.sortOrder)] + rest else rest
  }

  /** Appending a row extends the slots of its own category only. */
  lemma {:induction false} ItemSlotsAppend(t: seq<Row<Item>>, x: Row<Item>, cat: nat)
    ensures ItemSlots(t + [x], cat) == ItemSlots(t, cat) + (if x.val.categoryId == cat then [Slot(x.id, x.val.sortOrder)] else [])
  {
    if t == [] {
      assert [] + [x] == [x];
    } else {
      assert (t + [x])[1..] == t[1..] + [x];
      ItemSlotsAppend(t[1..], x, cat);
    }
  }

  /** `SELECT MAX(sort_order) FROM pricelist WHERE category_id = ?`, with `or 0` when the category is empty. */
  function MaxItemOrder(t: seq<Row<Item>>, cat: nat): (r: int)
    ensures forall k :: 0 <= k < |t| && t[k].val.categoryId == cat ==> t[k].val.sortOrder <= r
    ensures (forall k :: 0 <= k < |t| ==> t[k].val.categoryId != cat) ==> r == 0
    ensures (exists k :: 0 <= k < |t| && t[k].val.categoryId == cat) ==>
              exists k :: 0 <= k < |t| && t[k].val.categoryId == cat && t[k].val.sortOrder == r
  {
    if t == [] then 0
    else
      var m := MaxItemOrder(t[1..], cat);
      if t[0].val.categoryId == cat && (t[0].val.sortOrder >= m || forall k :: 1 <= k < |t| ==> t[k].val.categoryId != cat)
      then t[0].val.sortOrder
      else m
  }

  /** The INSERT branch of `add_or_update_item`: a new row last in its category. */
  function AddItem(t: seq<Row<Item>>, name: string, price: real, cat: nat): (r: seq<Row<Item>>)
    ensures |r| == |t| + 1 && r[..|t|] == t && r[|t|].id !in Ids(t)
    ensures r[|t|].val.name == name && r[|t|].val.unitPrice == price && r[|t|].val.categoryId == cat
    ensures forall k :: 0 <= k < |t| && t[k].val.categoryId == cat ==> t[k].val.sortOrder < r[|t|].val.sortOrder
  {
    var r := t + [Row(NextId(t), Item(name, price, MaxItemOrder(t, cat) + 1, cat))];
    assert r[..|t|] == t;
    r
  }
  /** A new item goes under the next free rowid, so rowids stay increasing. */
  lemma AddItemIncreasing(t: seq<Row<Item>>, name: string, price: real, cat: nat)
    requires Increasing(t)
    ensures Increasing(AddItem(t, name, price, cat))
  {
    var r := AddItem(t, name, price, cat);
    InsertKeepsIncreasing(t, r[|t|].val);
    assert r == t + [Row(NextId(t), r[|t|].val)];
  }


  /**
   * A new item is listed last in its category by ORDER BY sort_order, and
   * no other category's list changes.
   */
  lemma NewItemSortsLast(t: seq<Row<Item>>, name: string, price: real, cat: nat, other: nat)
    requires other != cat
    ensures var r := AddItem(t, name, price, cat);
            SortByOrder(ItemSlots(r, cat)) == SortByOrder(ItemSlots(t, cat)) + [Slot(r[|t|].id, r[|t|].val.sortOrder)]
            && ItemSlots(r, other) == ItemSlots(t, other)
  {
    var r := AddItem(t, name, price, cat);
    assert r == t + [r[|t|]];
    ItemSlotsAppend(t, r[|t|], cat);
    ItemSlotsAppend(t, r[|t|], other);
    var s := ItemSlots(t, cat);
    forall k | 0 <= k < |s| ensures s[k].order < r[|t|].val.sortOrder {
      assert s[k] in s;
    }
    AppendLargest(s, Slot(r[|t|].id, r[|t|].val.sortOrder));
  }

  /**
   * The UPDATE branch of `add_or_update_item`: name, price and category
   * change; the sort_order stays, even when the category changes.
   */
  function UpdateItem(t: seq<Row<Item>>, id: nat, name: string, price: real, cat: nat): (r: seq<Row<Item>>)
    ensures |r| == |t| && Ids(r) == Ids(t)
    ensures forall k :: 0 <= k < |t| ==>
              r[k] == if t[k].id == id then Row(id, Item(name, price, t[k].val.sortOrder, cat)) else t[k]
  {
    if t == [] then []
    else
      [if t[0].id == id then Row(id, Item(name, price, t[0].val.sortOrder, cat)) else t[0]]
      + UpdateItem(t[1..], id, name, price, cat)
  }

  /** After an update the row reads back with the new columns and its old sort_order. */
  lemma UpdateThenFind(t: seq<Row<Item>>, k: nat, name: string, price: real, cat: nat)
    requires Increasing(t) && k < |t|
    ensures Find(UpdateItem(t, t[k].id, name, price, cat), t[k].id) == Some(Item(name, price, t[k].val.sortOrder, cat))
  {
    var r := UpdateItem(t, t[k].id, name, price, cat);
    SameIdsIncreasing(t, r);
    FindUnique(r, k);
  }

  /** `UPDATE pricelist SET sort_order = ? WHERE id = ?`. */
  function SetItemOrder(t: seq<Row<Item>>, id: nat, order: int): (r: seq<Row<Item>>)
    ensures |r| == |t| && Ids(r) == Ids(t)
    ensures forall k :: 0 <= k < |t| ==> r[k] == if t[k].id == id then Row(id, t[k].val.(sortOrder := order)) else t[k]
  {
    if t == [] then []
    else
      [if t[0].id == id then Row(id, t[0].val.(sortOrder := order)) else t[0]] + SetItemOrder(t[1..], id, order)
  }

  /**
   * `move_item`: the move of `move_category`, planned among the items of one
   * category; the two UPDATEs address rows by id over the whole price list.
   */
  function MoveItem(t: seq<Row<Item>>, id: nat, dir: Direction, cat: nat): (r: seq<Row<Item>>)
    ensures |r| == |t| && Ids(r) == Ids(t)
    ensures forall k :: 0 <= k < |t| ==> r[k] == Row(t[k].id, t[k].val.(sortOrder := r[k].val.sortOrder))
  {
    match MovePlan(ItemSlots(t, cat), id, dir)
    case None => t
    case Some(p) => SetItemOrder(SetItemOrder(t, p.target.id, p.target.order), p.other.id, p.other.order)
  }

  /** A row after a swap: its sort_order as the swap assigns it, every other column as it was. */
  function Reordered(x: Row<Item>, p: Swap): Row<Item> {
    Row(x.id, x.val.(sortOrder := Assign(Slot(x.id, x.val.sortOrder), p).order))
  }

  /** Reordering every row of the table. */
  function ReorderedAll(t: seq<Row<Item>>, p: Swap): (r: seq<Row<Item>>)
    ensures |r| == |t| && forall k :: 0 <= k < |t| ==> r[k] == Reordered(t[k], p)
  {
    if t == [] then [] else [Reordered(t[0], p)] + ReorderedAll(t[1..], p)
  }

  /** The slots of a reordered table are the swapped slots, in every category. */
  lemma {:induction false} ReorderedSlots(t: seq<Row<Item>>, p: Swap, cat: nat)
    ensures ItemSlots(ReorderedAll(t, p), cat) == ApplySwap(ItemSlots(t, cat), p)
  {
    if t != [] {
      ReorderedSlots(t[1..], p, cat);
      var r := ReorderedAll(t, p);
      assert r[1..] == ReorderedAll(t[1..], p);
      if t[0].val.categoryId == cat {
        var z := Slot(t[0].id, t[0].val.sortOrder);
        assert ApplySwap([z] + ItemSlots(t[1..], cat), p) == [Assign(z, p)] + ApplySwap(ItemSlots(t[1..], cat), p) by {
          assert ([z] + ItemSlots(t[1..], cat))[1..] == ItemSlots(t[1..], cat);
        }
      }
    }
  }

  /** The two UPDATE statements of a move reorder the whole table by the swap. */
  lemma SwapItemOrders(t: seq<Row<Item>>, p: Swap)
    requires p.target.id != p.other.id
    ensures SetItemOrder(SetItemOrder(t, p.target.id, p.target.order), p.other.id, p.other.order) == ReorderedAll(t, p)
  {
  }

  /** Distinct rowids give distinct slot ids in every category. */
  lemma ItemSlotsDistinct(t: seq<Row<Item>>, cat: nat)
    requires Increasing(t)
    ensures DistinctIds(ItemSlots(t, cat))
  {
    if t != [] {
      ItemSlotsDistinct(t[1..], cat);
      var rest := ItemSlots(t[1..], cat);
      forall k | 0 <= k < |rest| ensures rest[k].id != t[0].id {
        assert rest[k] in rest;
      }
    }
  }

  /**
   * `move_item` changes nothing but sort orders: the table is either
   * unchanged or reordered by the planned swap, which names two rows of the
   * category; every row with another id is untouched.
   */
  lemma MoveItemShape(t: seq<Row<Item>>, id: nat, dir: Direction, cat: nat)
    requires Increasing(t)
    ensures MovePlan(ItemSlots(t, cat), id, dir).None? ==> MoveItem(t, id, dir, cat) == t
    ensures MovePlan(ItemSlots(t, cat), id, dir).Some? ==>
              var p := MovePlan(ItemSlots(t, cat), id, dir).value;
              MoveItem(t, id, dir, cat) == ReorderedAll(t, p)
              && forall k :: 0 <= k < |t| && t[k].id != p.target.id && t[k].id != p.other.id ==> MoveItem(t, id, dir, cat)[k] == t[k]
  {
    if MovePlan(ItemSlots(t, cat), id, dir).Some? {
      ItemSlotsDistinct(t, cat);
      MovePlanNamesTwoRows(ItemSlots(t, cat), id, dir);
      SwapItemOrders(t, MovePlan(ItemSlots(t, cat), id, dir).value);
    }
  }

  /**
   * With distinct sort orders in the category, `move_item` leaves the table
   * unchanged exactly when the item is not in the category or is already
   * first (up) or last (down) in it.
   */
  lemma MoveItemNoOpIff(t: seq<Row<Item>>, id: nat, dir: Direction, cat: nat)
    requires Increasing(t) && Keyed(ItemSlots(t, cat))
    ensures MoveItem(t, id, dir, cat) == t <==>
            (forall z :: z in ItemSlots(t, cat) ==> z.id != id)
            || (exists z :: z in ItemSlots(t, cat) && z.id == id && Extreme(ItemSlots(t, cat), z, dir))
  {
    MovePlanNoneAtBoundary(ItemSlots(t, cat), id, dir);
    MoveItemShape(t, id, dir, cat);
    if MovePlan(ItemSlots(t, cat), id, dir).Some? {
      MovePlanChanges(ItemSlots(t, cat), id, dir);
      ReorderedSlots(t, MovePlan(ItemSlots(t, cat), id, dir).value, cat);
    }
  }

  /**
   * With distinct sort orders in the category, a move that changed something
   * is undone by moving the same item back the other way.
   */
  lemma {:induction false} MoveItemThenBack(t: seq<Row<Item>>, id: nat, dir: Direction, cat: nat)
    requires Increasing(t) && Keyed(ItemSlots(t, cat))
    requires MoveItem(t, id, dir, cat) != t
    ensures MoveItem(MoveItem(t, id, dir, cat), id, Opposite(dir), cat) == t
  {
    var slots := ItemSlots(t, cat);
    MoveItemShape(t, id, dir, cat);
    var p := MovePlan(slots, id, dir).value;
    var m := ReorderedAll(t, p);
    ReorderedSlots(t, p, cat);
    ReorderedKeepsIncreasing(t, p);
    MoveItemShape(m, id, Opposite(dir), cat);
    AllRowsRestored(t, id, dir, cat);
  }

  /**
   * Whatever the sort orders, `move_item` leaves the table unchanged exactly
   * when the item is not in the category, is first (up) or last (down) in
   * it, or the neighbour it would swap with has the same sort_order.
   */
  lemma MoveItemUnchangedIff(t: seq<Row<Item>>, id: nat, dir: Direction, cat: nat)
    requires Increasing(t)
    ensures MoveItem(t, id, dir, cat) == t <==> Stuck(ItemSlots(t, cat), id, dir)
  {
    var slots := ItemSlots(t, cat);
    MoveItemShape(t, id, dir, cat);
    if MovePlan(slots, id, dir).Some? {
      var p := MovePlan(slots, id, dir).value;
      ItemSlotsDistinct(t, cat);
      SwapUnchangedIff(slots, id, dir);
      ReorderedSlots(t, p, cat);
      if ApplySwap(slots, p) == slots {
        UnchangedSwapKeepsTable(t, slots, id, dir, cat);
      }
    }
  }

  /** A swap that leaves the category's slots unchanged leaves the whole price list unchanged. */
  lemma UnchangedSwapKeepsTable(t: seq<Row<Item>>, slots: seq<Slot>, id: nat, dir: Direction, cat: nat)
    requires Increasing(t) && slots == ItemSlots(t, cat) && MovePlan(slots, id, dir).Some?
    requires ApplySwap(slots, MovePlan(slots, id, dir).value) == slots
    ensures ReorderedAll(t, MovePlan(slots, id, dir).value) == t
  {
    var p := MovePlan(slots, id, dir).value;
    forall k | 0 <= k < |t|
      ensures ReorderedAll(t, p)[k] == t[k]
    {
      MoveItemRowBack(t, slots, id, dir, cat, k);
      UnchangedSwapFixes(slots, p, Slot(t[k].id, t[k].val.sortOrder));
    }
  }

  /** A swap that leaves the slots unchanged leaves each of them, and every row it does not name, alone. */
  lemma UnchangedSwapFixes(slots: seq<Slot>, p: Swap, z: Slot)
    requires ApplySwap(slots, p) == slots
    requires z in slots || (z.id != p.target.id && z.id != p.other.id)
    ensures Assign(z, p) == z
  {
    if z in slots {
      var m :| 0 <= m < |slots| && slots[m] == z;
      ApplySwapAt(slots, p);
    }
  }

  /**
   * Sort orders of items can tie: an edit that moves an item into a category
   * keeps its sort_order, which may already belong to an item there. The move
   * buttons of the two items then do nothing (`MoveItemUnchangedIff`).
   */
  lemma UpdateCanTieItems(t: seq<Row<Item>>, k: nat, j: nat, name: string, price: real, cat: nat)
    requires Increasing(t) && k < |t| && j < |t| && k != j
    requires t[j].val.categoryId == cat && t[k].val.sortOrder == t[j].val.sortOrder
    ensures !Keyed(ItemSlots(UpdateItem(t, t[k].id, name, price, cat), cat))
  {
    var u := UpdateItem(t, t[k].id, name, price, cat);
    assert u[k] == Row(t[k].id, Item(name, price, t[k].val.sortOrder, cat));
    assert t[j].id != t[k].id && u[j] == t[j];
    InItemSlots(u, k, cat);
    InItemSlots(u, j, cat);
    SharedOrderNotKeyed(ItemSlots(u, cat), Slot(u[k].id, u[k].val.sortOrder), Slot(u[j].id, u[j].val.sortOrder));
  }

  /** Every item of the category has its slot. */
  lemma InItemSlots(t: seq<Row<Item>>, k: nat, cat: nat)
    requires k < |t| && t[k].val.categoryId == cat
    ensures Slot(t[k].id, t[k].val.sortOrder) in ItemSlots(t, cat)
  {
  }

  /** Every row is restored by the move and the move back. */
  lemma AllRowsRestored(t: seq<Row<Item>>, id: nat, dir: Direction, cat: nat)
    requires Increasing(t) && Keyed(ItemSlots(t, cat))
    requires MovePlan(ItemSlots(t, cat), id, dir).Some?
    ensures var slots := ItemSlots(t, cat);
            var p := MovePlan(slots, id, dir).value;
            var moved := ApplySwap(slots, p);
            MovePlan(moved, id, Opposite(dir)).Some?
            && ReorderedAll(ReorderedAll(t, p), MovePlan(moved, id, Opposite(dir)).value) == t
  {
    var slots := ItemSlots(t, cat);
    var p := MovePlan(slots, id, dir).value;
    MoveThenMoveBackRestores(slots, id, dir);
    var q := MovePlan(ApplySwap(slots, p), id, Opposite(dir)).value;
    forall k | 0 <= k < |t|
      ensures Reordered(Reordered(t[k], p), q) == t[k]
    {
      MoveItemRowRestored(t, id, dir, cat, k);
    }
    ReorderTwiceRestores(t, p, q);
  }

  /** When two reorderings restore every row, together they restore the table. */
  lemma ReorderTwiceRestores(t: seq<Row<Item>>, p: Swap, q: Swap)
    requires forall k :: 0 <= k < |t| ==> Reordered(Reordered(t[k], p), q) == t[k]
    ensures ReorderedAll(ReorderedAll(t, p), q) == t
  {
    var back := ReorderedAll(ReorderedAll(t, p), q);
    assert forall k :: 0 <= k < |t| ==> back[k] == t[k];
  }

  /** Reordering keeps every rowid in place. */
  lemma ReorderedKeepsIncreasing(t: seq<Row<Item>>, p: Swap)
    requires Increasing(t)
    ensures Increasing(ReorderedAll(t, p))
  {
    var m := ReorderedAll(t, p);
    assert Ids(m) == Ids(t);
    SameIdsIncreasing(t, m);
  }

  /** One row of the table is restored by the move and the move back. */
  lemma MoveItemRowRestored(t: seq<Row<Item>>, id: nat, dir: Direction, cat: nat, k: nat)
    requires Increasing(t) && Keyed(ItemSlots(t, cat)) && k < |t|
    requires MovePlan(ItemSlots(t, cat), id, dir).Some?
    ensures var slots := ItemSlots(t, cat);
            var p := MovePlan(slots, id, dir).value;
            var moved := ApplySwap(slots, p);
            MovePlan(moved, id, Opposite(dir)).Some?
            && Reordered(Reordered(t[k], p), MovePlan(moved, id, Opposite(dir)).value) == t[k]
  {
    var slots := ItemSlots(t, cat);
    MoveItemRowBack(t, slots, id, dir, cat, k);
    MoveBackUndoesRow(slots, id, dir, Slot(t[k].id, t[k].val.sortOrder));
  }

  /** A row is either one of the category's slots or carries an id the move does not name. */
  lemma MoveItemRowBack(t: seq<Row<Item>>, slots: seq<Slot>, id: nat, dir: Direction, cat: nat, k: nat)
    requires Increasing(t) && k < |t| && slots == ItemSlots(t, cat)
    requires MovePlan(slots, id, dir).Some?
    ensures var z := Slot(t[k].id, t[k].val.sortOrder);
            z in slots || (z.id != id && z.id != MovePlan(slots, id, dir).value.other.id)
  {
    var p := MovePlan(slots, id, dir).value;
    if t[k].val.categoryId != cat {
      var a :| 0 <= a < |t| && t[a].val.categoryId == cat && Slot(id, p.other.order) == Slot(t[a].id, t[a].val.sortOrder);
      var b :| 0 <= b < |t| && t[b].val.categoryId == cat && Slot(p.other.id, p.target.order) == Slot(t[b].id, t[b].val.sortOrder);
      assert a != k && b != k;
    }
  }
}
