/**
 * The row loop of `import_pricelist_csv` over a file already split into
 * rows of fields. The first row is the header and is skipped; the price
 * list is emptied; every data row names a category (created at the end of
 * the category order when the name is new), an item name and a price. Any
 * failure rolls the whole import back.
 */
module CsvImport {
  import opened Wrappers
  import opened Numerals
  import opened Tables
  import opened Catalog
  import opened Ordering

  /** The name-to-id dictionary the loop keeps beside the categories table. */
  type Cache = map<string, nat>

  /** What the loop has written so far. */
  datatype Progress = Progress(cats: seq<Row<Category>>, items: seq<Row<Item>>, cache: Cache)

  /**
   * `{name: cat_id for cat_id, name in SELECT id, name FROM categories}`:
   * every name present, each mapped to the id of a row with that name.
   */
  function CacheOf(t: seq<Row<Category>>): (r: Cache)
    ensures forall n :: n in r <==> n in CategoryNames(t)
    ensures forall n :: n in r ==> exists k :: 0 <= k < |t| && t[k].id == r[n] && t[k].val.name == n
  {
    if t == [] then map[]
    else
      var c := CacheOf(t[1..]);
      CacheStep(t, c);
      if t[0].val.name in c then c else c[t[0].val.name := t[0].id]
  }

  /** One more row in front: its name is cached unless a later row already has it. */
  lemma CacheStep(t: seq<Row<Category>>, c: Cache)
    requires t != []
    requires forall n :: n in c <==> n in CategoryNames(t[1..])
    requires forall n :: n in c ==> exists k :: 0 <= k < |t[1..]| && t[1..][k].id == c[n] && t[1..][k].val.name == n
    ensures var r := if t[0].val.name in c then c else c[t[0].val.name := t[0].id];
            (forall n :: n in r <==> n in CategoryNames(t))
            && forall n :: n in r ==> exists k :: 0 <= k < |t| && t[k].id == r[n] && t[k].val.name == n
  {
    var r := if t[0].val.name in c then c else c[t[0].val.name := t[0].id];
    assert CategoryNames(t) == [t[0].val.name] + CategoryNames(t[1..]);
    forall n | n in r ensures exists k :: 0 <= k < |t| && t[k].id == r[n] && t[k].val.name == n {
      if n in c && (t[0].val.name in c || n != t[0].val.name) {
        var k :| 0 <= k < |t[1..]| && t[1..][k].id == c[n] && t[1..][k].val.name == n;
        assert t[k + 1] == t[1..][k];
      } else {
        assert t[0].id == r[n];
      }
    }
  }

  /** A data row the loop cannot take: not three fields, or a price `float()` rejects. */
  predicate Malformed(row: seq<string>) {
    |row| != 3 || ParseFloat(row[2]).None?
  }

  /**
   * The category part of the loop body: the cached id when the name is
   * known, otherwise a new category row whose id goes into the cache.
   */
  function Placed(s: Progress, name: string): (r: Progress)
    ensures r.items == s.items && name in r.cache
  {
    if name in s.cache then s
    else Progress(AppendCategory(s.cats, name), s.items, s.cache[name := NextId(s.cats)])
  }

  /** One pass of the loop body: the category lookup or insert, then the item insert. */
  function ImportRow(s: Progress, row: seq<string>): (r: Option<Progress>)
    ensures r.None? <==> Malformed(row)
  {
    if |row| != 3 then None
    else
      var p := Placed(s, row[0]);
      match ParseFloat(row[2])
      case None => None
      case Some(price) => Some(Progress(p.cats, AddItem(p.items, row[1], price, p.cache[row[0]]), p.cache))
  }

  /** The loop over the remaining rows; the first failure ends it. */
  function ImportRows(s: Progress, rows: seq<seq<string>>): (r: Option<Progress>)
    ensures r.Some? ==> |r.value.items| == |s.items| + |rows| && r.value.items[..|s.items|] == s.items
    ensures r.Some? ==> |s.cats| <= |r.value.cats| && r.value.cats[..|s.cats|] == s.cats
    decreases |rows|
  {
    if rows == [] then Some(s)
    else
      match ImportRow(s, rows[0])
      case None => None
      case Some(s') => ImportRows(s', rows[1..])
  }

  /**
   * The whole import over the current categories: None (the rollback) when
   * the file has no header row or the loop fails; otherwise the new
   * categories and price list.
   */
  function ImportPriceList(cats: seq<Row<Category>>, file: seq<seq<string>>)
    : (r: Option<(seq<Row<Category>>, seq<Row<Item>>)>)
    ensures file == [] ==> r.None?
    ensures r.Some? ==> |r.value.1| == |file| - 1 && |cats| <= |r.value.0| && r.value.0[..|cats|] == cats
  {
    if file == [] then None
    else
      match ImportRows(Progress(cats, [], CacheOf(cats)), file[1..])
      case None => None
      case Some(s) => Some((s.cats, s.items))
  }

  /** No remaining row is malformed. */
  predicate AllWellFormed(rows: seq<seq<string>>) {
    forall k :: 0 <= k < |rows| ==> !Malformed(rows[k])
  }

  /** The loop fails exactly when some remaining row is malformed. */
  lemma {:induction false} ImportRowsFailsIff(s: Progress, rows: seq<seq<string>>)
    ensures ImportRows(s, rows).None? <==> !AllWellFormed(rows)
    decreases |rows|
  {
    if rows != [] && !Malformed(rows[0]) {
      ImportRowsFailsIff(ImportRow(s, rows[0]).value, rows[1..]);
      TailWellFormed(rows);
    }
  }

  /** Past a well-formed first row, the rows are well formed exactly when the rest are. */
  lemma TailWellFormed(rows: seq<seq<string>>)
    requires rows != [] && !Malformed(rows[0])
    ensures AllWellFormed(rows) <==> AllWellFormed(rows[1..])
  {
    TailAll(row => !Malformed(row), rows);
  }

  /** A property of every element, read as the first element and the rest. */
  lemma TailAll<T>(p: T -> bool, xs: seq<T>)
    requires xs != []
    ensures (forall k :: 0 <= k < |xs| ==> p(xs[k])) <==> p(xs[0]) && forall k :: 0 <= k < |xs| - 1 ==> p(xs[1..][k])
  {
    if p(xs[0]) && forall k :: 0 <= k < |xs| - 1 ==> p(xs[1..][k]) {
      forall k | 0 < k < |xs| ensures p(xs[k]) {
        assert xs[k] == xs[1..][k - 1];
      }
    }
  }

  /**
   * The import is all or nothing: it fails exactly when the file is empty
   * (no header to skip) or some data row is malformed.
   */
  lemma ImportFailsIff(cats: seq<Row<Category>>, file: seq<seq<string>>)
    ensures ImportPriceList(cats, file).None? <==>
            file == [] || exists k :: 1 <= k < |file| && Malformed(file[k])
  {
    if file != [] {
      ImportRowsFailsIff(Progress(cats, [], CacheOf(cats)), file[1..]);
      DataRowsWellFormed(file);
    }
  }

  /** The data rows are well formed exactly when no row past the header is malformed. */
  lemma DataRowsWellFormed(file: seq<seq<string>>)
    requires file != []
    ensures AllWellFormed(file[1..]) <==> !exists k :: 1 <= k < |file| && Malformed(file[k])
  {
    if exists k :: 1 <= k < |file| && Malformed(file[k]) {
      var k :| 1 <= k < |file| && Malformed(file[k]);
      assert file[1..][k - 1] == file[k];
    } else {
      forall k | 0 <= k < |file| - 1 ensures !Malformed(file[1..][k]) {
        assert file[1..][k] == file[k + 1];
      }
    }
  }

  /** An item row carries what its file row says, its category found by name. */
  predicate Matches(x: Row<Item>, row: seq<string>, cats: seq<Row<Category>>) {
    |row| == 3 && x.val.name == row[1] && ParseFloat(row[2]) == Some(x.val.unitPrice)
    && exists j :: 0 <= j < |cats| && cats[j].id == x.val.categoryId && cats[j].val.name == row[0]
  }

  /** `p` holds of each pair of elements at the same position. */
  ghost predicate Pairwise<A, B>(p: (A, B) -> bool, xs: seq<A>, ys: seq<B>) {
    |xs| == |ys| && (xs == [] || (p(xs[0], ys[0]) && Pairwise(p, xs[1..], ys[1..])))
  }

  /** A pairwise relation, read at one position. */
  lemma {:induction false} PairwiseAt<A, B>(p: (A, B) -> bool, xs: seq<A>, ys: seq<B>, k: nat)
    requires Pairwise(p, xs, ys) && k < |xs|
    ensures p(xs[k], ys[k])
    decreases k
  {
    if k > 0 {
      PairwiseAt(p, xs[1..], ys[1..], k - 1);
      assert xs[1..][k - 1] == xs[k] && ys[1..][k - 1] == ys[k];
    }
  }

  /** Each item matches the row at the same position. */
  ghost predicate MatchAll(items: seq<Row<Item>>, rows: seq<seq<string>>, cats: seq<Row<Category>>) {
    Pairwise((x, row) => Matches(x, row, cats), items, rows)
  }

  /** Adding categories keeps a match. */
  lemma MatchesExtend(x: Row<Item>, row: seq<string>, cats: seq<Row<Category>>, cats': seq<Row<Category>>)
    requires Matches(x, row, cats) && |cats| <= |cats'| && cats'[..|cats|] == cats
    ensures Matches(x, row, cats')
  {
    var j :| 0 <= j < |cats| && cats[j].id == x.val.categoryId && cats[j].val.name == row[0];
    assert cats'[j] == cats[j];
  }

  /** Items numbered 1, 2, … in rowid order, the way an emptied table hands them out. */
  predicate Numbered(items: seq<Row<Item>>) {
    forall k :: 0 <= k < |items| ==> items[k].id == k + 1
  }

  /** Within each category the items' sort orders rise in rowid order. */
  predicate OrderedWithin(items: seq<Row<Item>>) {
    forall i, j :: 0 <= i < j < |items| && items[i].val.categoryId == items[j].val.categoryId ==>
      items[i].val.sortOrder < items[j].val.sortOrder
  }

  /** The cache knows exactly the names of the categories, each by the id of a row with that name. */
  ghost predicate CacheAgrees(cats: seq<Row<Category>>, cache: Cache) {
    (forall n :: n in cache <==> n in CategoryNames(cats))
    && (forall n :: n in cache ==> exists k :: 0 <= k < |cats| && cats[k].id == cache[n] && cats[k].val.name == n)
  }

  /** What the loop keeps true of the tables and the cache. */
  ghost predicate Consistent(s: Progress) {
    Increasing(s.cats) && UniqueNames(s.cats) && CacheAgrees(s.cats, s.cache)
    && Numbered(s.items) && OrderedWithin(s.items) && ItemsInCategories(s.items, s.cats)
  }

  /** The loop starts consistent on an intact categories table. */
  lemma StartConsistent(cats: seq<Row<Category>>)
    requires Increasing(cats) && UniqueNames(cats)
    ensures Consistent(Progress(cats, [], CacheOf(cats)))
  {
  }

  /** The next free id of a numbered table. */
  lemma NumberedNextId(items: seq<Row<Item>>)
    requires Numbered(items)
    ensures NextId(items) == |items| + 1
  {
    if items != [] {
      NextIdIsLastPlusOne(items);
    }
  }

  /** Appending a category keeps every id that was there. */
  lemma IdsExtend(cats: seq<Row<Category>>, cats': seq<Row<Category>>, x: nat)
    requires x in Ids(cats) && |cats| <= |cats'| && cats'[..|cats|] == cats
    ensures x in Ids(cats')
  {
    var k :| 0 <= k < |cats| && Ids(cats)[k] == x;
    assert cats'[k] == cats[k];
    assert Ids(cats')[k] == x;
  }

  /** The category step of a row keeps the tables consistent and finds a row with the row's category name. */
  lemma CategoryStep(s: Progress, name: string)
    requires Consistent(s)
    ensures var p := Placed(s, name);
            |s.cats| <= |p.cats| && p.cats[..|s.cats|] == s.cats && Consistent(p)
            && exists j :: 0 <= j < |p.cats| && p.cats[j].id == p.cache[name] && p.cats[j].val.name == name
  {
    if name !in s.cache {
      var cats := AppendCategory(s.cats, name);
      var cache := s.cache[name := NextId(s.cats)];
      assert cats == s.cats + [cats[|s.cats|]];
      InsertKeepsIncreasing(s.cats, cats[|s.cats|].val);
      forall i, j | 0 <= i < j < |cats| ensures cats[i].val.name != cats[j].val.name {
        if j == |s.cats| {
          assert CategoryNames(s.cats)[i] == s.cats[i].val.name;
        }
      }
      AppendedCacheAgrees(s.cats, s.cache, name);
      forall m | 0 <= m < |s.items| ensures s.items[m].val.categoryId in Ids(cats) {
        IdsExtend(s.cats, cats, s.items[m].val.categoryId);
      }
    }
  }

  /** A new category and its cache entry keep the cache in agreement. */
  lemma AppendedCacheAgrees(cats: seq<Row<Category>>, cache: Cache, name: string)
    requires CacheAgrees(cats, cache) && name !in cache
    ensures CacheAgrees(AppendCategory(cats, name), cache[name := NextId(cats)])
  {
    var cats' := AppendCategory(cats, name);
    var cache' := cache[name := NextId(cats)];
    assert CategoryNames(cats') == CategoryNames(cats) + [name] by {
      assert CategoryNames(cats')[|cats|] == name;
      forall k | 0 <= k < |cats| ensures CategoryNames(cats')[k] == CategoryNames(cats)[k] {
        assert cats'[k] == cats[k];
      }
    }
    forall n | n in cache' ensures exists k :: 0 <= k < |cats'| && cats'[k].id == cache'[n] && cats'[k].val.name == n {
      if n != name {
        var k :| 0 <= k < |cats| && cats[k].id == cache[n] && cats[k].val.name == n;
        assert cats'[k] == cats[k];
      } else {
        assert cats'[|cats|].id == cache'[n];
      }
    }
  }

  /** The item step: a new item in an existing category keeps the price list consistent. */
  lemma ItemStep(items: seq<Row<Item>>, cats: seq<Row<Category>>, name: string, price: real, cat: nat)
    requires Numbered(items) && OrderedWithin(items) && ItemsInCategories(items, cats) && cat in Ids(cats)
    ensures var items' := AddItem(items, name, price, cat);
            Numbered(items') && OrderedWithin(items') && ItemsInCategories(items', cats)
  {
    NumberedNextId(items);
  }

  /** One successful row keeps the loop consistent and appends exactly its item. */
  lemma ImportRowKeeps(s: Progress, row: seq<string>)
    requires Consistent(s) && ImportRow(s, row).Some?
    ensures var s' := ImportRow(s, row).value;
            Consistent(s')
            && |s.cats| <= |s'.cats| && s'.cats[..|s.cats|] == s.cats
            && |s'.items| == |s.items| + 1 && s'.items[..|s.items|] == s.items
            && Matches(s'.items[|s.items|], row, s'.cats)
  {
    var p := Placed(s, row[0]);
    var price := ParseFloat(row[2]).value;
    var s' := Progress(p.cats, AddItem(p.items, row[1], price, p.cache[row[0]]), p.cache);
    assert ImportRow(s, row) == Some(s');
    CategoryStep(s, row[0]);
    var j :| 0 <= j < |p.cats| && p.cats[j].id == p.cache[row[0]] && p.cats[j].val.name == row[0];
    assert Ids(p.cats)[j] == p.cache[row[0]];
    ItemStep(p.items, p.cats, row[1], price, p.cache[row[0]]);
    assert Matches(s'.items[|s.items|], row, s'.cats);
  }

  /**
   * The loop over the data rows, when it succeeds, stays consistent, keeps
   * the categories it started with as a prefix, keeps the items already
   * written, and appends one matching item per row.
   */
  lemma {:induction false} ImportRowsKeeps(s: Progress, rows: seq<seq<string>>)
    requires Consistent(s) && ImportRows(s, rows).Some?
    ensures var r := ImportRows(s, rows).value;
            Consistent(r)
            && |s.cats| <= |r.cats| && r.cats[..|s.cats|] == s.cats
            && |s.items| <= |r.items| && r.items[..|s.items|] == s.items
            && MatchAll(r.items[|s.items|..], rows, r.cats)
    decreases |rows|
  {
    if rows == [] {
      assert s.items[|s.items|..] == [];
    } else {
      var s' := ImportRow(s, rows[0]).value;
      assert ImportRows(s, rows) == ImportRows(s', rows[1..]);
      ImportRowKeeps(s, rows[0]);
      ImportRowsKeeps(s', rows[1..]);
      var r := ImportRows(s', rows[1..]).value;
      RowsPrefix(s, s', r, rows);
    }
  }

  /** Gluing the first row's item onto the rest of the loop's output. */
  lemma RowsPrefix(s: Progress, s': Progress, r: Progress, rows: seq<seq<string>>)
    requires rows != []
    requires |s.cats| <= |s'.cats| && s'.cats[..|s.cats|] == s.cats
    requires |s'.items| == |s.items| + 1 && s'.items[..|s.items|] == s.items
    requires Matches(s'.items[|s.items|], rows[0], s'.cats)
    requires |s'.cats| <= |r.cats| && r.cats[..|s'.cats|] == s'.cats
    requires |s'.items| <= |r.items| && r.items[..|s'.items|] == s'.items
    requires MatchAll(r.items[|s'.items|..], rows[1..], r.cats)
    ensures |s.cats| <= |r.cats| && r.cats[..|s.cats|] == s.cats
    ensures |s.items| <= |r.items| && r.items[..|s.items|] == s.items
    ensures MatchAll(r.items[|s.items|..], rows, r.cats)
  {
    assert r.items[..|s'.items|][..|s.items|] == s'.items[..|s.items|];
    assert r.cats[..|s'.cats|][..|s.cats|] == s'.cats[..|s.cats|];
    assert r.items[|s.items|] == s'.items[|s.items|] by {
      assert r.items[..|s'.items|][|s.items|] == s'.items[|s.items|];
    }
    MatchesExtend(s'.items[|s.items|], rows[0], s'.cats, r.cats);
    assert r.items[|s.items|..][1..] == r.items[|s'.items|..];
  }

  /**
   * A successful import over an intact categories table yields one item per
   * data row, in file order and numbered from 1; each item carries its row's
   * name and price and points at a category with its row's category name;
   * within a category the items sort in file order; the old categories stay
   * as they were, the new ones follow, names stay unique, and every item
   * points at an existing category.
   */
  lemma ImportResult(cats: seq<Row<Category>>, file: seq<seq<string>>)
    requires Increasing(cats) && UniqueNames(cats)
    requires ImportPriceList(cats, file).Some?
    ensures var (cats', items') := ImportPriceList(cats, file).value;
            |items'| == |file| - 1
            && (forall k :: 0 <= k < |items'| ==> items'[k].id == k + 1 && Matches(items'[k], file[k + 1], cats'))
            && OrderedWithin(items')
            && |cats| <= |cats'| && cats'[..|cats|] == cats
            && Increasing(cats') && UniqueNames(cats') && ItemsInCategories(items', cats')
  {
    var s := Progress(cats, [], CacheOf(cats));
    StartConsistent(cats);
    ImportRowsKeeps(s, file[1..]);
    var r := ImportRows(s, file[1..]).value;
    assert r.items[0..] == r.items;
    forall k | 0 <= k < |r.items| ensures Matches(r.items[k], file[k + 1], r.cats) {
      PairwiseAt((x, row) => Matches(x, row, r.cats), r.items, file[1..], k);
      assert file[1..][k] == file[k + 1];
    }
  }
  /**
   * A successful import keeps the categories' sort orders distinct when they
   * were distinct before: every category it creates goes after all others.
   */
  lemma ImportKeepsKeyed(cats: seq<Row<Category>>, file: seq<seq<string>>)
    requires Increasing(cats) && Keyed(CategorySlots(cats))
    requires ImportPriceList(cats, file).Some?
    ensures Keyed(CategorySlots(ImportPriceList(cats, file).value.0))
  {
    ImportRowsKeepKeyed(Progress(cats, [], CacheOf(cats)), file[1..]);
  }

  /** The loop keeps the rowid order and the distinct sort orders of the categories. */
  lemma {:induction false} ImportRowsKeepKeyed(s: Progress, rows: seq<seq<string>>)
    requires Increasing(s.cats) && Keyed(CategorySlots(s.cats)) && ImportRows(s, rows).Some?
    ensures Keyed(CategorySlots(ImportRows(s, rows).value.cats))
    decreases |rows|
  {
    if rows != [] {
      var s' := ImportRow(s, rows[0]).value;
      assert ImportRows(s, rows) == ImportRows(s', rows[1..]);
      if rows[0][0] !in s.cache {
        var cats := AppendCategory(s.cats, rows[0][0]);
        AppendKeepsKeyed(s.cats, rows[0][0]);
        assert cats == s.cats + [Row(NextId(s.cats), cats[|s.cats|].val)];
        InsertKeepsIncreasing(s.cats, cats[|s.cats|].val);
      }
      ImportRowsKeepKeyed(s', rows[1..]);
    }
  }
}
