/**
 * The SQLite tables of the estimator, reduced to what its statements do:
 * every table is its rows in rowid order, a new row takes one more than the
 * largest rowid in use, and `DELETE`/`UPDATE ... WHERE id = ?` act on the
 * rows carrying that id. Also the schema migration and the settings table.
 */
module Tables {
  import opened Wrappers

  /** A row: its INTEGER PRIMARY KEY and its other columns. */
  datatype Row<T> = Row(id: nat, val: T)

  /** The rows carry strictly increasing rowids, as SQLite lists them without ORDER BY. */
  predicate Increasing<T>(t: seq<Row<T>>) {
    forall i, j :: 0 <= i < j < |t| ==> t[i].id < t[j].id
  }

  function Ids<T>(t: seq<Row<T>>): (r: seq<nat>)
    ensures |r| == |t| && forall k :: 0 <= k < |t| ==> r[k] == t[k].id
  {
    if t == [] then [] else [t[0].id] + Ids(t[1..])
  }

  /** The largest rowid in use, 0 for an empty table. */
  function MaxId<T>(t: seq<Row<T>>): (r: nat)
    ensures forall k :: 0 <= k < |t| ==> t[k].id <= r
    ensures t == [] ==> r == 0
    ensures t != [] ==> exists k :: 0 <= k < |t| && t[k].id == r
  {
    if t == [] then 0
    else
      var m := MaxId(t[1..]);
      if t[0].id >= m then t[0].id else m
  }

  /** The rowid SQLite gives an inserted row: one more than the largest in use. */
  function NextId<T>(t: seq<Row<T>>): (r: nat)
    ensures r >= 1 && r !in Ids(t)
    ensures forall k :: 0 <= k < |t| ==> t[k].id < r
  {
    MaxId(t) + 1
  }

  /** In rowid order the largest rowid is the last one. */
  lemma NextIdIsLastPlusOne<T>(t: seq<Row<T>>)
    requires Increasing(t) && t != []
    ensures NextId(t) == t[|t| - 1].id + 1
  {
    var k :| 0 <= k < |t| && t[k].id == MaxId(t);
    if k < |t| - 1 {
      assert t[k].id < t[|t| - 1].id;
    }
  }

  /** An `INSERT` keeps the rows in rowid order. */
  lemma InsertKeepsIncreasing<T>(t: seq<Row<T>>, v: T)
    requires Increasing(t)
    ensures Increasing(t + [Row(NextId(t), v)])
  {
  }

  /** A row present in a table has its id among the table's ids. */
  lemma InIds<T>(t: seq<Row<T>>, x: Row<T>)
    requires x in t
    ensures x.id in Ids(t)
  {
    var k :| 0 <= k < |t| && t[k] == x;
    assert Ids(t)[k] == x.id;
  }

  /** The columns of the row with the given id. */
  function Find<T(==)>(t: seq<Row<T>>, id: nat): (r: Option<T>)
    ensures r.None? <==> id !in Ids(t)
    ensures r.Some? ==> exists k :: 0 <= k < |t| && t[k] == Row(id, r.value)
  {
    if t == [] then None
    else if t[0].id == id then Some(t[0].val)
    else
      var r := Find(t[1..], id);
      if r.Some? then
        var k :| 0 <= k < |t[1..]| && t[1..][k] == Row(id, r.value);
        assert t[k + 1] == Row(id, r.value);
        r
      else
        r
  }

  /** With distinct rowids, the row found is the one row carrying that id. */
  lemma FindUnique<T>(t: seq<Row<T>>, k: nat)
    requires Increasing(t) && k < |t|
    ensures Find(t, t[k].id) == Some(t[k].val)
  {
    var r := Find(t, t[k].id);
    var m :| 0 <= m < |t| && t[m] == Row(t[k].id, r.value);
    if m != k {
      assert m < k || k < m;
    }
  }

  /** Two tables holding the same rows under an id read the same under it. */
  lemma FindAgrees<T>(a: seq<Row<T>>, b: seq<Row<T>>, id: nat)
    requires Increasing(a) && Increasing(b)
    requires forall v :: Row(id, v) in a <==> Row(id, v) in b
    ensures Find(a, id) == Find(b, id)
  {
    if Find(a, id).Some? {
      var k :| 0 <= k < |a| && a[k] == Row(id, Find(a, id).value);
      assert Row(id, a[k].val) in b;
      var m :| 0 <= m < |b| && b[m] == a[k];
      FindUnique(a, k);
      FindUnique(b, m);
    }
  }

  /** `DELETE FROM ... WHERE id = ?`. */
  function DeleteId<T(==,!new)>(t: seq<Row<T>>, id: nat): (r: seq<Row<T>>)
    ensures id !in Ids(r) && |r| <= |t|
    ensures forall x :: x in r <==> x in t && x.id != id
  {
    if t == [] then []
    else
      var rest := DeleteId(t[1..], id);
      assert forall x :: x in t <==> x == t[0] || x in t[1..];
      if t[0].id == id then rest else [t[0]] + rest
  }

  lemma DeleteIdKeepsIncreasing<T(!new)>(t: seq<Row<T>>, id: nat)
    requires Increasing(t)
    ensures Increasing(DeleteId(t, id))
  {
    if t != [] {
      DeleteIdKeepsIncreasing(t[1..], id);
      var rest := DeleteId(t[1..], id);
      forall k | 0 <= k < |rest|
        ensures t[0].id < rest[k].id
      {
        assert rest[k] in t[1..];
      }
    }
  }

  /** `UPDATE ... WHERE id = ?`: the rows with that id take new columns, the others stay. */
  function SetVal<T>(t: seq<Row<T>>, id: nat, v: T): (r: seq<Row<T>>)
    ensures |r| == |t| && Ids(r) == Ids(t)
    ensures forall k :: 0 <= k < |t| ==> r[k] == if t[k].id == id then Row(id, v) else t[k]
  {
    if t == [] then []
    else
      var rest := SetVal(t[1..], id, v);
      [if t[0].id == id then Row(id, v) else t[0]] + rest
  }

  /** Rowid order depends on the ids alone. */
  lemma SameIdsIncreasing<T, U>(a: seq<Row<T>>, b: seq<Row<U>>)
    requires Increasing(a) && Ids(a) == Ids(b)
    ensures Increasing(b)
  {
    forall i, j | 0 <= i < j < |b| ensures b[i].id < b[j].id {
      assert b[i].id == Ids(b)[i] == Ids(a)[i] == a[i].id;
      assert b[j].id == Ids(b)[j] == Ids(a)[j] == a[j].id;
    }
  }

  // ---------------------------------------------------------------------
  // The columns of each table.

  datatype Customer = Customer(name: string, address: string, phone: string, email: string)

  datatype Category = Category(name: string, sortOrder: int)

  datatype Item = Item(name: string, unitPrice: real, sortOrder: int, categoryId: nat)

  /**
   * An estimate header. The adjustment columns are NULL in rows written
   * before they existed (install_qty, install_unit_price) or by older versions.
   */
  datatype Job = Job(customerId: nat, jobName: string, totalAmount: real,
                     installTotal: Option<real>, markupPercent: Option<real>, miscCharge: Option<real>,
                     installQty: Option<real>, installUnitPrice: Option<real>)

  /** One stored estimate line; category_name is NULL in older rows. */
  datatype Line = Line(jobId: nat, itemName: string, categoryName: Option<string>,
                       quantity: int, unitPrice: real, lineTotal: real)

  // ---------------------------------------------------------------------
  // The schema and its migration.

  /** Table name to column names, in column order. */
  type Schema = map<string, seq<string>>

  /**
   * `_add_column_if_not_exists`: add the column when the table lacks it.
   * None when the table does not exist (PRAGMA lists no column, and the
   * ALTER TABLE that follows fails).
   */
  function AddColumn(schema: Schema, table: string, column: string): (r: Option<Schema>)
    ensures r.None? <==> table !in schema
    ensures r.Some? ==> r.value.Keys == schema.Keys
    ensures r.Some? ==> forall t :: t in schema && t != table ==> r.value[t] == schema[t]
    ensures r.Some? ==> column in r.value[table] && schema[table] <= r.value[table]
    ensures r.Some? ==> |r.value[table]| == |schema[table]| + (if column in schema[table] then 0 else 1)
  {
    if table !in schema then None
    else if column in schema[table] then Some(schema)
    else Some(schema[table := schema[table] + [column]])
  }

  /** Running the migration a second time changes nothing. */
  lemma AddColumnIdempotent(schema: Schema, table: string, column: string)
    requires table in schema
    ensures AddColumn(AddColumn(schema, table, column).value, table, column) == AddColumn(schema, table, column)
  {
  }

  /** `CREATE TABLE IF NOT EXISTS`. */
  function CreateIfAbsent(schema: Schema, table: string, columns: seq<string>): (r: Schema)
    ensures table in r && r.Keys == schema.Keys + {table}
    ensures table in schema ==> r == schema
    ensures table !in schema ==> r[table] == columns
  {
    if table in schema then schema else schema[table := columns]
  }

  /** The tables setup_database creates, with the columns each is created with. */
  const TableDefinitions: seq<(string, seq<string>)> := [
    ("customers", ["id", "name", "address", "phone", "email"]),
    ("categories", ["id", "name", "sort_order"]),
    ("pricelist", ["id", "item_name", "unit_price", "sort_order", "category_id"]),
    ("estimate_jobs", ["job_id", "customer_id", "job_name", "estimate_date", "total_amount",
                       "install_total", "markup_percent", "misc_charge"]),
    ("estimate_line_items", ["item_id", "job_id", "item_name", "category_name", "quantity",
                             "unit_price", "line_total"]),
    ("settings", ["key", "value"])
  ]

  /** `CREATE TABLE IF NOT EXISTS` for each definition in turn. */
  function CreateTables(schema: Schema, defs: seq<(string, seq<string>)>): (r: Schema)
    ensures forall k :: 0 <= k < |defs| ==> defs[k].0 in r
    ensures forall t :: t in r <==> t in schema || exists k :: 0 <= k < |defs| && defs[k].0 == t
    ensures forall t :: t in schema ==> r[t] == schema[t]
    decreases |defs|
  {
    if defs == [] then schema
    else
      var s1 := CreateIfAbsent(schema, defs[0].0, defs[0].1);
      CreateTables(s1, defs[1..])
  }

  /** A table that did not exist is created with the columns of its first definition. */
  lemma {:induction false} CreatedTableColumns(schema: Schema, defs: seq<(string, seq<string>)>, k: nat)
    requires k < |defs| && defs[k].0 !in schema
    requires forall j :: 0 <= j < k ==> defs[j].0 != defs[k].0
    ensures CreateTables(schema, defs)[defs[k].0] == defs[k].1
    decreases k
  {
    var s1 := CreateIfAbsent(schema, defs[0].0, defs[0].1);
    if k > 0 {
      assert defs[1..][k - 1] == defs[k];
      assert forall j :: 0 <= j < k - 1 ==> defs[1..][j] == defs[j + 1];
      CreatedTableColumns(s1, defs[1..], k - 1);
    }
  }

  /** The two migration steps: estimate_jobs gains install_qty and install_unit_price. */
  function MigrateJobs(schema: Schema): (r: Schema)
    requires "estimate_jobs" in schema
    ensures r.Keys == schema.Keys
    ensures forall t :: t in schema && t != "estimate_jobs" ==> r[t] == schema[t]
    ensures schema["estimate_jobs"] <= r["estimate_jobs"]
    ensures "estimate_jobs" in r && "install_qty" in r["estimate_jobs"] && "install_unit_price" in r["estimate_jobs"]
  {
    var s1 := AddColumn(schema, "estimate_jobs", "install_qty").value;
    AddColumn(s1, "estimate_jobs", "install_unit_price").value
  }

  const Uncategorized: string := "Uncategorized"

  /** The category names, in rowid order. */
  function CategoryNames(t: seq<Row<Category>>): (r: seq<string>)
    ensures |r| == |t| && forall k :: 0 <= k < |t| ==> r[k] == t[k].val.name
  {
    if t == [] then [] else [t[0].val.name] + CategoryNames(t[1..])
  }

  /**
   * `INSERT OR IGNORE INTO categories (name, sort_order) VALUES ('Uncategorized', 9999)`:
   * the UNIQUE name makes it a no-op once the row exists.
   */
  function EnsureUncategorized(t: seq<Row<Category>>): (r: seq<Row<Category>>)
    ensures Uncategorized in CategoryNames(r)
    ensures Uncategorized in CategoryNames(t) ==> r == t
    ensures Uncategorized !in CategoryNames(t) ==> r == t + [Row(NextId(t), Category(Uncategorized, 9999))]
  {
    if Uncategorized in CategoryNames(t) then t
    else
      var r := t + [Row(NextId(t), Category(Uncategorized, 9999))];
      assert CategoryNames(r)[|t|] == Uncategorized;
      r
  }

  /**
   * The schema `setup_database` leaves: every table created when missing,
   * then the two install columns added to estimate_jobs when missing.
   */
  function SetupSchema(schema: Schema): (r: Schema)
    ensures forall t :: t in schema && t != "estimate_jobs" ==> t in r && r[t] == schema[t]
    ensures "estimate_jobs" in r && "install_qty" in r["estimate_jobs"] && "install_unit_price" in r["estimate_jobs"]
  {
    assert TableDefinitions[3].0 == "estimate_jobs";
    MigrateJobs(CreateTables(schema, TableDefinitions))
  }

  /** After setup every table setup_database defines exists, and its other tables are kept as they were. */
  lemma SetupCreatesAllTables(schema: Schema)
    ensures forall k :: 0 <= k < |TableDefinitions| ==> TableDefinitions[k].0 in SetupSchema(schema)
  {
    assert TableDefinitions[3].0 == "estimate_jobs";
    var c := CreateTables(schema, TableDefinitions);
    assert SetupSchema(schema).Keys == c.Keys;
  }

  /** Running setup_database a second time changes neither the schema nor the categories. */
  lemma SetupIdempotent(schema: Schema, categories: seq<Row<Category>>)
    ensures SetupSchema(SetupSchema(schema)) == SetupSchema(schema)
    ensures EnsureUncategorized(EnsureUncategorized(categories)) == EnsureUncategorized(categories)
  {
    var s := SetupSchema(schema);
    SetupCreatesAllTables(schema);
    CreateTablesExisting(s, TableDefinitions);
    MigratedAlready(s);
  }

  /** Once both install columns exist the migration changes nothing. */
  lemma MigratedAlready(schema: Schema)
    requires "estimate_jobs" in schema
    requires "install_qty" in schema["estimate_jobs"] && "install_unit_price" in schema["estimate_jobs"]
    ensures MigrateJobs(schema) == schema
  {
  }

  /** Creating tables that all exist already changes nothing. */
  lemma {:induction false} CreateTablesExisting(schema: Schema, defs: seq<(string, seq<string>)>)
    requires forall k :: 0 <= k < |defs| ==> defs[k].0 in schema
    ensures CreateTables(schema, defs) == schema
  {
    if defs != [] {
      assert CreateIfAbsent(schema, defs[0].0, defs[0].1) == schema;
      CreateTablesExisting(schema, defs[1..]);
    }
  }

  // ---------------------------------------------------------------------
  // The settings table.

  /** `load_setting`: the stored value, or the default when the key is missing. */
  function LoadSetting(settings: map<string, string>, key: string, default: string): (r: string)
    ensures key in settings ==> r == settings[key]
    ensures key !in settings ==> r == default
  {
    if key in settings then settings[key] else default
  }

  /** `save_setting` (INSERT OR REPLACE) followed by `load_setting` returns what was saved. */
  lemma SaveThenLoad(settings: map<string, string>, key: string, value: string, other: string, default: string)
    ensures LoadSetting(settings[key := value], key, default) == value
    ensures other != key ==> LoadSetting(settings[key := value], other, default) == LoadSetting(settings, other, default)
  {
  }

  /**
   * The gate in front of every delete: with show_confirmations at its default
   * "True" the user's answer decides; with any other stored value the delete
   * goes ahead without asking.
   */
  function Proceeds(settings: map<string, string>, answer: bool): (r: bool)
    ensures r <==> answer || LoadSetting(settings, "show_confirmations", "True") != "True"
  {
    if LoadSetting(settings, "show_confirmations", "True") == "True" then answer else true
  }

  /** On a fresh settings table the dialog is shown and the answer decides. */
  lemma FreshSettingsAsk(answer: bool)
    ensures Proceeds(map[], answer) == answer
  {
  }
}
