/**
 * The SQLite file as the windows see it: one object holding the schema,
 * the settings and the five data tables, each a sequence of rows in rowid
 * order. The windows change these fields statement by statement.
 */
module Store {
  import opened Tables

  class Database {
    var schema: Schema
    var settings: map<string, string>
    var customers: seq<Row<Customer>>
    var categories: seq<Row<Category>>
    var pricelist: seq<Row<Item>>
    var jobs: seq<Row<Job>>
    var lines: seq<Row<Line>>

    /** Every table keeps its rowids in increasing order. */
    predicate Valid()
      reads this
    {
      Increasing(customers) && Increasing(categories) && Increasing(pricelist)
      && Increasing(jobs) && Increasing(lines)
    }

    /** A database file that does not exist yet: no tables, no rows. */
    constructor ()
      ensures Valid()
      ensures schema == map[] && settings == map[]
      ensures customers == [] && categories == [] && pricelist == [] && jobs == [] && lines == []
    {
      schema := map[];
      settings := map[];
      customers := [];
      categories := [];
      pricelist := [];
      jobs := [];
      lines := [];
    }

    /**
     * `setup_database`: create the missing tables, make sure the
     * "Uncategorized" category exists, then add the two install columns to
     * estimate_jobs when they are missing.
     */
    method Setup()
      requires Increasing(categories)
      modifies this`schema, this`categories
      ensures Increasing(categories)
      ensures schema == SetupSchema(old(schema))
      ensures categories == EnsureUncategorized(old(categories))
    {
      SeedUncategorized();
      MigrateSchema();
    }

    /** The row half of `setup_database`: insert "Uncategorized" (sort order 9999) when it is missing. */
    method SeedUncategorized()
      requires Increasing(categories)
      modifies this`categories
      ensures Increasing(categories)
      ensures categories == EnsureUncategorized(old(categories))
      ensures Uncategorized in CategoryNames(categories)
    {
      if Uncategorized !in CategoryNames(categories) {
        InsertKeepsIncreasing(categories, Category(Uncategorized, 9999));
      }
      categories := EnsureUncategorized(categories);
    }

    /** The schema half of `setup_database`: CREATE TABLE IF NOT EXISTS, then the install columns. */
    method MigrateSchema()
      modifies this`schema
      ensures schema == SetupSchema(old(schema))
    {
      schema := SetupSchema(schema);
    }

    /** `save_setting`: INSERT OR REPLACE of one key. */
    method SaveSetting(key: string, value: string)
      modifies this`settings
      ensures settings == old(settings)[key := value]
      ensures Tables.LoadSetting(settings, key, "") == value
    {
      settings := settings[key := value];
    }
  }
}
