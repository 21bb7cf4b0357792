# Cabinet estimator: a verified model of its estimate and catalog bookkeeping

The application is a desktop estimating tool for a cabinet shop, backed by
SQLite. A user keeps a catalog of categories and priced items, a list of
customers, and estimates. An estimate, called a job, is an ordered list of
line items plus four adjustments: a markup percentage, an installation
quantity and unit price, and a miscellaneous charge. This project models
the logic behind those screens, without the widgets:

- `Totals` (`totals.dfy`): line items and the totals arithmetic. Every
  adjustment entry is read with the parse-or-zero policy.
- `Numerals` (`numerals.dfy`): the part of Python's `int()`, `float()` and
  `str.strip()` that the entries go through.
- `Tables` (`tables.dfy`): tables as sequences of rows in rowid order, with
  a fresh-id rule of largest rowid plus one. It also holds the schema set-up
  with its additive column migration, and the settings table with its
  default-on-miss lookup.
- `Ordering` (`ordering.dfy`): the `ORDER BY sort_order` view, the linear
  search for a row in it, and the move up/down that swaps the sort_order of
  two neighbours.
- `Catalog` (`catalog.dfy`): the category and price-list rules. These cover
  adding at max+1, renaming, moving, and deleting a category, whose items
  go to "Uncategorized".
- `CsvImport` (`csv_import.dfy`): the price-list import loop over rows that
  are already split into fields. It is all-or-nothing.
- `Jobs` (`jobs.dfy`): saving, loading, duplicating and deleting a job. It
  includes the legacy installation fallback and deleting a customer.
- `Store` (`database.dfy`): a `Database` class whose fields are the tables;
  the operations above update them in place.
- `Estimate` (`estimate.dfy`): the `EstimateFrame` class. It holds the line
  list, the loaded job id, the selected customer, the index of the line
  being edited and the entry fields, and its methods mirror the screen's
  callbacks.
- `Managers` (`managers.dfy`): the category, price-list, customer and
  estimate manager windows, and the application's CSV import command. Each
  is a class whose methods update the database.
- `Findings` (`findings.dfy`): three places where the code departs from what
  it evidently means to do.

Choices made in the model:

- A dialog answer ("Are you sure?") is a parameter of the method that
  shows the dialog.
- Whether a dialog is shown at all depends on the `show_confirmations`
  setting (`Tables.Proceeds`).
- An entry the user typed is `Typed(text)`. An entry the program filled in
  with a number is `Shown(value)`.
- Floating-point numbers are `real`.

## Model

| member | source | states |
|---|---|---|
| Tables.AddColumn | app.py:44-49 | the column is present afterwards; no other table changes; the table gains exactly one column when the column was absent and none when it was present |
| Tables.AddColumnIdempotent | app.py:44-49 | adding the same column twice is the same as adding it once |
| Tables.CreateTables | app.py:55-88 | every defined table exists afterwards, and a table that already existed keeps its columns (`CREATE TABLE IF NOT EXISTS`) |
| Tables.CreatedTableColumns | app.py:55-88 | a table that did not exist is created with the columns of its (first) definition |
| Tables.EnsureUncategorized | app.py:93 | "Uncategorized" exists afterwards; it is inserted at sort_order 9999 only when absent, otherwise the categories are unchanged (`INSERT OR IGNORE` on a unique name) |
| Tables.SetupSchema | app.py:51-99 | tables other than estimate_jobs keep their columns, and estimate_jobs ends up with install_qty and install_unit_price |
| Tables.SetupCreatesAllTables | app.py:51-99 | after set-up, all six tables exist |
| Tables.SetupIdempotent | app.py:51-99 | running set-up a second time changes neither the schema nor the categories |
| Store.Database.Setup | app.py:51-99 | the schema and the categories become what the set-up functions give, and rowid order is kept |
| Store.Database.SeedUncategorized | app.py:93 | the categories table then names "Uncategorized", and rowid order is kept |
| Tables.LoadSetting | app.py:110-117 | the stored value when the key is present, the default otherwise |
| Store.Database.SaveSetting | app.py:102-108 | the key now maps to the value and every other key is unchanged; loading the key gives the value back |
| Tables.SaveThenLoad | app.py:102-117 | save then load returns the value saved and leaves every other key's load unchanged |
| Tables.Proceeds | app.py:230-235 | a destructive action goes ahead exactly when the user answered yes or `show_confirmations` is not "True" |
| Tables.NextId | app.py:225-226 | a fresh rowid is positive, is not in use, and is larger than every rowid in the table |
| Tables.DeleteId | app.py:237 | the row with that id is gone and every other row is kept |
| Tables.DeleteIdKeepsIncreasing | app.py:237 | deleting a row keeps the table in rowid order |
| Tables.FindUnique | app.py:647-649 | in a table in rowid order, looking up a row's id finds that row |
| Numerals.Strip | app.py:219 | the result is the text with leading whitespace dropped and then cut at the end, and it neither starts nor ends with whitespace (the full `str.isspace()` set: ASCII tab to carriage return, 0x1C-0x1F, space, NEL, no-break space and the Unicode space and line/paragraph separators) |
| Numerals.StripEmptyIff | app.py:219-220 | stripped text is empty exactly when the text is all whitespace, so a blank name counts as empty |
| Numerals.ParseInt | app.py:712 | `int()` of all-whitespace text (including the empty string) is not a number |
| Numerals.ParseFloat | app.py:332 | `float()` of all-whitespace text (including the empty string) is not a number |
| Numerals.NumberHasDigit | app.py:332 | text that `float()` accepts holds at least one digit, so a sign or a point alone is refused |
| Numerals.IntValue | app.py:712 | `int()` reads a non-empty digit string as its decimal value, and '-' followed by digits as its negation |
| Numerals.IntParsesAsFloat | app.py:712 | text that `int()` accepts parses to the same number under `float()` |
| Numerals.DecimalValue | app.py:697-706 | `float()` reads digits, one point and digits, with a digit on at least one side, as the whole part plus the fraction (".5" is 0.5, "2." is 2) |
| Totals.OrZero | app.py:697-706 | an entry that does not parse counts as 0; one that parses counts as its value; a number the program filled in counts as that number |
| Totals.ComputeTotals | app.py:695-707 | grand total = subtotal + subtotal·markup/100 + install qty·install unit price + misc, where each entry is parse-or-zero and the markup applies to the subtotal only; a zero markup adds nothing; a zero install quantity or price adds nothing |
| Totals.WorkedExample | app.py:695-707 | lines 2 × 50 and 1 × 30 with a 10% markup, 1 install at 100 and misc 25 give subtotal 130, markup 13, install 100, misc 25 and grand total 268 |
| Totals.SubtotalConcat | app.py:696 | the subtotal of two lists joined is the sum of their subtotals |
| Totals.SubtotalReplace | app.py:734 | replacing one line changes the subtotal by the difference of the two line totals |
| Totals.SubtotalRemove | app.py:722 | removing a line lowers the subtotal by that line's total |
| Totals.SubtotalPermutation | app.py:696 | lists that are permutations of each other have the same subtotal |
| Totals.GrandTotalAppend | app.py:695-707 | adding a line raises the grand total by the line's total plus the markup percentage of it; installation and misc are unaffected |
| Estimate.WriteInLine | app.py:709-714 | a write-in line exists exactly when description, quantity and price are non-empty and quantity and price parse; it has category "Write-in" and total = qty × unit price |
| Estimate.EstimateFrame.AddWriteInItem | app.py:709-715 | a valid write-in appends exactly one line; anything else leaves the list unchanged |
| Estimate.CatalogLine | app.py:727-731 | a catalog line exists exactly when the item is not "-", the quantity is non-empty and an integer, and the item has a price; its total = qty × unit price |
| Estimate.RemoveAt | app.py:734 | `pop(i)`: one shorter, the lines before i kept, the lines after it shifted down |
| Estimate.InsertAt | app.py:734 | `insert(i, x)`: one longer, x at i, the lines before i kept, the rest shifted up |
| Estimate.RemoveInsertInverse | app.py:734 | pop undoes insert at the same index, and inserting back the popped line restores the list |
| Estimate.PlaceLine | app.py:732-735 | without an edit index the line is appended; with one the line replaces the line at that index, keeping the length and the other lines; an index past the end fails, as `pop` does |
| Estimate.PlaceLineSubtotal | app.py:732-735 | an add raises the subtotal by the new line's total; a replace changes it by the difference |
| Estimate.EstimateFrame.AddOrUpdateItemInEstimate | app.py:727-737 | with no selected customer, an invalid line, or an edit index past the end, nothing changes; otherwise the line is placed and edit mode ends |
| Estimate.EstimateFrame.PopulateEditForm | app.py:723-726 | the edit index becomes the chosen line |
| Estimate.DeleteLine | app.py:722 | deleting an index in range removes exactly that line, keeping the order and the multiset of the others |
| Estimate.DeleteLineSubtotal | app.py:722 | deleting a line lowers the subtotal by its total |
| Estimate.EstimateFrame.DeleteItemFromEstimate | app.py:716-722 | the line is deleted when the action proceeds; otherwise the list is unchanged |
| Estimate.MoveLine | app.py:738-740 | moving keeps the length and the multiset of lines |
| Estimate.MoveLineShape | app.py:738-740 | a move that has a neighbour swaps the line with it, and every other line stays |
| Estimate.MoveLineAtBoundary | app.py:738-740 | "up" at index 0, "down" at the last index, or an index out of range leaves the list unchanged |
| Estimate.MoveLineSubtotal | app.py:738-740 | moving never changes the subtotal |
| Estimate.MoveLineThenBack | app.py:738-740 | moving a line and then moving it back from its new place in the opposite direction restores the list |
| Estimate.EstimateFrame.MoveItemInEstimate | app.py:738-741 | the list becomes the moved list |
| Estimate.EstimateFrame.ClearEstimate | app.py:602-614 | the screen becomes an empty new estimate (the one `Jobs.ClearedTotalsZero` shows totals 0) with the default markup and install price from the settings, and edit mode ends (corrected; see Findings) |
| Estimate.EstimateFrame.constructor | app.py:509-549 | the screen starts as the cleared new estimate, with no catalog prices and no edit mode |
| Estimate.EstimateFrame.SetCustomer | app.py:770 | the selected customer becomes the chosen one, or none |
| Jobs.ClearedTotalsZero | app.py:602-614 | a cleared estimate totals zero whatever the defaults, with no job id and no lines |
| Jobs.JobRecord | app.py:772-785 | the stored header has total_amount equal to the screen's grand total, and install_total = install_qty × install_unit_price, each parse-or-zero |
| Jobs.SaveJob | app.py:771-797 | a save writes nothing exactly when no customer is selected |
| Jobs.SaveJobEffect | app.py:787-796 | a first save inserts one job under a fresh id; a later save updates that row in place; either way the stored total is the grand total, the job's stored lines are the screen's lines in order (for a first save, provided no old line already carries the fresh id), rowid order is kept, and "no orphan lines" is kept when it held before |
| Jobs.SaveKeepsOtherJobs | app.py:787-796 | a save changes no other job's row or lines |
| Jobs.UpdateJob | app.py:790-792 | the UPDATE rewrites only the row with the loaded job id, from the screen, keeping its customer_id; every other row, and the ids and their order, are kept |
| Estimate.EstimateFrame.SaveEstimate | app.py:771-797 | the tables and the loaded job id become what `SaveJob` gives (nothing changes without a customer), writing the lines one at a time, and rowid order is kept |
| Jobs.LoadedLine | app.py:661-662 | a loaded line keeps name, quantity, unit price and total; a NULL or empty category becomes "Write-in" |
| Jobs.InstallFields | app.py:673-679 | the installation entries are the stored quantity and unit price, the legacy fallback, or blank; there is no result only when a NULL install_total reaches the fallback test |
| Jobs.LegacyInstallFallback | app.py:673-679 | when the quantity or unit price is NULL, or the quantity is ≤ 0, and install_total > 0, installation becomes quantity 1 at unit price install_total and charges install_total |
| Jobs.LoadJob | app.py:644-692 | a missing job leaves a cleared screen; the loaded job id is the job's id unless duplicating, and none otherwise |
| Jobs.LoadRestores | app.py:644-692 | loading a stored job restores its id, customer, name, markup and misc; the lines come back exactly when none has an empty category; the grand total comes back unless quantity < 0 and price > 0; a non-integral installation price is written into its entry as `:.2f`, which the model reads back exactly (see "## Left out") |
| Jobs.LinesRoundTrip | app.py:661-662 | stored lines read back equal the screen's lines exactly when no line has an empty category, and the subtotal always comes back |
| Jobs.InstallRoundTrip | app.py:673-679 | a stored installation reads back with the same charge unless its quantity is negative and its price positive; a non-integral installation price is written into its entry as `:.2f`, which the model reads back exactly (see "## Left out") |
| Jobs.SaveThenLoad | app.py:644-692 | saving and then loading restores the job name, the customer of a new job, markup and misc; the lines come back exactly when none has an empty category; the total comes back exactly when not (quantity < 0 and price > 0); a non-integral installation price is written into its entry as `:.2f`, which the model reads back exactly (see "## Left out") |
| Jobs.DuplicateLoad | app.py:684-691 | a duplicate load is the plain load with no job id and " (Copy)" appended to the name; saving it creates a new job and leaves the original job and its lines untouched |
| Estimate.EstimateFrame.LoadEstimate | app.py:644-692 | the screen becomes `LoadJob` of the tables, and edit mode ends (corrected; see Findings) |
| Estimate.EstimateFrame.ReadStoredLines | app.py:660-662 | starting from the list emptied by the clear, the loop leaves exactly the stored lines, each read back with `LoadedLine`, in stored order |
| Jobs.DeleteJob | app.py:445-446 | the job row is gone |
| Jobs.DeleteJobEffect | app.py:445-446 | on any database, the job and all its lines are gone, every other job and its lines are unchanged, and rowid order is kept; "no orphan lines" is kept when it held before |
| Estimate.EstimateFrame.DeleteCurrentEstimate | app.py:616-642 | without a loaded job, or when the action does not proceed, nothing changes; otherwise the job and its lines are deleted, the screen is cleared and edit mode ends (corrected; see Findings) |
| Managers.EstimateManagerWindow.DeleteJob | app.py:436-454 | the job and its lines are deleted when the action proceeds; the main screen is cleared, and its edit mode ended, exactly when it held that job (corrected; see Findings) |
| Managers.EstimateManagerWindow.LoadJob | app.py:458-459 | the main screen becomes the plain load of the job; edit mode ends (corrected; see Findings) |
| Managers.EstimateManagerWindow.DuplicateJob | app.py:456-457 | the main screen becomes the duplicate load of the job, with no job id; edit mode ends (corrected; see Findings) |
| Findings.DeleteCustomerAsWritten | app.py:287-295 | the customer and its jobs are gone, and the line table is untouched |
| Findings.OrphanLinesJoinNextEstimate | app.py:294 | with customer 1 owning job 1, which holds one line (any contents): after the as-written delete that line is orphaned, and the next new estimate, saved for any selected customer with no lines, reuses job id 1 and loads with the deleted job's line |
| Jobs.DeleteCustomerEffect | app.py:287-295 | the corrected cascade: the customer, its jobs and their lines are gone; the other jobs and their lines are unchanged; "no orphan lines" is kept |
| Jobs.DeleteCustomer | app.py:287-295 | (corrected; see Findings) exactly the other customers and the jobs of other customers remain, and a line remains exactly when its job id is not one of this customer's jobs |
| Jobs.DeleteCustomerKeepsOrder | app.py:287-295 | the corrected cascade keeps both tables in rowid order, and leaves no orphan line when there was none before |
| Managers.CustomerManagerWindow.DeleteCustomer | app.py:287-295 | the tables become the corrected cascade when the action proceeds, and are unchanged otherwise; rowid order is kept, and so is "no orphan lines" when it held before (the source accepts a database that already has orphan lines) |
| Catalog.AddCategory | app.py:224-226 | the add fails exactly when the name is taken (the UNIQUE constraint); otherwise one row is appended with a fresh id and a sort_order above every other |
| Catalog.RenameCategory | app.py:224 | the rename fails exactly when the id is present and another row already has the name (an UPDATE that matches no row succeeds and changes nothing); otherwise only that row's name changes |
| Catalog.AddCategoryKeepsUnique | app.py:224-226 | an add that succeeds keeps category names unique and rowids increasing |
| Catalog.RenameCategoryKeepsUnique | app.py:224 | a rename that succeeds keeps category names unique and rowids increasing |
| Catalog.NewCategorySortsLast | app.py:225-226 | a new category comes last in `ORDER BY sort_order` and the others keep their order |
| Managers.CategoryManagerWindow.AddOrUpdateCategory | app.py:218-229 | the name is stripped; an empty name or a name clash changes nothing and keeps edit mode; otherwise the table becomes the rename (when editing) or the add, and edit mode ends |
| Managers.CategoryManagerWindow.PopulateEditFields | app.py:216-217 | edit mode is set to the chosen category |
| Catalog.DeleteCategory | app.py:230-237 | deleting fails only when there is no "Uncategorized" row |
| Catalog.ReassignCounts | app.py:236 | after reassignment the deleted category has no items; "Uncategorized" gains exactly those items; other categories are unchanged |
| Catalog.DeleteCategoryMovesItems | app.py:236-237 | the category row is gone, "Uncategorized" remains, the item count is kept, and every item still names an existing category |
| Managers.CategoryManagerWindow.DeleteCategory | app.py:230-237 | when the action proceeds, the tables become the reassign-then-delete; otherwise they are unchanged |
| Ordering.SortByOrder | app.py:239 | the view is sorted by sort_order and is a permutation of the rows |
| Ordering.FindIndex | app.py:240-241 | the loop returns the first index holding the id, or -1 exactly when no row has it |
| Ordering.Neighbour | app.py:243-245 | "up" goes to i-1 and "down" to i+1; there is no neighbour exactly at the top for "up" and at the bottom for "down" |
| Ordering.MovePlan | app.py:238-247 | there is no swap exactly when the id is absent or at the boundary; otherwise the swap names the target with the neighbour's sort_order |
| Ordering.MovePlanNoneAtBoundary | app.py:238-247 | with distinct sort orders, a move is a no-op exactly when the id is absent or its row is first ("up") or last ("down") in sort order |
| Ordering.ApplySwapPermutation | app.py:246-247 | applying the swap to two permutations of the same rows gives permutations of each other |
| Ordering.MoveThenMoveBackRestores | app.py:238-247 | with distinct sort orders, a move followed by the opposite move of the same row restores every sort_order |
| Ordering.SwapUnchangedIff | app.py:238-247 | whatever the sort orders, a planned swap leaves the rows as they were exactly when the neighbour has the same sort_order |
| Ordering.MoveKeepsKeyed | app.py:246-247 | a move keeps ids and sort orders distinct |
| Catalog.MoveCategoryShape | app.py:246-247 | a move changes only sort_orders, exactly as the swap says, and keeps ids, names and rowid order |
| Catalog.MoveCategory | app.py:238-247 | a move keeps the number of rows, their ids and their names |
| Catalog.MoveCategoryNoOpIff | app.py:238-247 | with distinct sort orders, a category move leaves the table unchanged exactly when the id is absent or the row is at the boundary |
| Catalog.MoveCategoryThenBack | app.py:238-247 | with distinct sort orders, a category move that changed something is undone by the opposite move |
| Catalog.MoveCategoryUnchangedIff | app.py:238-247 | whatever the sort orders, a category move leaves the table unchanged exactly when the id is absent, the row is at the boundary, or its neighbour has the same sort_order |
| Catalog.CategoryEditsKeepKeyed | app.py:224-247 | adding, renaming, moving and deleting a category keep category sort orders distinct |
| Managers.CategoryManagerWindow.MoveCategory | app.py:238-247 | the table becomes `Catalog.MoveCategory`, computed by sorting, searching for the row and two single-row updates; rowid order is kept |
| Catalog.MaxCategoryOrder | app.py:225 | the value is at least every category's sort_order, is 0 for an empty table, and otherwise is the sort_order of some category |
| Catalog.MaxItemOrder | app.py:338 | the value is at least the sort_order of every item of the category, is 0 when the category has no items, and otherwise is the sort_order of one of its items |
| Catalog.AddItem | app.py:337-340 | one item is appended with a fresh id, the given name, price and category, and a sort_order above every item of its category |
| Catalog.NewItemSortsLast | app.py:338-339 | a new item comes last within its category; other categories' views are unchanged |
| Catalog.UpdateItem | app.py:335-336 | only the edited row changes: name, price and category are replaced, sort_order is kept |
| Catalog.UpdateThenFind | app.py:335-336 | looking up the edited row gives the new values |
| Managers.ItemEntryRejects | app.py:330-334 | the price-list form is rejected exactly when the stripped name is empty, the price is empty, the category is "-", the price does not parse, or the category name is unknown |
| Managers.PriceListWindow.AddOrUpdateItem | app.py:329-341 | an empty name or price, category "-", an unparsable price or an unknown category changes nothing; otherwise the item is updated (when editing) or added, and edit mode ends |
| Managers.PriceListWindow.PopulateEditFields | app.py:391-398 | edit mode is set to the chosen item |
| Catalog.MoveItemShape | app.py:387-388 | an item move changes only the two swapped rows, and nothing when there is no swap |
| Catalog.MoveItem | app.py:378-388 | a move keeps the number of rows and their ids, and changes nothing in any row but its sort_order |
| Catalog.MoveItemNoOpIff | app.py:378-388 | with distinct sort orders in the category, an item move leaves the list unchanged exactly when the id is absent from the category or at its boundary |
| Catalog.MoveItemThenBack | app.py:378-388 | with distinct sort orders in the category, an item move that changed something is undone by the opposite move |
| Catalog.MoveItemUnchangedIff | app.py:378-388 | whatever the sort orders, an item move leaves the list unchanged exactly when the item is absent from the category, at its boundary, or its neighbour has the same sort_order |
| Catalog.UpdateCanTieItems | app.py:335-336 | editing an item into a category where another item has its sort_order leaves two items of that category with one sort_order |
| Managers.PriceListWindow.MoveItem | app.py:378-388 | the price list becomes `Catalog.MoveItem`, and rowid order is kept |
| Managers.PriceListWindow.DeleteItem | app.py:399-407 | when the action proceeds, the item is gone and the others kept; otherwise nothing changes |
| CsvImport.CacheOf | app.py:966 | the cache holds exactly the category names, each mapped to the id of a row with that name |
| CsvImport.ImportRow | app.py:969-977 | one row fails exactly when it has not three fields or its price does not parse |
| CsvImport.ImportFailsIff | app.py:956-983 | the import is rolled back exactly when the file has no header row or some data row is malformed |
| CsvImport.ImportPriceList | app.py:956-983 | an empty file fails; a successful import gives one item per data row and keeps the existing categories as a prefix |
| CsvImport.ImportKeepsKeyed | app.py:963-977 | an import that succeeds keeps category sort orders distinct |
| CsvImport.ImportResult | app.py:963-977 | a successful import replaces the price list with one item per data row, in order, numbered from 1, matching its row's name, price and category; it keeps the existing categories as a prefix; new categories are appended; sort orders increase within each category; names stay unique |
| Managers.App.ImportRowInto | app.py:969-977 | one pass of the loop succeeds exactly when the row is well formed, and then moves the tables and cache as `ImportRow` does |
| Managers.App.ImportPricelistCsv | app.py:944-983 | without confirmation or a file nothing changes; otherwise the tables become the import's result, or stay as they were when it fails (the rollback) |
| Findings.ClearEstimateAsWritten | app.py:602-614 | clearing empties the screen but keeps the edit index |
| Findings.EditThenNewEstimateLosesLines | app.py:602-614 | after Edit then New Estimate, the next catalog line is refused on the empty list, and once a write-in fills that position the catalog line replaces it instead of being appended |
| Findings.LoadEstimateAsWritten | app.py:644-645 | the as-written load keeps the edit index it was given, and a missing job leaves the as-written cleared screen |
| Findings.EditThenLoadReplacesLine | app.py:732-735 | after Edit on line i and a load of a job with more than i lines, the next catalog line replaces the loaded line i instead of being appended |

## Left out

- The widgets, layout, button enabling, search filters and message boxes are not modelled. A confirmation dialog's answer is a parameter; the choice of whether to show it follows the settings (`Tables.Proceeds`).
- `update_dropdowns` and its SQL join are not modelled: the catalog price map is set whole through `Estimate.EstimateFrame.UpdateDropdowns`. The price-list window's name-to-id category map is a constructor parameter.
- The customer add/edit form (`add_or_update_customer`) and the settings window are not modelled; they are plain single-row writes outside the estimate logic.
- Number formatting is not modelled (`:,.2f`, and the integer-versus-decimal display when a number is written back into an entry). A number the program writes into an entry is `Shown(value)` and reads back as that value.
- Binary floating point is not modelled: arithmetic is exact over `real`.
- Numerals.ParseFloat: `int()` and `float()` are modelled on surrounding whitespace, an optional sign, ASCII digits and at most one '.'. Exponents, "inf"/"nan", underscores and non-ASCII digits (which Python also accepts) are not modelled; such text reads as not a number.
- The `datetime.now()` timestamp stored by a save is not modelled; it depends on the clock.
- PDF generation, preview and printing, backup/restore, CSV export, and the file dialog and CSV tokenizer of the import are I/O and are not modelled. The import takes rows that are already split into fields.
- The SQL engine is not modelled. Tables are sequences in rowid order. A new rowid is the largest rowid plus one, as SQLite assigns it for an INTEGER PRIMARY KEY without AUTOINCREMENT.
- `CTkToolTip.py` is pure UI and `setup_database.py` is a standalone reset script; neither is part of this model.
- Store.Database.Setup: keeps only rowid order of the categories as its invariant, not the whole `Valid()`.
- Managers.PriceListWindow.AddOrUpdateItem: a category name missing from the window's map would write a NULL category_id; the model treats it as no change.
- Estimate.EstimateFrame.DeleteItemFromEstimate: does not adjust the edit index, as in the source; a later update can then hit a different line or fail.
- Estimate.EstimateFrame.SaveEstimate: requires the tables to be in rowid order. A save after the loaded job was deleted from another window updates no row, and its lines are then orphans; this is not stated as a property.
- Jobs.SaveJobEffect: a first save takes the next job id, and old orphan lines that already carry that id (left by the as-written `delete_customer`, see Findings) become lines of the new job. The stored lines are then the screen's lines after those, so "the job's lines are the screen's lines" is proved only when no old line carries the fresh id, which "no orphan lines" guarantees.
- Jobs.UpdateJob: the UPDATE does not write customer_id, as in the source, so re-saving a loaded job under another selected customer keeps the old customer.
- Jobs.LoadJob: `install_total > 0` with a NULL install_total raises in the source. The model stops the load there, leaving the installation and misc entries blank and the duplicate suffix unapplied.
- Ordering.MovePlanNoneAtBoundary: proved for distinct sort orders only. Item sort orders can tie (`Catalog.UpdateCanTieItems`; `delete_category` also keeps the sort_order of the items it moves), and then a move whose neighbour shares the sort_order is a no-op too; `Ordering.SwapUnchangedIff` states the general case.
- Ordering.MoveThenMoveBackRestores: proved for distinct sort orders only; with ties, a move followed by the opposite move need not restore the table.
- Catalog.MoveCategoryNoOpIff: proved for distinct category sort orders, which adding, renaming, moving, deleting and importing keep (`Catalog.CategoryEditsKeepKeyed`, `CsvImport.ImportKeepsKeyed`); `Catalog.MoveCategoryUnchangedIff` states the general case.
- Catalog.MoveCategoryThenBack: proved for distinct category sort orders, which adding, renaming, moving, deleting and importing keep. The set-up's "Uncategorized" row at sort_order 9999 could tie with a category already at 9999; that case is not excluded.
- Catalog.MoveItemNoOpIff: proved for distinct item sort orders in the category only; ties are reachable (`Catalog.UpdateCanTieItems`, and `delete_category`'s reassignment), and `Catalog.MoveItemUnchangedIff` states the general case, in which a move onto a tied neighbour is a no-op.
- Catalog.MoveItemThenBack: proved for distinct item sort orders in the category only; with ties, a move followed by the opposite move need not restore the table.
- Ordering.SortByOrder: rows with the same sort_order keep their rowid order in the view. SQLite's `ORDER BY sort_order` promises no order among ties, so with ties the program may search a different view.

## Findings

| source | as written | input that shows it | evidently intended | confidence | as-written member | corrected member |
|---|---|---|---|---|---|---|
| app.py:287-295 | `delete_customer` deletes the customer's jobs but not their rows in estimate_line_items | customer 1 with job 1 holding one line "Door"; delete customer 1, then save a new estimate for customer 2 with no lines: it gets job id 1 again and loads with the line "Door" | the customer's jobs' lines are deleted too, as `delete_job` does | not executed | Findings.OrphanLinesJoinNextEstimate | Jobs.DeleteCustomerEffect |
| app.py:602-614 | `clear_estimate` does not reset `editing_item_index` | press Edit on line 0, then New Estimate: the next catalog line is refused (the pop fails on the empty list); after one write-in line, the next catalog line replaces it | a new estimate leaves edit mode | not executed | Findings.EditThenNewEstimateLosesLines | Estimate.EstimateFrame.ClearEstimate |
| app.py:644-645 | `load_estimate` only calls `clear_estimate`, so it too keeps `editing_item_index` | press Edit on line 1 of one estimate, then load another estimate with at least two lines: the next catalog line replaces that estimate's line 1 instead of being appended | a loaded estimate starts outside edit mode | not executed | Findings.EditThenLoadReplacesLine | Estimate.EstimateFrame.LoadEstimate |
