/**
 * The persistence rules of estimates over the estimate_jobs and
 * estimate_line_items tables: what saving writes, what loading reads back
 * into the estimate screen, and what the deletes remove.
 */
module Jobs {
  import opened Wrappers
  import opened Numerals
  import opened Totals
  import opened Tables

  // ---------------------------------------------------------------------
  // The stored lines of a job.

  /** The row `save_estimate` inserts for one line item. */
  function LineRow(jobId: nat, item: LineItem): Line {
    Line(jobId, item.name, Some(item.category), item.qty, item.unitPrice, item.total)
  }

  /** The rows of a whole line-item list, in list order. */
  function LineRows(jobId: nat, items: seq<LineItem>): (r: seq<Line>)
    ensures |r| == |items| && forall k :: 0 <= k < |items| ==> r[k] == LineRow(jobId, items[k])
  {
    seq(|items|, k requires 0 <= k < |items| => LineRow(jobId, items[k]))
  }

  /** The INSERT loop of `save_estimate`: one new row per line item, each with the next free rowid. */
  function AppendLines(t: seq<Row<Line>>, jobId: nat, items: seq<LineItem>): (r: seq<Row<Line>>)
    ensures |r| == |t| + |items| && r[..|t|] == t
    decreases |items|
  {
    if items == [] then t
    else
      var u := AppendLines(t, jobId, items[..|items| - 1]);
      var r := u + [Row(NextId(u), LineRow(jobId, items[|items| - 1]))];
      assert r[..|t|] == u[..|t|];
      r
  }

  /** `SELECT ... FROM estimate_line_items WHERE job_id = ?`, in rowid order. */
  function JobLines(t: seq<Row<Line>>, jobId: nat): (r: seq<Line>)
    ensures forall x :: x in r ==> x.jobId == jobId
  {
    if t == [] then []
    else (if t[0].val.jobId == jobId then [t[0].val] else []) + JobLines(t[1..], jobId)
  }

  /** A row added at the end is read last, and only by its own job. */
  lemma {:induction false} JobLinesAppend(t: seq<Row<Line>>, x: Row<Line>, jobId: nat)
    ensures JobLines(t + [x], jobId) == JobLines(t, jobId) + (if x.val.jobId == jobId then [x.val] else [])
  {
    if t == [] {
      assert [] + [x] == [x];
    } else {
      assert (t + [x])[1..] == t[1..] + [x];
      JobLinesAppend(t[1..], x, jobId);
    }
  }

  /** The save loop's rows read back as the list, after what the job already had; other jobs read nothing new. */
  lemma {:induction false} AppendLinesRead(t: seq<Row<Line>>, jobId: nat, items: seq<LineItem>, other: nat)
    requires other != jobId
    ensures JobLines(AppendLines(t, jobId, items), jobId) == JobLines(t, jobId) + LineRows(jobId, items)
    ensures JobLines(AppendLines(t, jobId, items), other) == JobLines(t, other)
    decreases |items|
  {
    if items != [] {
      var init := items[..|items| - 1];
      var u := AppendLines(t, jobId, init);
      AppendLinesRead(t, jobId, init, other);
      JobLinesAppend(u, Row(NextId(u), LineRow(jobId, items[|items| - 1])), jobId);
      JobLinesAppend(u, Row(NextId(u), LineRow(jobId, items[|items| - 1])), other);
      LineRowsSnoc(jobId, items);
    }
  }

  /** The rows of a list are the rows of all but its last item, then the last item's row. */
  lemma LineRowsSnoc(jobId: nat, items: seq<LineItem>)
    requires items != []
    ensures LineRows(jobId, items) == LineRows(jobId, items[..|items| - 1]) + [LineRow(jobId, items[|items| - 1])]
  {
    var a := LineRows(jobId, items);
    var b := LineRows(jobId, items[..|items| - 1]) + [LineRow(jobId, items[|items| - 1])];
    assert |a| == |b|;
    forall k | 0 <= k < |a| ensures a[k] == b[k] {
      if k < |items| - 1 {
        assert items[..|items| - 1][k] == items[k];
      }
    }
  }

  /** The save loop keeps rowids increasing. */
  lemma {:induction false} AppendLinesIncreasing(t: seq<Row<Line>>, jobId: nat, items: seq<LineItem>)
    requires Increasing(t)
    ensures Increasing(AppendLines(t, jobId, items))
    decreases |items|
  {
    if items != [] {
      AppendLinesIncreasing(t, jobId, items[..|items| - 1]);
      var u := AppendLines(t, jobId, items[..|items| - 1]);
      InsertKeepsIncreasing(u, LineRow(jobId, items[|items| - 1]));
    }
  }

  /** Every row the save loop adds belongs to the saved job. */
  lemma {:induction false} AppendLinesOwner(t: seq<Row<Line>>, jobId: nat, items: seq<LineItem>, k: nat)
    requires |t| <= k < |t| + |items|
    ensures AppendLines(t, jobId, items)[k].val.jobId == jobId
    decreases |items|
  {
    if k < |t| + |items| - 1 {
      AppendLinesOwner(t, jobId, items[..|items| - 1], k);
    }
  }

  /** `DELETE FROM estimate_line_items WHERE job_id IN (...)`. */
  function WithoutLinesOf(t: seq<Row<Line>>, jobs: set<nat>): (r: seq<Row<Line>>)
    ensures |r| <= |t|
    ensures forall x :: x in r <==> x in t && x.val.jobId !in jobs
  {
    if t == [] then []
    else
      var rest := WithoutLinesOf(t[1..], jobs);
      assert forall x :: x in t <==> x == t[0] || x in t[1..];
      if t[0].val.jobId in jobs then rest else [t[0]] + rest
  }

  /** Deleting the lines of some jobs empties those jobs and leaves every other job's lines as they were. */
  lemma {:induction false} WithoutLinesRead(t: seq<Row<Line>>, jobs: set<nat>, jobId: nat)
    ensures JobLines(WithoutLinesOf(t, jobs), jobId) == if jobId in jobs then [] else JobLines(t, jobId)
  {
    if t != [] {
      var rest := WithoutLinesOf(t[1..], jobs);
      WithoutLinesRead(t[1..], jobs, jobId);
      if t[0].val.jobId !in jobs {
        var w := [t[0]] + rest;
        assert WithoutLinesOf(t, jobs) == w;
        assert w[1..] == rest;
        assert JobLines(w, jobId) == (if t[0].val.jobId == jobId then [t[0].val] else []) + JobLines(rest, jobId);
      } else {
        assert WithoutLinesOf(t, jobs) == rest;
      }
    }
  }

  /** Deleting lines keeps rowids increasing. */
  lemma {:induction false} WithoutLinesIncreasing(t: seq<Row<Line>>, jobs: set<nat>)
    requires Increasing(t)
    ensures Increasing(WithoutLinesOf(t, jobs))
  {
    if t != [] {
      WithoutLinesIncreasing(t[1..], jobs);
      var rest := WithoutLinesOf(t[1..], jobs);
      forall k | 0 <= k < |rest|
        ensures t[0].id < rest[k].id
      {
        assert rest[k] in t[1..];
      }
    }
  }

  // ---------------------------------------------------------------------
  // The jobs table.

  /** No stored line names a job that is gone. */
  predicate NoOrphans(jobs: seq<Row<Job>>, lines: seq<Row<Line>>) {
    forall k :: 0 <= k < |lines| ==> lines[k].val.jobId in Ids(jobs)
  }

  /** The ids of one customer's jobs. */
  function JobIdsOf(jobs: seq<Row<Job>>, customerId: nat): (r: set<nat>)
    ensures forall id :: id in r <==> exists k :: 0 <= k < |jobs| && jobs[k].id == id && jobs[k].val.customerId == customerId
  {
    set k | 0 <= k < |jobs| && jobs[k].val.customerId == customerId :: jobs[k].id
  }

  /** `DELETE FROM estimate_jobs WHERE customer_id = ?`. */
  function WithoutJobsOf(t: seq<Row<Job>>, customerId: nat): (r: seq<Row<Job>>)
    ensures |r| <= |t|
    ensures forall x :: x in r <==> x in t && x.val.customerId != customerId
  {
    if t == [] then []
    else
      var rest := WithoutJobsOf(t[1..], customerId);
      assert forall x :: x in t <==> x == t[0] || x in t[1..];
      if t[0].val.customerId == customerId then rest else [t[0]] + rest
  }

  /** Deleting a customer's jobs keeps rowids increasing. */
  lemma {:induction false} WithoutJobsIncreasing(t: seq<Row<Job>>, customerId: nat)
    requires Increasing(t)
    ensures Increasing(WithoutJobsOf(t, customerId))
  {
    if t != [] {
      WithoutJobsIncreasing(t[1..], customerId);
      var rest := WithoutJobsOf(t[1..], customerId);
      forall k | 0 <= k < |rest|
        ensures t[0].id < rest[k].id
      {
        assert rest[k] in t[1..];
      }
    }
  }

  /** An id among the table's ids belongs to some row. */
  lemma IdsHaveRow<T>(t: seq<Row<T>>, id: nat) returns (k: nat)
    requires id in Ids(t)
    ensures k < |t| && t[k].id == id
  {
    k :| 0 <= k < |Ids(t)| && Ids(t)[k] == id;
  }

  // ---------------------------------------------------------------------
  // The estimate screen as saving reads it and loading writes it.

  /**
   * The fields of the estimate screen: the line items, the loaded job id,
   * the selected customer, the job name entry and the four adjustment entries.
   */
  datatype Form = Form(lines: seq<LineItem>, jobId: Option<nat>, customerId: Option<nat>, jobName: string,
                       markup: Entry, installQty: Entry, installCost: Entry, misc: Entry)

  /** The grand total the screen shows for a form. */
  function FormTotal(f: Form): real {
    ComputeTotals(f.lines, f.markup, f.installQty, f.installCost, f.misc).grandTotal
  }

  /**
   * `clear_estimate`: an empty new estimate, with the default markup and
   * default install price from the settings in their entries.
   */
  function Cleared(settings: map<string, string>): Form {
    Form([], None, None, "",
         Typed(LoadSetting(settings, "default_markup", "")), Blank,
         Typed(LoadSetting(settings, "default_install_price", "")), Blank)
  }

  /** A cleared estimate totals zero whatever the defaults are. */
  lemma ClearedTotalsZero(settings: map<string, string>)
    ensures FormTotal(Cleared(settings)) == 0.0
    ensures Cleared(settings).jobId.None? && Cleared(settings).lines == []
  {
  }

  /** Python's truth value of an id that may be None: None and 0 are false. */
  predicate Truthy(id: Option<nat>) {
    id.Some? && id.value != 0
  }

  /** A job row whose installation total is its quantity times its unit price. */
  predicate InstallConsistent(job: Job) {
    job.installQty.Some? && job.installUnitPrice.Some?
    && job.installTotal == Some(InstallCharge(job.installQty.value, job.installUnitPrice.value))
  }

  /** The header row `save_estimate` writes: every adjustment read with parse-or-zero. */
  function JobRecord(customerId: nat, f: Form): (j: Job)
    ensures j.totalAmount == FormTotal(f) && InstallConsistent(j)
    ensures j.installQty == Some(OrZero(f.installQty)) && j.installUnitPrice == Some(OrZero(f.installCost))
    ensures j.installTotal == Some(InstallCharge(OrZero(f.installQty), OrZero(f.installCost)))
  {
    Job(customerId, Strip(f.jobName), FormTotal(f),
        Some(InstallCharge(OrZero(f.installQty), OrZero(f.installCost))), Some(OrZero(f.markup)), Some(OrZero(f.misc)),
        Some(OrZero(f.installQty)), Some(OrZero(f.installCost)))
  }

  /** The UPDATE of `save_estimate`: every column but customer_id. */
  function UpdateJob(t: seq<Row<Job>>, id: nat, f: Form): (r: seq<Row<Job>>)
    ensures |r| == |t| && Ids(r) == Ids(t)
    ensures forall k :: 0 <= k < |t| ==>
              r[k] == if t[k].id == id then Row(id, JobRecord(t[k].val.customerId, f)) else t[k]
  {
    if t == [] then []
    else [if t[0].id == id then Row(id, JobRecord(t[0].val.customerId, f)) else t[0]] + UpdateJob(t[1..], id, f)
  }

  /** What a save leaves behind: both tables and the job id the screen now holds. */
  datatype Saved = Saved(jobs: seq<Row<Job>>, lines: seq<Row<Line>>, jobId: nat)

  /**
   * `save_estimate`: nothing without a selected customer; a new estimate
   * is inserted under the next free job id; a loaded one is updated in
   * place and its stored lines replaced; then every line item is inserted.
   */
  function SaveJob(jobs: seq<Row<Job>>, lines: seq<Row<Line>>, f: Form): (r: Option<Saved>)
    ensures r.None? <==> !Truthy(f.customerId)
  {
    if !Truthy(f.customerId) then None
    else
      match f.jobId
      case None =>
        var id := NextId(jobs);
        Some(Saved(jobs + [Row(id, JobRecord(f.customerId.value, f))], AppendLines(lines, id, f.lines), id))
      case Some(j) =>
        Some(Saved(UpdateJob(jobs, j, f), AppendLines(WithoutLinesOf(lines, {j}), j, f.lines), j))
  }

  /** A line as `load_estimate` rebuilds it: a NULL or empty category reads "Write-in". */
  function LoadedLine(l: Line): (x: LineItem)
    ensures x.name == l.itemName && x.qty == l.quantity && x.unitPrice == l.unitPrice && x.total == l.lineTotal
    ensures x.category != ""
    ensures l.categoryName.Some? && l.categoryName.value != "" ==> x.category == l.categoryName.value
    ensures l.categoryName.None? ==> x.category == WriteInCategory
  {
    var category := match l.categoryName
      case None => WriteInCategory
      case Some(c) => if c == "" then WriteInCategory else c;
    LineItem(l.itemName, category, l.quantity, l.unitPrice, l.lineTotal)
  }

  function LoadedLines(ls: seq<Line>): (r: seq<LineItem>)
    ensures |r| == |ls| && forall k :: 0 <= k < |ls| ==> r[k] == LoadedLine(ls[k])
  {
    seq(|ls|, k requires 0 <= k < |ls| => LoadedLine(ls[k]))
  }

  /**
   * The installation entries `load_estimate` fills in: the stored quantity
   * and unit price when both are present and the quantity is positive;
   * otherwise, for older rows, quantity 1 at the stored install total when
   * that is positive; otherwise both blank. None when that fallback compares
   * a NULL install total, which raises and ends the load.
   */
  function InstallFields(job: Job): (r: Option<(Entry, Entry)>)
    ensures r.None? ==> job.installTotal.None?
    ensures r.Some? ==> r.value.0 == Blank || r.value.0.Shown?
  {
    if job.installQty.Some? && job.installUnitPrice.Some? && job.installQty.value > 0.0 then
      Some((Shown(job.installQty.value), Shown(job.installUnitPrice.value)))
    else
      match job.installTotal
      case None => None
      case Some(total) => if total > 0.0 then Some((Shown(1.0), Shown(total))) else Some((Blank, Blank))
  }

  /**
   * `load_estimate`: starts from a cleared screen; a missing job leaves it
   * so. Otherwise the job id (unless duplicating), customer, name, lines and
   * markup are filled in; the installation entries follow `InstallFields`
   * and misc is filled in; a duplicate then loses its job id and gains
   * " (Copy)". When the installation fallback raises, the load stops with
   * the installation and misc entries blank.
   */
  function LoadJob(settings: map<string, string>, jobs: seq<Row<Job>>, lines: seq<Row<Line>>, jobId: nat, duplicate: bool)
    : (f: Form)
    ensures Find(jobs, jobId).None? ==> f == Cleared(settings)
    ensures f.jobId == if Find(jobs, jobId).Some? && !duplicate then Some(jobId) else None
  {
    var f := Cleared(settings);
    match Find(jobs, jobId)
    case None => f
    case Some(job) =>
      var loaded := f.(jobId := if duplicate then None else Some(jobId),
                       customerId := Some(job.customerId), jobName := job.jobName,
                       lines := LoadedLines(JobLines(lines, jobId)),
                       markup := Shown(job.markupPercent.GetOr(0.0)),
                       installQty := Blank, installCost := Blank);
      match InstallFields(job)
      case None => loaded
      case Some((qty, cost)) =>
        var complete := loaded.(installQty := qty, installCost := cost, misc := Shown(job.miscCharge.GetOr(0.0)));
        if duplicate then complete.(jobName := job.jobName + " (Copy)") else complete
  }

  /** `delete_job` and `delete_current_estimate`: the job's lines and the job row go. */
  function DeleteJob(jobs: seq<Row<Job>>, lines: seq<Row<Line>>, jobId: nat): (r: (seq<Row<Job>>, seq<Row<Line>>))
    ensures jobId !in Ids(r.0)
  {
    (DeleteId(jobs, jobId), WithoutLinesOf(lines, {jobId}))
  }

  /**
   * `delete_customer` with the cascade completed: the customer's jobs, their
   * lines, and the customer row.
   */
  function DeleteCustomer(customers: seq<Row<Customer>>, jobs: seq<Row<Job>>, lines: seq<Row<Line>>, customerId: nat)
    : (r: (seq<Row<Customer>>, seq<Row<Job>>, seq<Row<Line>>))
    ensures customerId !in Ids(r.0) && forall x :: x in r.0 <==> x in customers && x.id != customerId
    ensures forall x :: x in r.1 <==> x in jobs && x.val.customerId != customerId
    ensures forall x :: x in r.2 <==> x in lines && x.val.jobId !in JobIdsOf(jobs, customerId)
  {
    (DeleteId(customers, customerId), WithoutJobsOf(jobs, customerId), WithoutLinesOf(lines, JobIdsOf(jobs, customerId)))
  }

  // ---------------------------------------------------------------------
  // What saving, loading and deleting promise.

  /** A job id no line names has no stored lines. */
  lemma {:induction false} NoLinesOf(lines: seq<Row<Line>>, jobId: nat)
    requires forall k :: 0 <= k < |lines| ==> lines[k].val.jobId != jobId
    ensures JobLines(lines, jobId) == []
  {
    if lines != [] {
      assert forall k :: 0 <= k < |lines[1..]| ==> lines[1..][k] == lines[k + 1];
      NoLinesOf(lines[1..], jobId);
    }
  }

  /** The lines a save leaves belong to jobs that exist. */
  lemma SavedLinesHaveJobs(jobs: seq<Row<Job>>, lines: seq<Row<Line>>, f: Form)
    requires NoOrphans(jobs, lines) && Truthy(f.customerId)
    requires f.jobId.None? || f.jobId.value in Ids(jobs)
    ensures var s := SaveJob(jobs, lines, f).value;
            s.jobId in Ids(s.jobs) && (forall id :: id in Ids(jobs) ==> id in Ids(s.jobs)) && NoOrphans(s.jobs, s.lines)
  {
    var s := SaveJob(jobs, lines, f).value;
    var base := if f.jobId.None? then lines else WithoutLinesOf(lines, {s.jobId});
    assert s.lines == AppendLines(base, s.jobId, f.lines);
    if f.jobId.None? {
      assert Ids(s.jobs)[|jobs|] == s.jobId;
      forall id | id in Ids(jobs) ensures id in Ids(s.jobs) {
        var k :| 0 <= k < |jobs| && Ids(jobs)[k] == id;
        assert Ids(s.jobs)[k] == id;
      }
    }
    forall k | 0 <= k < |s.lines| ensures s.lines[k].val.jobId in Ids(s.jobs) {
      if k < |base| {
        assert s.lines[k] == base[k];
        assert base[k] in lines;
        var m :| 0 <= m < |lines| && lines[m] == base[k];
      } else {
        AppendLinesOwner(base, s.jobId, f.lines, k);
      }
    }
  }

  /**
   * What a save writes. A first save adds one job under a fresh id; a
   * later save keeps the same jobs and rewrites that row, keeping its
   * customer. The stored job carries the screen's grand total, and, unless
   * a first save meets old lines already carrying the fresh id, the job's
   * stored lines are exactly the line items in order. A database without
   * orphan lines stays so.
   */
  lemma SaveJobEffect(jobs: seq<Row<Job>>, lines: seq<Row<Line>>, f: Form)
    requires Increasing(jobs) && Increasing(lines) && Truthy(f.customerId)
    requires f.jobId.None? || f.jobId.value in Ids(jobs)
    requires f.jobId.None? ==> forall k :: 0 <= k < |lines| ==> lines[k].val.jobId != NextId(jobs)
    ensures var s := SaveJob(jobs, lines, f).value;
            Increasing(s.jobs) && Increasing(s.lines) && (NoOrphans(jobs, lines) ==> NoOrphans(s.jobs, s.lines))
            && (f.jobId.None? ==> s.jobId !in Ids(jobs) && Ids(s.jobs) == Ids(jobs) + [s.jobId]
                                  && Find(s.jobs, s.jobId) == Some(JobRecord(f.customerId.value, f)))
            && (f.jobId.Some? ==> s.jobId == f.jobId.value && Ids(s.jobs) == Ids(jobs)
                                  && Find(s.jobs, s.jobId) == Some(JobRecord(Find(jobs, s.jobId).value.customerId, f)))
            && Find(s.jobs, s.jobId).value.totalAmount == FormTotal(f)
            && JobLines(s.lines, s.jobId) == LineRows(s.jobId, f.lines)
  {
    if NoOrphans(jobs, lines) {
      SavedLinesHaveJobs(jobs, lines, f);
    }
    if f.jobId.None? {
      SaveNewJob(jobs, lines, f);
    } else {
      SaveLoadedJob(jobs, lines, f);
    }
  }

  /** The first save of an estimate: a fresh id, appended last. */
  lemma SaveNewJob(jobs: seq<Row<Job>>, lines: seq<Row<Line>>, f: Form)
    requires Increasing(jobs) && Increasing(lines) && Truthy(f.customerId) && f.jobId.None?
    requires forall k :: 0 <= k < |lines| ==> lines[k].val.jobId != NextId(jobs)
    ensures var s := SaveJob(jobs, lines, f).value;
            Increasing(s.jobs) && Increasing(s.lines)
            && s.jobId !in Ids(jobs) && Ids(s.jobs) == Ids(jobs) + [s.jobId]
            && Find(s.jobs, s.jobId) == Some(JobRecord(f.customerId.value, f))
            && JobLines(s.lines, s.jobId) == LineRows(s.jobId, f.lines)
  {
    var s := SaveJob(jobs, lines, f).value;
    InsertKeepsIncreasing(jobs, JobRecord(f.customerId.value, f));
    AppendLinesIncreasing(lines, s.jobId, f.lines);
    assert Ids(s.jobs) == Ids(jobs) + [s.jobId];
    FindUnique(s.jobs, |jobs|);
    NoLinesOf(lines, s.jobId);
    AppendLinesRead(lines, s.jobId, f.lines, s.jobId + 1);
  }

  /** A later save of a loaded estimate: the same id, its row and lines rewritten. */
  lemma SaveLoadedJob(jobs: seq<Row<Job>>, lines: seq<Row<Line>>, f: Form)
    requires Increasing(jobs) && Increasing(lines) && Truthy(f.customerId)
    requires f.jobId.Some? && f.jobId.value in Ids(jobs)
    ensures var s := SaveJob(jobs, lines, f).value;
            Increasing(s.jobs) && Increasing(s.lines)
            && s.jobId == f.jobId.value && Ids(s.jobs) == Ids(jobs)
            && Find(s.jobs, s.jobId) == Some(JobRecord(Find(jobs, s.jobId).value.customerId, f))
            && JobLines(s.lines, s.jobId) == LineRows(s.jobId, f.lines)
  {
    var s := SaveJob(jobs, lines, f).value;
    var j := s.jobId;
    var k :| 0 <= k < |jobs| && Ids(jobs)[k] == j;
    SameIdsIncreasing(jobs, s.jobs);
    FindUnique(jobs, k);
    FindUnique(s.jobs, k);
    WithoutLinesIncreasing(lines, {j});
    AppendLinesIncreasing(WithoutLinesOf(lines, {j}), j, f.lines);
    WithoutLinesRead(lines, {j}, j);
    AppendLinesRead(WithoutLinesOf(lines, {j}), j, f.lines, j + 1);
  }

  /** Appending a job row under another id does not change what is found under `other`. */
  lemma AppendKeepsFind(jobs: seq<Row<Job>>, x: Row<Job>, other: nat)
    requires Increasing(jobs) && Increasing(jobs + [x]) && x.id != other
    ensures Find(jobs + [x], other) == Find(jobs, other)
  {
    forall v ensures Row(other, v) in jobs + [x] <==> Row(other, v) in jobs {
    }
    FindAgrees(jobs + [x], jobs, other);
  }

  /** Updating job `j` does not change what is found under any other id. */
  lemma UpdateKeepsFind(jobs: seq<Row<Job>>, j: nat, f: Form, other: nat)
    requires Increasing(jobs) && j != other
    ensures Increasing(UpdateJob(jobs, j, f)) && Find(UpdateJob(jobs, j, f), other) == Find(jobs, other)
  {
    var u := UpdateJob(jobs, j, f);
    SameIdsIncreasing(jobs, u);
    forall v ensures Row(other, v) in u <==> Row(other, v) in jobs {
      if Row(other, v) in u {
        var k :| 0 <= k < |u| && u[k] == Row(other, v);
        assert jobs[k] == u[k];
      }
      if Row(other, v) in jobs {
        var k :| 0 <= k < |jobs| && jobs[k] == Row(other, v);
        assert u[k] == jobs[k];
      }
    }
    FindAgrees(u, jobs, other);
  }

  /** A save touches no other job and no other job's lines. */
  lemma SaveKeepsOtherJobs(jobs: seq<Row<Job>>, lines: seq<Row<Line>>, f: Form, other: nat)
    requires Increasing(jobs) && Truthy(f.customerId)
    requires other != SaveJob(jobs, lines, f).value.jobId
    ensures var s := SaveJob(jobs, lines, f).value;
            Find(s.jobs, other) == Find(jobs, other) && JobLines(s.lines, other) == JobLines(lines, other)
  {
    var s := SaveJob(jobs, lines, f).value;
    if f.jobId.None? {
      AppendLinesRead(lines, s.jobId, f.lines, other);
      InsertKeepsIncreasing(jobs, JobRecord(f.customerId.value, f));
      AppendKeepsFind(jobs, Row(s.jobId, JobRecord(f.customerId.value, f)), other);
    } else {
      WithoutLinesRead(lines, {s.jobId}, other);
      AppendLinesRead(WithoutLinesOf(lines, {s.jobId}), s.jobId, f.lines, other);
      UpdateKeepsFind(jobs, s.jobId, f, other);
    }
  }

  /** A sum of line totals depends on the totals only. */
  lemma {:induction false} SubtotalOfTotals(a: seq<LineItem>, b: seq<LineItem>)
    requires |a| == |b| && forall k :: 0 <= k < |a| ==> a[k].total == b[k].total
    ensures Subtotal(a) == Subtotal(b)
  {
    if a != [] {
      SubtotalOfTotals(a[1..], b[1..]);
    }
  }

  /** One stored line reads back as its item exactly when the item's category is not empty. */
  lemma LineRoundTrip(jobId: nat, item: LineItem)
    ensures LoadedLine(LineRow(jobId, item)) == item <==> item.category != ""
    ensures LoadedLine(LineRow(jobId, item)).total == item.total
  {
  }

  /** Stored lines read back as the same line items exactly when no item has an empty category. */
  lemma LinesRoundTrip(jobId: nat, items: seq<LineItem>)
    ensures LoadedLines(LineRows(jobId, items)) == items <==> forall k :: 0 <= k < |items| ==> items[k].category != ""
    ensures Subtotal(LoadedLines(LineRows(jobId, items))) == Subtotal(items)
  {
    LinesReadBack(jobId, items);
    var back := LoadedLines(LineRows(jobId, items));
    forall k | 0 <= k < |items| ensures back[k].total == items[k].total {
      LineRoundTrip(jobId, items[k]);
    }
    SubtotalOfTotals(back, items);
  }

  /** The list part of `LinesRoundTrip`, line by line. */
  lemma LinesReadBack(jobId: nat, items: seq<LineItem>)
    ensures LoadedLines(LineRows(jobId, items)) == items <==> forall k :: 0 <= k < |items| ==> items[k].category != ""
  {
    var back := LoadedLines(LineRows(jobId, items));
    if forall k :: 0 <= k < |items| ==> items[k].category != "" {
      forall k | 0 <= k < |items| ensures back[k] == items[k] {
        LineRoundTrip(jobId, items[k]);
      }
    } else {
      var k :| 0 <= k < |items| && items[k].category == "";
      LineRoundTrip(jobId, items[k]);
      assert back[k] != items[k];
    }
  }

  /**
   * The installation entries a saved job loads into multiply back to the
   * saved installation total, except when a negative quantity was saved
   * with a positive price: that total is negative and loads as blank.
   */
  lemma InstallRoundTrip(job: Job)
    requires InstallConsistent(job)
    ensures InstallFields(job).Some?
    ensures var (qty, cost) := InstallFields(job).value;
            var q := job.installQty.value;
            var p := job.installUnitPrice.value;
            InstallCharge(OrZero(qty), OrZero(cost)) == InstallCharge(q, p) <==> !(q < 0.0 && p > 0.0)
  {
    var q, p := job.installQty.value, job.installUnitPrice.value;
    if q > 0.0 {
      assert InstallFields(job).value == (Shown(q), Shown(p));
    } else {
      ChargeSign(q, p);
      var total := InstallCharge(q, p);
      if total > 0.0 {
        assert InstallFields(job).value == (Shown(1.0), Shown(total));
        assert InstallCharge(1.0, total) == total;
      } else {
        assert InstallFields(job).value == (Blank, Blank);
        assert InstallCharge(0.0, 0.0) == 0.0;
      }
    }
  }

  /** A charge at a quantity of zero or less is negative exactly when the price is positive and the quantity negative. */
  lemma ChargeSign(q: real, p: real)
    requires q <= 0.0
    ensures InstallCharge(q, p) < 0.0 <==> q < 0.0 && p > 0.0
  {
    if q < 0.0 && p > 0.0 {
      assert q * p < 0.0 by {
        assert (-q) * p > 0.0;
      }
    }
    if !(q < 0.0 && p > 0.0) {
      assert q * p >= 0.0 by {
        if q < 0.0 {
          assert (-q) * (-p) >= 0.0;
        }
      }
    }
  }

  /**
   * Two forms with the same subtotal, markup and misc figures have the
   * same grand total exactly when their installation products agree.
   */
  lemma TotalsAgree(f: Form, g: Form)
    requires Subtotal(f.lines) == Subtotal(g.lines)
    requires OrZero(f.markup) == OrZero(g.markup) && OrZero(f.misc) == OrZero(g.misc)
    ensures FormTotal(g) == FormTotal(f)
            <==> InstallCharge(OrZero(g.installQty), OrZero(g.installCost))
                 == InstallCharge(OrZero(f.installQty), OrZero(f.installCost))
  {
  }

  /** The screen a load leaves for a job that exists, field by field. */
  lemma LoadJobFound(settings: map<string, string>, jobs: seq<Row<Job>>, lines: seq<Row<Line>>, jobId: nat, job: Job,
                     duplicate: bool)
    requires Find(jobs, jobId) == Some(job)
    ensures var install := InstallFields(job);
            LoadJob(settings, jobs, lines, jobId, duplicate)
            == Form(LoadedLines(JobLines(lines, jobId)), if duplicate then None else Some(jobId), Some(job.customerId),
                    if install.Some? && duplicate then job.jobName + " (Copy)" else job.jobName,
                    Shown(job.markupPercent.GetOr(0.0)),
                    if install.Some? then install.value.0 else Blank,
                    if install.Some? then install.value.1 else Blank,
                    if install.Some? then Shown(job.miscCharge.GetOr(0.0)) else Cleared(settings).misc)
  {
  }

  /** The fields a load fills in for a job that exists and whose installation entries can be read. */
  lemma LoadedFields(settings: map<string, string>, jobs: seq<Row<Job>>, lines: seq<Row<Line>>, jobId: nat, job: Job)
    requires Find(jobs, jobId) == Some(job) && InstallFields(job).Some?
    ensures var g := LoadJob(settings, jobs, lines, jobId, false);
            g == Form(LoadedLines(JobLines(lines, jobId)), Some(jobId), Some(job.customerId), job.jobName,
                      Shown(job.markupPercent.GetOr(0.0)), InstallFields(job).value.0, InstallFields(job).value.1,
                      Shown(job.miscCharge.GetOr(0.0)))
  {
  }

  /**
   * Loading a job stored from form `f` restores the name as stored, the
   * line items exactly when none has an empty category, the markup and
   * misc figures, and the grand total unless a negative installation
   * quantity was stored with a positive price.
   */
  lemma LoadRestores(settings: map<string, string>, jobs: seq<Row<Job>>, lines: seq<Row<Line>>, jobId: nat,
                     customerId: nat, f: Form)
    requires Find(jobs, jobId) == Some(JobRecord(customerId, f))
    requires JobLines(lines, jobId) == LineRows(jobId, f.lines)
    ensures var g := LoadJob(settings, jobs, lines, jobId, false);
            g.jobId == Some(jobId) && g.customerId == Some(customerId) && g.jobName == Strip(f.jobName)
            && (g.lines == f.lines <==> forall k :: 0 <= k < |f.lines| ==> f.lines[k].category != "")
            && OrZero(g.markup) == OrZero(f.markup) && OrZero(g.misc) == OrZero(f.misc)
            && (FormTotal(g) == FormTotal(f) <==> !(OrZero(f.installQty) < 0.0 && OrZero(f.installCost) > 0.0))
  {
    var job := JobRecord(customerId, f);
    InstallRoundTrip(job);
    LoadedFields(settings, jobs, lines, jobId, job);
    LinesRoundTrip(jobId, f.lines);
    var g := LoadJob(settings, jobs, lines, jobId, false);
    TotalsAgree(f, g);
  }

  /**
   * Saving and then loading the saved job restores the screen: the same
   * job id, the stripped job name, the customer on a first save, the line
   * items exactly when none has an empty category, the markup and misc
   * figures, and the grand total unless a negative installation quantity
   * was saved with a positive price.
   */
  lemma SaveThenLoad(settings: map<string, string>, jobs: seq<Row<Job>>, lines: seq<Row<Line>>, f: Form)
    requires Increasing(jobs) && Increasing(lines) && NoOrphans(jobs, lines) && Truthy(f.customerId)
    requires f.jobId.None? || f.jobId.value in Ids(jobs)
    ensures var s := SaveJob(jobs, lines, f).value;
            var g := LoadJob(settings, s.jobs, s.lines, s.jobId, false);
            g.jobId == Some(s.jobId) && g.jobName == Strip(f.jobName)
            && (f.jobId.None? ==> g.customerId == f.customerId)
            && (g.lines == f.lines <==> forall k :: 0 <= k < |f.lines| ==> f.lines[k].category != "")
            && OrZero(g.markup) == OrZero(f.markup) && OrZero(g.misc) == OrZero(f.misc)
            && (FormTotal(g) == FormTotal(f) <==> !(OrZero(f.installQty) < 0.0 && OrZero(f.installCost) > 0.0))
  {
    var s := SaveJob(jobs, lines, f).value;
    SaveJobEffect(jobs, lines, f);
    var customerId := if f.jobId.None? then f.customerId.value else Find(jobs, s.jobId).value.customerId;
    LoadRestores(settings, s.jobs, s.lines, s.jobId, customerId, f);
  }

  /**
   * An older row with no usable installation quantity and a positive
   * install total loads as quantity 1 at that total, so the total survives.
   */
  lemma LegacyInstallFallback(job: Job)
    requires job.installQty.None? || job.installUnitPrice.None? || job.installQty.value <= 0.0
    requires job.installTotal.Some? && job.installTotal.value > 0.0
    ensures InstallFields(job) == Some((Shown(1.0), Shown(job.installTotal.value)))
    ensures InstallCharge(OrZero(InstallFields(job).value.0), OrZero(InstallFields(job).value.1)) == job.installTotal.value
  {
  }

  /**
   * Loading as a duplicate gives the plain load without the job id and with
   * " (Copy)" after the name, and saving that copy adds a new job and leaves
   * the original and its lines untouched.
   */
  lemma DuplicateLoad(settings: map<string, string>, jobs: seq<Row<Job>>, lines: seq<Row<Line>>, jobId: nat)
    requires Increasing(jobs) && Increasing(lines) && NoOrphans(jobs, lines)
    requires Find(jobs, jobId).Some? && InstallFields(Find(jobs, jobId).value).Some?
    ensures var plain := LoadJob(settings, jobs, lines, jobId, false);
            var copy := LoadJob(settings, jobs, lines, jobId, true);
            plain.jobId == Some(jobId) && copy == plain.(jobId := None, jobName := plain.jobName + " (Copy)")
    ensures var copy := LoadJob(settings, jobs, lines, jobId, true);
            Truthy(copy.customerId) ==>
              var s := SaveJob(jobs, lines, copy).value;
              s.jobId != jobId && Find(s.jobs, jobId) == Find(jobs, jobId) && JobLines(s.lines, jobId) == JobLines(lines, jobId)
  {
    var copy := LoadJob(settings, jobs, lines, jobId, true);
    if Truthy(copy.customerId) {
      SaveJobEffect(jobs, lines, copy);
      SaveKeepsOtherJobs(jobs, lines, copy, jobId);
    }
  }

  /**
   * Deleting a job removes it and all its lines, keeps every other job and
   * its lines, and leaves no orphan line where there was none before.
   */
  lemma DeleteJobEffect(jobs: seq<Row<Job>>, lines: seq<Row<Line>>, jobId: nat, other: nat)
    requires Increasing(jobs) && Increasing(lines) && other != jobId
    ensures var (jobs', lines') := DeleteJob(jobs, lines, jobId);
            Find(jobs', jobId).None? && JobLines(lines', jobId) == []
            && Find(jobs', other) == Find(jobs, other) && JobLines(lines', other) == JobLines(lines, other)
            && Increasing(jobs') && Increasing(lines') && (NoOrphans(jobs, lines) ==> NoOrphans(jobs', lines'))
  {
    var (jobs', lines') := DeleteJob(jobs, lines, jobId);
    DeleteIdKeepsIncreasing(jobs, jobId);
    WithoutLinesIncreasing(lines, {jobId});
    WithoutLinesRead(lines, {jobId}, jobId);
    WithoutLinesRead(lines, {jobId}, other);
    FindAgrees(jobs', jobs, other);
    if NoOrphans(jobs, lines) {
      NoOrphansAfterDelete(jobs, lines, jobs', {jobId});
    }
  }

  /**
   * Deleting a customer with the cascade completed removes the customer,
   * every job of theirs and those jobs' lines, keeps every other job and
   * every other job's lines, and leaves no orphan line.
   */
  lemma DeleteCustomerEffect(customers: seq<Row<Customer>>, jobs: seq<Row<Job>>, lines: seq<Row<Line>>, customerId: nat, other: nat)
    requires Increasing(jobs) && Increasing(lines) && NoOrphans(jobs, lines)
    requires other !in JobIdsOf(jobs, customerId)
    ensures var (customers', jobs', lines') := DeleteCustomer(customers, jobs, lines, customerId);
            customerId !in Ids(customers')
            && (forall k :: 0 <= k < |jobs'| ==> jobs'[k].val.customerId != customerId)
            && (forall x :: x in jobs && x.val.customerId != customerId ==> x in jobs')
            && Find(jobs', other) == Find(jobs, other) && JobLines(lines', other) == JobLines(lines, other)
            && Increasing(jobs') && Increasing(lines') && NoOrphans(jobs', lines')
  {
    var (customers', jobs', lines') := DeleteCustomer(customers, jobs, lines, customerId);
    var gone := JobIdsOf(jobs, customerId);
    WithoutJobsIncreasing(jobs, customerId);
    WithoutLinesIncreasing(lines, gone);
    WithoutLinesRead(lines, gone, other);
    forall k | 0 <= k < |jobs'| ensures jobs'[k].val.customerId != customerId {
      assert jobs'[k] in jobs';
    }
    forall v ensures Row(other, v) in jobs' <==> Row(other, v) in jobs {
      if Row(other, v) in jobs {
        var k :| 0 <= k < |jobs| && jobs[k] == Row(other, v);
      }
    }
    FindAgrees(jobs', jobs, other);
    forall x | x in jobs && x.id !in gone ensures x in jobs' {
      var k :| 0 <= k < |jobs| && jobs[k] == x;
    }
    NoOrphansAfterDelete(jobs, lines, jobs', gone);
  }

  /**
   * Deleting a customer keeps both tables in rowid order, and leaves no
   * orphan line when there was none before.
   */
  lemma DeleteCustomerKeepsOrder(customers: seq<Row<Customer>>, jobs: seq<Row<Job>>, lines: seq<Row<Line>>, customerId: nat)
    requires Increasing(jobs) && Increasing(lines)
    ensures var (_, jobs', lines') := DeleteCustomer(customers, jobs, lines, customerId);
            Increasing(jobs') && Increasing(lines') && (NoOrphans(jobs, lines) ==> NoOrphans(jobs', lines'))
  {
    WithoutJobsIncreasing(jobs, customerId);
    WithoutLinesIncreasing(lines, JobIdsOf(jobs, customerId));
    if NoOrphans(jobs, lines) {
      DeleteCustomerEffect(customers, jobs, lines, customerId, NextId(jobs));
    }
  }

  /** Deleting the lines of the jobs that go, while every other job stays, leaves no orphan line. */
  lemma NoOrphansAfterDelete(jobs: seq<Row<Job>>, lines: seq<Row<Line>>, jobs': seq<Row<Job>>, gone: set<nat>)
    requires NoOrphans(jobs, lines)
    requires forall x :: x in jobs && x.id !in gone ==> x in jobs'
    ensures NoOrphans(jobs', WithoutLinesOf(lines, gone))
  {
    var lines' := WithoutLinesOf(lines, gone);
    forall k | 0 <= k < |lines'| ensures lines'[k].val.jobId in Ids(jobs') {
      assert lines'[k] in lines;
      var m :| 0 <= m < |lines| && lines[m] == lines'[k];
      var n :| 0 <= n < |jobs| && Ids(jobs)[n] == lines[m].val.jobId;
      assert jobs[n] in jobs;
      InIds(jobs', jobs[n]);
    }
  }
}
