/**
 * Three places where the program as written departs from what it evidently
 * means to do, each modelled as written with an input that shows the
 * departure. The rest of the model uses the corrected behaviour.
 */
module Findings {
  import opened Wrappers
  import opened Totals
  import opened Tables
  import opened Jobs
  import opened Estimate

  // ---------------------------------------------------------------------
  // delete_customer leaves the deleted jobs' lines behind.

  /**
   * `delete_customer` as written: the customer's jobs and the customer row
   * are deleted, and estimate_line_items is not touched.
   */
  function DeleteCustomerAsWritten(customers: seq<Row<Customer>>, jobs: seq<Row<Job>>, lines: seq<Row<Line>>, customerId: nat)
    : (r: (seq<Row<Customer>>, seq<Row<Job>>, seq<Row<Line>>))
    ensures customerId !in Ids(r.0) && r.2 == lines
    ensures forall k :: 0 <= k < |r.1| ==> r.1[k].val.customerId != customerId
  {
    var jobs' := WithoutJobsOf(jobs, customerId);
    assert forall k :: 0 <= k < |jobs'| ==> jobs'[k] in jobs';
    (DeleteId(customers, customerId), jobs', lines)
  }

  /**
   * One customer with one job of one line. After the customer is deleted
   * the line is an orphan; since the job was the last row, the next new
   * estimate (for any selected customer, with no lines at all) is given the
   * same job id, and loading it shows the deleted job's line.
   */
  lemma OrphanLinesJoinNextEstimate(settings: map<string, string>, customer: Customer, job: Job, line: Line, f: Form)
    requires job.customerId == 1 && line.jobId == 1
    requires Truthy(f.customerId) && f.jobId.None? && f.lines == []
    ensures var (_, jobs', lines') := DeleteCustomerAsWritten([Row(1, customer)], [Row(1, job)], [Row(1, line)], 1);
            var s := SaveJob(jobs', lines', f).value;
            !NoOrphans(jobs', lines')
            && s.jobId == 1
            && LoadJob(settings, s.jobs, s.lines, s.jobId, false).lines == [LoadedLine(line)] != f.lines
  {
    var r := DeleteCustomerAsWritten([Row(1, customer)], [Row(1, job)], [Row(1, line)], 1);
    OnlyCustomerJobsGo(job);
    assert r.1 == [] && r.2 == [Row(1, line)];
    assert Ids(r.1) == [] && r.2[0].val.jobId == 1;
    assert !NoOrphans(r.1, r.2);
    var rec := JobRecord(f.customerId.value, f);
    SaveIntoNoJobs(r.2, f);
    var s := SaveJob(r.1, r.2, f).value;
    assert s == Saved([Row(1, rec)], r.2, 1);
    assert Find(s.jobs, 1) == Some(rec);
    LoadJobFound(settings, s.jobs, s.lines, 1, rec, false);
    assert r.2[1..] == [];
    assert JobLines(s.lines, 1) == [line];
  }

  /** Deleting the customer of the only job leaves no jobs. */
  lemma OnlyCustomerJobsGo(job: Job)
    requires job.customerId == 1
    ensures WithoutJobsOf([Row(1, job)], 1) == []
  {
    var r := WithoutJobsOf([Row(1, job)], 1);
    assert forall x :: x !in r;
  }

  /** A new estimate with no lines, saved when there are no jobs, becomes job 1 and adds no line. */
  lemma SaveIntoNoJobs(lines: seq<Row<Line>>, f: Form)
    requires Truthy(f.customerId) && f.jobId.None? && f.lines == []
    ensures SaveJob([], lines, f) == Some(Saved([Row(1, JobRecord(f.customerId.value, f))], lines, 1))
  {
    assert NextId<Job>([]) == 1;
    assert AppendLines(lines, 1, []) == lines;
    var id := NextId<Job>([]);
    assert SaveJob([], lines, f) == Some(Saved([] + [Row(id, JobRecord(f.customerId.value, f))], AppendLines(lines, id, f.lines), id));
    assert [] + [Row(id, JobRecord(f.customerId.value, f))] == [Row(1, JobRecord(f.customerId.value, f))];
  }

  // ---------------------------------------------------------------------
  // clear_estimate keeps the index of the line being edited.

  /**
   * `clear_estimate` as written, on the screen fields and the index of the
   * line being edited: the screen is cleared, the index is kept.
   */
  function ClearEstimateAsWritten(settings: map<string, string>, editing: Option<nat>): (r: (Form, Option<nat>))
    ensures r.0.lines == [] && r.0.jobId.None? && r.1 == editing
  {
    (Cleared(settings), editing)
  }

  /**
   * Clicking Edit on any line and then New Estimate leaves the screen in
   * edit mode on an empty list: the next catalog line is not added (the
   * pop raises IndexError), and once a write-in line fills that position,
   * the next catalog line replaces it instead of being appended.
   */
  lemma EditThenNewEstimateLosesLines(settings: map<string, string>, i: nat, x: LineItem, writeIns: seq<LineItem>)
    requires |writeIns| == i + 1
    ensures var (f, editing) := ClearEstimateAsWritten(settings, Some(i));
            PlaceLine(f.lines, editing, x).None?
            && PlaceLine(f.lines + writeIns, editing, x) == Some(writeIns[i := x])
            && |PlaceLine(f.lines + writeIns, editing, x).value| == |writeIns|
  {
    var (f, editing) := ClearEstimateAsWritten(settings, Some(i));
    assert f.lines + writeIns == writeIns;
  }

  /**
   * `load_estimate` as written: it starts with `clear_estimate`, so it too
   * keeps the index of the line being edited.
   */
  function LoadEstimateAsWritten(settings: map<string, string>, jobs: seq<Row<Job>>, lines: seq<Row<Line>>,
                                 jobId: nat, duplicate: bool, editing: Option<nat>): (r: (Form, Option<nat>))
    ensures r.1 == editing
    ensures Find(jobs, jobId).None? ==> r.0 == ClearEstimateAsWritten(settings, editing).0
  {
    (LoadJob(settings, jobs, lines, jobId, duplicate), ClearEstimateAsWritten(settings, editing).1)
  }

  /**
   * Clicking Edit on line i and then loading a job with more than i lines:
   * the next catalog line replaces the loaded job's line i, where a fresh
   * load would have appended it.
   */
  lemma EditThenLoadReplacesLine(settings: map<string, string>, jobs: seq<Row<Job>>, lines: seq<Row<Line>>,
                                 jobId: nat, duplicate: bool, i: nat, x: LineItem)
    requires i < |LoadJob(settings, jobs, lines, jobId, duplicate).lines|
    ensures var (f, editing) := LoadEstimateAsWritten(settings, jobs, lines, jobId, duplicate, Some(i));
            PlaceLine(f.lines, editing, x) == Some(f.lines[i := x])
            && PlaceLine(f.lines, editing, x) != PlaceLine(f.lines, None, x)
  {
    var (f, editing) := LoadEstimateAsWritten(settings, jobs, lines, jobId, duplicate, Some(i));
    assert |PlaceLine(f.lines, editing, x).value| != |PlaceLine(f.lines, None, x).value|;
  }
}
