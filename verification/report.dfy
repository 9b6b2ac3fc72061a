/** The analysis script's report over the builder's table: each row
    annotated with its verdict, the pass/fail summary with the failure rate,
    the frequency of each failure-reason combination among failed rows, and
    the count of rows per (label, status) pair. */
module Report {

  import opened Options
  import opened Lexicographic
  import opened Sorting
  import opened Counting
  import opened Classifier
  import opened Dataset

  /** A builder row with the two columns the analysis adds. */
  datatype AnnotatedRow = AnnotatedRow(row: ImageRow, status: Status, failReasons: string)

  /** Applies the classifier to every row: same rows in the same order, each
      with its verdict, nothing else changed. */
  function Annotate(rows: seq<ImageRow>): (out: seq<AnnotatedRow>)
    ensures |out| == |rows|
    ensures forall i :: 0 <= i < |rows| ==> out[i].row == rows[i]
    ensures forall i :: 0 <= i < |rows| ==>
              Verdict(out[i].status, out[i].failReasons) == ClassifyRow(rows[i].brightness, rows[i].contrast)
    ensures forall i :: 0 <= i < |rows| ==> (out[i].status == Fail <==> out[i].failReasons != "")
  {
    seq(|rows|, i requires 0 <= i < |rows| =>
      var v := ClassifyRow(rows[i].brightness, rows[i].contrast);
      AnnotatedRow(rows[i], v.status, v.failReasons))
  }

  /** The `Status` column. */
  function Statuses(rows: seq<AnnotatedRow>): (ss: seq<Status>)
    ensures |ss| == |rows|
    ensures forall i :: 0 <= i < |rows| ==> ss[i] == rows[i].status
  {
    seq(|rows|, i requires 0 <= i < |rows| => rows[i].status)
  }

  /** The `Label` column. */
  function Labels(rows: seq<AnnotatedRow>): (ls: seq<string>)
    ensures |ls| == |rows|
    ensures forall i :: 0 <= i < |rows| ==> ls[i] == rows[i].row.labelName
  {
    seq(|rows|, i requires 0 <= i < |rows| => rows[i].row.labelName)
  }

  /** The (`Label`, `Status`) key of every row. */
  function Pairs(rows: seq<AnnotatedRow>): (ps: seq<(string, Status)>)
    ensures |ps| == |rows|
    ensures forall i :: 0 <= i < |rows| ==> ps[i] == (rows[i].row.labelName, rows[i].status)
  {
    seq(|rows|, i requires 0 <= i < |rows| => (rows[i].row.labelName, rows[i].status))
  }

  // ---------------------------------------------------------------------
  // Pass/fail summary

  datatype Summary = Summary(total: nat, passed: nat, failed: nat, failureRate: real)

  /** Total, failed (rows whose status is FAIL), passed (the rest) and the
      failure rate in percent, which is 0 for an empty table. */
  function Summarize(rows: seq<AnnotatedRow>): (s: Summary)
    ensures s.total == |rows|
    ensures s.failed == Occ(Statuses(rows), Fail)
    ensures s.passed == Occ(Statuses(rows), Pass)
    ensures s.passed + s.failed == s.total
    ensures s.total == 0 ==> s.failureRate == 0.0
    ensures s.total > 0 ==> s.failureRate * (s.total as real) == (s.failed as real) * 100.0
    ensures 0.0 <= s.failureRate <= 100.0
  {
    var total := |rows|;
    var failed := Occ(Statuses(rows), Fail);
    PassAndFailCoverAll(rows);
    var passed := total - failed;
    var rate := if total > 0 then RatePercent(failed, total) else 0.0;
    Summary(total, passed, failed, rate)
  }

  /** `failed / total * 100` for `failed` out of `total > 0`. */
  function RatePercent(failed: nat, total: nat): (rate: real)
    requires 0 < total
    requires failed <= total
    ensures rate * (total as real) == (failed as real) * 100.0
    ensures 0.0 <= rate <= 100.0
  {
    var ratio := (failed as real) / (total as real);
    assert ratio * (total as real) == failed as real;
    assert (ratio - 1.0) * (total as real) <= 0.0;
    ratio * 100.0
  }

  /** Every row is either PASS or FAIL. */
  lemma PassAndFailCoverAll(rows: seq<AnnotatedRow>)
    ensures Occ(Statuses(rows), Pass) + Occ(Statuses(rows), Fail) == |rows|
  {
    var keys := [Fail, Pass];
    var ss := Statuses(rows);
    forall s | s in ss
      ensures s in keys
    {
      match s
      case Pass =>
      case Fail =>
    }
    SumOfCounts(ss, keys);
    var counts := OccAll(ss, keys);
    assert counts[..1] == [Occ(ss, Fail)];
    assert counts[..1][..0] == [];
    assert Sum(counts) == Sum(counts[..1]) + Occ(ss, Pass);
  }

  // ---------------------------------------------------------------------
  // Failure-reason combinations

  /** The `Fail_Reasons` cells of the FAIL rows, in row order. */
  function FailedReasons(rows: seq<AnnotatedRow>): seq<string>
  {
    if |rows| == 0 then []
    else
      var prev := FailedReasons(rows[..|rows| - 1]);
      var last := rows[|rows| - 1];
      if last.status == Fail then prev + [last.failReasons] else prev
  }

  lemma {:induction false} FailedReasonsCount(rows: seq<AnnotatedRow>)
    ensures |FailedReasons(rows)| == Occ(Statuses(rows), Fail)
  {
    if |rows| > 0 {
      FailedReasonsCount(rows[..|rows| - 1]);
      assert Statuses(rows)[..|rows| - 1] == Statuses(rows[..|rows| - 1]);
    }
  }

  lemma {:induction false} FailedReasonsFrom(rows: seq<AnnotatedRow>)
    ensures forall x :: x in FailedReasons(rows) ==>
              exists i :: 0 <= i < |rows| && rows[i].status == Fail && rows[i].failReasons == x
  {
    if |rows| > 0 {
      var p := rows[..|rows| - 1];
      FailedReasonsFrom(p);
      forall x | x in FailedReasons(rows)
        ensures exists i :: 0 <= i < |rows| && rows[i].status == Fail && rows[i].failReasons == x
      {
        if x in FailedReasons(p) {
          var i :| 0 <= i < |p| && p[i].status == Fail && p[i].failReasons == x;
          assert rows[i] == p[i];
        } else {
          assert rows[|rows| - 1].failReasons == x;
        }
      }
    }
  }

  /** The breakdown of reason combinations over the FAIL rows: absent when
      nothing failed; otherwise each combination once, with the number of
      FAIL rows carrying it, the counts adding up to the failures. */
  function ReasonBreakdown(rows: seq<AnnotatedRow>): (b: Option<seq<(string, nat)>>)
    ensures b.None? <==> Occ(Statuses(rows), Fail) == 0
    ensures b.Some? ==> Sum(Counts(b.value)) == Occ(Statuses(rows), Fail)
    ensures b.Some? ==> forall i, j :: 0 <= i < j < |b.value| ==> b.value[i].0 != b.value[j].0
    ensures b.Some? ==> forall i :: 0 <= i < |b.value| ==>
              b.value[i].1 == Occ(FailedReasons(rows), b.value[i].0) && b.value[i].1 > 0
    ensures b.Some? ==> forall i :: 0 <= i < |b.value| ==>
              exists k :: 0 <= k < |rows| && rows[k].status == Fail && rows[k].failReasons == b.value[i].0
  {
    var fs := FailedReasons(rows);
    FailedReasonsCount(rows);
    FailedReasonsFrom(rows);
    if |fs| == 0 then None
    else
      var vc := ValueCounts(fs);
      assert forall i :: 0 <= i < |vc| ==> vc[i].0 in fs by {
        forall i | 0 <= i < |vc|
          ensures vc[i].0 in fs
        {
          OccPositive(fs, vc[i].0);
        }
      }
      Some(vc)
  }

  // ---------------------------------------------------------------------
  // Label by status table

  /** `groupby(["Label", "Status"]).size().unstack(fill_value=0)`: one row per
      label, one column per status, each cell a count. */
  datatype CrossTab = CrossTab(labels: seq<string>, statuses: seq<Status>, counts: seq<seq<nat>>)

  /** The statuses that occur, in the order of their column names ("FAIL"
      before "PASS"). */
  function PresentStatuses(rows: seq<AnnotatedRow>): (ss: seq<Status>)
    ensures forall s :: s in ss <==> s in Statuses(rows)
    ensures forall i, j :: 0 <= i < j < |ss| ==> Less(StatusText(ss[i]), StatusText(ss[j]))
  {
    var st := Statuses(rows);
    assert Less("FAIL", "PASS");
    (if Fail in st then [Fail] else []) + (if Pass in st then [Pass] else [])
  }

  /** The statuses of the rows labelled `labelName`, in row order. */
  function StatusesLabelled(rows: seq<AnnotatedRow>, labelName: string): (ss: seq<Status>)
    ensures forall s :: s in ss ==> s in Statuses(rows)
  {
    if |rows| == 0 then []
    else
      var prev := StatusesLabelled(rows[..|rows| - 1], labelName);
      var last := rows[|rows| - 1];
      assert Statuses(rows[..|rows| - 1]) == Statuses(rows)[..|rows| - 1];
      if last.row.labelName == labelName then prev + [last.status] else prev
  }

  function LabelStatusTable(rows: seq<AnnotatedRow>): (t: CrossTab)
    ensures StrictlyAscending(t.labels)
    ensures forall l :: l in t.labels <==> l in Labels(rows)
    ensures forall s :: s in t.statuses <==> s in Statuses(rows)
    ensures forall i, j :: 0 <= i < j < |t.statuses| ==> Less(StatusText(t.statuses[i]), StatusText(t.statuses[j]))
    ensures |t.counts| == |t.labels|
    ensures forall i :: 0 <= i < |t.labels| ==> |t.counts[i]| == |t.statuses|
    ensures forall i, j :: 0 <= i < |t.labels| && 0 <= j < |t.statuses| ==>
              t.counts[i][j] == Occ(Pairs(rows), (t.labels[i], t.statuses[j]))
  {
    var labels := Dedup(SortBy(Labels(rows), Id));
    var statuses := PresentStatuses(rows);
    var counts := seq(|labels|, i requires 0 <= i < |labels| =>
      seq(|statuses|, j requires 0 <= j < |statuses| => Occ(Pairs(rows), (labels[i], statuses[j]))));
    SortByKeepsElements(Labels(rows), Id);
    CrossTab(labels, statuses, counts)
  }

  /** The per-label totals of a table: the sum of each label's row. */
  function RowSums(t: CrossTab): (sums: seq<nat>)
    ensures |sums| == |t.counts|
  {
    seq(|t.counts|, i requires 0 <= i < |t.counts| => Sum(t.counts[i]))
  }

  lemma {:induction false} PairsCountLabelled(rows: seq<AnnotatedRow>, labelName: string, s: Status)
    ensures Occ(Pairs(rows), (labelName, s)) == Occ(StatusesLabelled(rows, labelName), s)
    ensures |StatusesLabelled(rows, labelName)| == Occ(Labels(rows), labelName)
  {
    if |rows| > 0 {
      var p := rows[..|rows| - 1];
      PairsCountLabelled(p, labelName, s);
      assert Pairs(rows)[..|rows| - 1] == Pairs(p);
      assert Labels(rows)[..|rows| - 1] == Labels(p);
    }
  }

  lemma StrictlyAscendingNoDuplicates(s: seq<string>)
    requires StrictlyAscending(s)
    ensures NoDuplicates(s)
  {
    forall i, j | 0 <= i < j < |s|
      ensures s[i] != s[j]
    {
      LessIrreflexive(s[i]);
    }
  }

  /** Summing one label's row of the table gives the number of rows with
      that label; cells of combinations that never occur are 0. */
  lemma LabelRowSums(rows: seq<AnnotatedRow>)
    ensures var t := LabelStatusTable(rows);
            forall i :: 0 <= i < |t.labels| ==> RowSums(t)[i] == Occ(Labels(rows), t.labels[i])
    ensures var t := LabelStatusTable(rows);
            forall i, j :: 0 <= i < |t.labels| && 0 <= j < |t.statuses| ==>
              (t.counts[i][j] == 0 <==> (t.labels[i], t.statuses[j]) !in Pairs(rows))
  {
    var t := LabelStatusTable(rows);
    forall i | 0 <= i < |t.labels|
      ensures RowSums(t)[i] == Occ(Labels(rows), t.labels[i])
    {
      var l := t.labels[i];
      var ls := StatusesLabelled(rows, l);
      forall j | 0 <= j < |t.statuses|
        ensures t.counts[i][j] == OccAll(ls, t.statuses)[j]
      {
        PairsCountLabelled(rows, l, t.statuses[j]);
      }
      assert t.counts[i] == OccAll(ls, t.statuses);
      assert NoDuplicates(t.statuses) by {
        forall a, b | 0 <= a < b < |t.statuses|
          ensures t.statuses[a] != t.statuses[b]
        {
          LessIrreflexive(StatusText(t.statuses[a]));
        }
      }
      SumOfCounts(ls, t.statuses);
      PairsCountLabelled(rows, l, Pass);
    }
    forall i, j | 0 <= i < |t.labels| && 0 <= j < |t.statuses|
      ensures t.counts[i][j] == 0 <==> (t.labels[i], t.statuses[j]) !in Pairs(rows)
    {
      OccPositive(Pairs(rows), (t.labels[i], t.statuses[j]));
    }
  }

  /** Summing every cell of the table gives the number of rows. */
  lemma TableTotal(rows: seq<AnnotatedRow>)
    ensures Sum(RowSums(LabelStatusTable(rows))) == |rows|
  {
    var t := LabelStatusTable(rows);
    LabelRowSums(rows);
    assert RowSums(t) == OccAll(Labels(rows), t.labels);
    StrictlyAscendingNoDuplicates(t.labels);
    SumOfCounts(Labels(rows), t.labels);
  }

  // ---------------------------------------------------------------------
  // The whole analysis

  datatype Analysis = Analysis(
    annotated: seq<AnnotatedRow>,
    summary: Summary,
    breakdown: Option<seq<(string, nat)>>,
    table: CrossTab)

  /** The analysis script from classification to the label table. */
  function Analyze(rows: seq<ImageRow>): (a: Analysis)
    ensures |a.annotated| == |rows|
    ensures forall i :: 0 <= i < |rows| ==> a.annotated[i].row == rows[i]
    ensures a.summary.total == |rows|
    ensures a.summary.passed + a.summary.failed == |rows|
    ensures a.breakdown.None? <==> a.summary.failed == 0
    ensures a.breakdown.Some? ==> Sum(Counts(a.breakdown.value)) == a.summary.failed
    ensures a.breakdown.Some? ==> forall i :: 0 <= i < |a.breakdown.value| ==> a.breakdown.value[i].0 != ""
    ensures Sum(RowSums(a.table)) == |rows|
  {
    var annotated := Annotate(rows);
    var b := ReasonBreakdown(annotated);
    TableTotal(annotated);
    Analysis(annotated, Summarize(annotated), b, LabelStatusTable(annotated))
  }
}
