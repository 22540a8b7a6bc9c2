/**
 * What the two dashboard routes promise, stated over the reference definitions
 * and over the Summary a successful route renders.
 */
module DashboardProperties {
  import opened Wrappers
  import opened PyText
  import opened DashboardSpec
  import opened Collections

  // ---------------------------------------------------------------- exceptions

  /** The first exception in a sequence of per-row outcomes. */
  function FirstSome(faults: seq<Option<Fault>>): Option<Fault> {
    if faults == [] then None
    else match FirstSome(faults[..|faults| - 1])
      case Some(f) => Some(f)
      case None => faults[|faults| - 1]
  }

  lemma {:induction false} FirstSomeSpec(faults: seq<Option<Fault>>)
    ensures FirstSome(faults).None? <==> forall k :: 0 <= k < |faults| ==> faults[k].None?
    ensures FirstSome(faults).Some? ==>
      exists k :: 0 <= k < |faults| && FirstSome(faults) == faults[k] && forall j :: 0 <= j < k ==> faults[j].None?
  {
    if faults != [] {
      var init := faults[..|faults| - 1];
      FirstSomeSpec(init);
      if FirstSome(init).Some? {
        var k :| 0 <= k < |init| && FirstSome(init) == init[k] && forall j :: 0 <= j < k ==> init[j].None?;
        assert faults[k] == init[k];
      } else {
        assert forall k :: 0 <= k < |init| ==> faults[k] == init[k];
      }
    }
  }

  /** What each row raises, row by row. */
  function RowFaults(rows: seq<Row>, route: Route): (faults: seq<Option<Fault>>)
    ensures |faults| == |rows|
  {
    seq(|rows|, k requires 0 <= k < |rows| => RowFault(rows[k], route))
  }

  lemma {:induction false} FirstFaultOfRowFaults(rows: seq<Row>, route: Route)
    ensures FirstFault(rows, route) == FirstSome(RowFaults(rows, route))
  {
    if rows != [] {
      var init := rows[..|rows| - 1];
      FirstFaultOfRowFaults(init, route);
      assert RowFaults(rows, route)[..|rows| - 1] == RowFaults(init, route);
    }
  }

  /** The request fails exactly when some row raises, and then with the exception of the first such row. */
  lemma FirstFaultIsFirstRowFault(rows: seq<Row>, route: Route)
    ensures FirstFault(rows, route).None? <==> forall k :: 0 <= k < |rows| ==> RowFault(rows[k], route).None?
    ensures FirstFault(rows, route).Some? ==>
      exists k :: 0 <= k < |rows| && FirstFault(rows, route) == RowFault(rows[k], route)
                  && forall j :: 0 <= j < k ==> RowFault(rows[j], route).None?
  {
    var faults := RowFaults(rows, route);
    FirstFaultOfRowFaults(rows, route);
    FirstSomeSpec(faults);
    assert forall k :: 0 <= k < |rows| ==> faults[k] == RowFault(rows[k], route);
    if FirstSome(faults).Some? {
      var k :| 0 <= k < |faults| && FirstSome(faults) == faults[k] && forall j :: 0 <= j < k ==> faults[j].None?;
      assert FirstFault(rows, route) == RowFault(rows[k], route);
    }
  }

  /**
   * /dashboard raises only KeyError, and it does so exactly when a row whose status is
   * Completed or In Progress carries an integer tag outside 1..17.
   */
  lemma DashboardFaultIsKeyError(rows: seq<Row>)
    ensures FirstFault(rows, Dashboard).Some? ==> FirstFault(rows, Dashboard).value.KeyError?
    ensures FirstFault(rows, Dashboard).Some? <==>
      exists k, j :: 0 <= k < |rows| && Tracked(rows[k].status) && 0 <= j < |RowGoals(rows[k])| && !IsGoal(RowGoals(rows[k])[j])
  {
    FirstFaultIsFirstRowFault(rows, Dashboard);
    forall k | 0 <= k < |rows| {
      FirstNonGoalSpec(RowGoals(rows[k]));
    }
  }

  /** str(n) is read back as the single tag n. */
  lemma ShownTagReadsBack(n: int)
    ensures Split(ShowInt(n), ',') == [ShowInt(n)]
    ensures GoalNumbers(Split(ShowInt(n), ',')) == [n]
  {
    var s := ShowInt(n);
    assert s[0] == '-' || IsDigit(s[0]);
    assert forall i :: 0 <= i < |s| ==> s[i] == '-' || IsDigit(s[i]);
    assert ',' !in s;
    JoinThenSplit([s], ',');
    BlankIffAllSpace(s);
    ParseShowInt(n);
    assert PieceNumber(s) == Some(n);
    assert [s][..0] == [];
  }

  /**
   * A row of status Completed or In Progress whose first number outside 1..17 is n
   * ends the request with KeyError(n), unless an earlier row already raised.
   */
  lemma OutOfRangeTagEndsRequest(rows: seq<Row>, route: Route, k: nat, n: int)
    requires k < |rows| && FirstFault(rows[..k], route).None?
    requires Tracked(rows[k].status) && FirstNonGoal(RowGoals(rows[k])) == Some(n)
    ensures FirstFault(rows, route) == Some(KeyError(n))
  {
    assert rows[k].sdg.Some?;
    assert GoalFault(rows[k], route) == Some(KeyError(n));
    assert rows[..k + 1][..k] == rows[..k];
    FaultPersists(rows, route, k + 1);
  }

  /** In particular a row whose whole SDG field is str(n), n outside 1..17. */
  lemma ShownOutOfRangeTagEndsRequest(rows: seq<Row>, route: Route, k: nat, n: int)
    requires k < |rows| && FirstFault(rows[..k], route).None?
    requires rows[k].sdg == Some(ShowInt(n)) && Tracked(rows[k].status) && !IsGoal(n)
    ensures FirstFault(rows, route) == Some(KeyError(n))
  {
    ShownTagReadsBack(n);
    assert SdgPieces(rows[k]) == Split(ShowInt(n), ',');
    assert [n][..0] == [];
    assert FirstNonGoal([n]) == Some(n);
    OutOfRangeTagEndsRequest(rows, route, k, n);
  }

  // ---------------------------------------------------------------- status totals

  /** The number of rows whose status is Completed or In Progress. */
  function TrackedRows(rows: seq<Row>): nat {
    if rows == [] then 0
    else TrackedRows(rows[..|rows| - 1]) + (if Tracked(rows[|rows| - 1].status) then 1 else 0)
  }

  lemma {:induction false} TrackedRowsBound(rows: seq<Row>)
    ensures StatusRows(rows, Completed) + StatusRows(rows, InProgress) == TrackedRows(rows)
    ensures TrackedRows(rows) <= |rows|
    ensures TrackedRows(rows) == |rows| <==> forall k :: 0 <= k < |rows| ==> Tracked(rows[k].status)
  {
    if rows != [] {
      var init := rows[..|rows| - 1];
      TrackedRowsBound(init);
      assert forall k :: 0 <= k < |init| ==> rows[k] == init[k];
    }
  }

  /**
   * /dashboard counts every row in total_projects and each project once in its status
   * total, so the two status totals add up to at most the total, and to exactly the
   * total when every status is Completed or In Progress.
   */
  lemma DashboardStatusTotals(s: Summary, rows: seq<Row>)
    requires Summarizes(s, rows, Dashboard)
    ensures s.totalProjects == |rows|
    ensures s.completedCount + s.inProgressCount <= s.totalProjects
    ensures s.completedCount + s.inProgressCount == s.totalProjects <==> forall k :: 0 <= k < |rows| ==> Tracked(rows[k].status)
  {
    TrackedRowsBound(rows);
  }

  /** sum of multiset(ns)[t] for t in 1..k. */
  function CountUpTo(ns: seq<int>, k: nat): nat {
    if k == 0 then 0 else CountUpTo(ns, k - 1) + multiset(ns)[k]
  }

  /** The number of elements of ns in 1..k. */
  function CountIn(ns: seq<int>, k: nat): nat {
    if ns == [] then 0
    else CountIn(ns[..|ns| - 1], k) + (if 1 <= ns[|ns| - 1] <= k then 1 else 0)
  }

  lemma {:induction false} CountInStep(ns: seq<int>, k: nat)
    requires k >= 1
    ensures CountIn(ns, k) == CountIn(ns, k - 1) + multiset(ns)[k]
  {
    if ns != [] {
      var init := ns[..|ns| - 1];
      CountInStep(init, k);
      assert ns == init + [ns[|ns| - 1]];
    }
  }

  lemma {:induction false} CountUpToIsCountIn(ns: seq<int>, k: nat)
    ensures CountUpTo(ns, k) == CountIn(ns, k)
  {
    if k > 0 {
      CountUpToIsCountIn(ns, k - 1);
      CountInStep(ns, k);
    } else {
      CountInZero(ns);
    }
  }

  lemma {:induction false} CountInZero(ns: seq<int>)
    ensures CountIn(ns, 0) == 0
  {
    if ns != [] {
      CountInZero(ns[..|ns| - 1]);
    }
  }

  lemma {:induction false} CountInAllGoals(ns: seq<int>)
    requires forall j :: 0 <= j < |ns| ==> IsGoal(ns[j])
    ensures CountIn(ns, 17) == |ns|
  {
    if ns != [] {
      CountInAllGoals(ns[..|ns| - 1]);
    }
  }

  /** sum of GoalTally(rows, status, t) for t in 1..k. */
  function GoalTallySum(rows: seq<Row>, status: string, k: nat): nat {
    if k == 0 then 0 else GoalTallySum(rows, status, k - 1) + GoalTally(rows, status, k)
  }

  lemma {:induction false} GoalTallySumStep(rows: seq<Row>, status: string, k: nat)
    requires rows != []
    ensures GoalTallySum(rows, status, k) == GoalTallySum(rows[..|rows| - 1], status, k)
      + (if rows[|rows| - 1].status == status then CountUpTo(RowGoals(rows[|rows| - 1]), k) else 0)
  {
    if k > 0 {
      GoalTallySumStep(rows, status, k - 1);
    }
  }

  lemma {:induction false} GoalTallySumOfNoRows(status: string, k: nat)
    ensures GoalTallySum([], status, k) == 0
  {
    if k > 0 {
      GoalTallySumOfNoRows(status, k - 1);
    }
  }

  /** When every tag of a row of that status is a goal, the per-tag total is the sum of the goal tallies. */
  lemma {:induction false} TagCountIsGoalTallySum(rows: seq<Row>, status: string)
    requires forall k :: 0 <= k < |rows| && rows[k].status == status ==>
      forall j :: 0 <= j < |RowGoals(rows[k])| ==> IsGoal(RowGoals(rows[k])[j])
    ensures TagCount(rows, status) == GoalTallySum(rows, status, 17)
  {
    if rows != [] {
      var init, last := rows[..|rows| - 1], rows[|rows| - 1];
      assert forall k :: 0 <= k < |init| ==> rows[k] == init[k];
      TagCountIsGoalTallySum(init, status);
      GoalTallySumStep(rows, status, 17);
      assert TagCount(rows, status) == TagCount(init, status) + (if last.status == status then |RowGoals(last)| else 0);
      if last.status == status {
        CountUpToIsCountIn(RowGoals(last), 17);
        CountInAllGoals(RowGoals(last));
        assert CountUpTo(RowGoals(last), 17) == |RowGoals(last)|;
      }
    } else {
      GoalTallySumOfNoRows(status, 17);
    }
  }

  /** sum of stats[t].completed, or of stats[t].inProgress, for t in 1..k. */
  function StatsSum(stats: map<int, Tally>, status: string, k: nat): nat {
    if k == 0 then 0
    else
      var tally := if k in stats then stats[k] else Tally(0, 0);
      StatsSum(stats, status, k - 1) + (if status == Completed then tally.completed else tally.inProgress)
  }

  lemma {:induction false} StatsSumIsGoalTallySum(s: Summary, rows: seq<Row>, route: Route, status: string, k: nat)
    requires Summarizes(s, rows, route) && Tracked(status) && k <= 17
    ensures StatsSum(s.sdgStats, status, k) == GoalTallySum(rows, status, k)
  {
    if k > 0 {
      StatsSumIsGoalTallySum(s, rows, route, status, k - 1);
      assert k in Goals;
    }
  }

  /**
   * /dashboard2 counts a status once per goal tag: when it renders, completed_count is
   * the sum over the goals of sdg_stats[t]["completed"], and likewise in_progress_count.
   */
  lemma Dashboard2StatusTotals(s: Summary, rows: seq<Row>)
    requires Summarizes(s, rows, Dashboard2) && FirstFault(rows, Dashboard2).None?
    ensures s.completedCount == StatsSum(s.sdgStats, Completed, 17)
    ensures s.inProgressCount == StatsSum(s.sdgStats, InProgress, 17)
  {
    FirstFaultIsFirstRowFault(rows, Dashboard2);
    forall k | 0 <= k < |rows| && Tracked(rows[k].status)
      ensures forall j :: 0 <= j < |RowGoals(rows[k])| ==> IsGoal(RowGoals(rows[k])[j])
    {
      FirstNonGoalSpec(RowGoals(rows[k]));
      assert RowFault(rows[k], Dashboard2).None?;
    }
    TagCountIsGoalTallySum(rows, Completed);
    TagCountIsGoalTallySum(rows, InProgress);
    StatsSumIsGoalTallySum(s, rows, Dashboard2, Completed, 17);
    StatsSumIsGoalTallySum(s, rows, Dashboard2, InProgress, 17);
  }

  /** On rows that carry exactly one goal tag each, the per-tag and per-project status totals agree. */
  lemma {:induction false} SingleTagRowsAgree(rows: seq<Row>, status: string)
    requires forall k :: 0 <= k < |rows| ==> |RowGoals(rows[k])| == 1
    ensures StatusTotal(rows, Dashboard2, status) == StatusTotal(rows, Dashboard, status)
  {
    if rows != [] {
      var init := rows[..|rows| - 1];
      assert forall k :: 0 <= k < |init| ==> rows[k] == init[k];
      SingleTagRowsAgree(init, status);
    }
  }

  // ---------------------------------------------------------------- goal tags

  /** The number of pieces that int() reads as t. */
  function TokenCount(pieces: seq<string>, t: int): nat {
    if pieces == [] then 0
    else TokenCount(pieces[..|pieces| - 1], t) + (if PieceNumber(pieces[|pieces| - 1]) == Some(t) then 1 else 0)
  }

  /** Each piece that int() reads as t adds one to the count of t; every other piece adds nothing. */
  lemma {:induction false} GoalCountIsTokenCount(pieces: seq<string>, t: int)
    ensures multiset(GoalNumbers(pieces))[t] == TokenCount(pieces, t)
  {
    if pieces != [] {
      GoalCountIsTokenCount(pieces[..|pieces| - 1], t);
    }
  }

  /**
   * One more row adds, to the tally of goal t for the row's status, one for each piece
   * of its SDG field that int() reads as t, and nothing to the tallies of other statuses.
   */
  lemma GoalTallyOfNextRow(rows: seq<Row>, row: Row, status: string, t: int)
    ensures GoalTally(rows + [row], status, t) ==
      GoalTally(rows, status, t) + (if row.status == status then TokenCount(SdgPieces(row), t) else 0)
  {
    assert (rows + [row])[..|rows|] == rows;
    GoalCountIsTokenCount(SdgPieces(row), t);
  }

  // ---------------------------------------------------------------- campuses

  /** The index of the first counted row carrying campus, or |rows| when no counted row does. */
  function FirstRow(rows: seq<Row>, route: Route, campus: Option<string>): (k: nat)
    ensures k <= |rows|
  {
    if rows == [] then 0
    else
      var k := FirstRow(rows[..|rows| - 1], route, campus);
      var row := rows[|rows| - 1];
      if k < |rows| - 1 then k
      else if CampusCounted(row, route) && row.campus == campus then |rows| - 1
      else |rows|
  }

  /**
   * The campus labels are the campus values of counted rows, each once, ordered by the
   * row where each is first met.
   */
  lemma {:induction false} CampusLabelsFirstSeen(rows: seq<Row>, route: Route)
    ensures forall c :: c in CampusLabels(rows, route) <==> FirstRow(rows, route, c) < |rows|
    ensures forall i, j :: 0 <= i < j < |CampusLabels(rows, route)| ==>
      FirstRow(rows, route, CampusLabels(rows, route)[i]) < FirstRow(rows, route, CampusLabels(rows, route)[j])
    ensures Distinct(CampusLabels(rows, route))
  {
    if rows != [] {
      var init := rows[..|rows| - 1];
      CampusLabelsFirstSeen(init, route);
    }
  }

  /** The number of rows whose campus is counted. */
  function CountedRows(rows: seq<Row>, route: Route): nat {
    if rows == [] then 0
    else CountedRows(rows[..|rows| - 1], route) + (if CampusCounted(rows[|rows| - 1], route) then 1 else 0)
  }

  /** The counts of the given labels. */
  function CountsOf(rows: seq<Row>, route: Route, labels: seq<Option<string>>): seq<nat> {
    seq(|labels|, i requires 0 <= i < |labels| => CampusCount(rows, route, labels[i]))
  }

  lemma {:induction false} SumOfCountsStep(rows: seq<Row>, route: Route, labels: seq<Option<string>>)
    requires rows != []
    ensures Sum(CountsOf(rows, route, labels)) == Sum(CountsOf(rows[..|rows| - 1], route, labels))
      + (if CampusCounted(rows[|rows| - 1], route) then Occurrences(labels, rows[|rows| - 1].campus) else 0)
  {
    if labels != [] {
      var init := labels[..|labels| - 1];
      SumOfCountsStep(rows, route, init);
      assert CountsOf(rows, route, labels)[..|init|] == CountsOf(rows, route, init);
      assert CountsOf(rows[..|rows| - 1], route, labels)[..|init|] == CountsOf(rows[..|rows| - 1], route, init);
    }
  }

  /** Summing the counts of distinct labels that cover every counted campus counts every counted row once. */
  lemma {:induction false} SumOfCounts(rows: seq<Row>, route: Route, labels: seq<Option<string>>)
    requires Distinct(labels)
    requires forall k :: 0 <= k < |rows| && CampusCounted(rows[k], route) ==> rows[k].campus in labels
    ensures Sum(CountsOf(rows, route, labels)) == CountedRows(rows, route)
  {
    if rows != [] {
      var init := rows[..|rows| - 1];
      assert forall k :: 0 <= k < |init| ==> rows[k] == init[k];
      SumOfCounts(init, route, labels);
      SumOfCountsStep(rows, route, labels);
      OccurrencesOfDistinct(labels, rows[|rows| - 1].campus);
    } else {
      SumOfNoCounts(route, labels);
    }
  }

  lemma {:induction false} SumOfNoCounts(route: Route, labels: seq<Option<string>>)
    ensures Sum(CountsOf([], route, labels)) == 0
  {
    if labels != [] {
      SumOfNoCounts(route, labels[..|labels| - 1]);
      assert CountsOf([], route, labels)[..|labels| - 1] == CountsOf([], route, labels[..|labels| - 1]);
    }
  }

  /**
   * The campus chart: distinct labels in first-seen order, one count per label, and the
   * counts add up to the counted rows, which on /dashboard are all the rows (None and
   * "" included) and on /dashboard2 the rows whose campus is not blank.
   */
  lemma CampusChart(s: Summary, rows: seq<Row>, route: Route)
    requires Summarizes(s, rows, route)
    ensures |s.campusData| == |s.campusLabels|
    ensures Distinct(s.campusLabels)
    ensures forall i, j :: 0 <= i < j < |s.campusLabels| ==>
      FirstRow(rows, route, s.campusLabels[i]) < FirstRow(rows, route, s.campusLabels[j])
    ensures Sum(s.campusData) == CountedRows(rows, route)
    ensures route == Dashboard ==> Sum(s.campusData) == |rows|
  {
    var labels := CampusLabels(rows, route);
    CampusLabelsFirstSeen(rows, route);
    forall k | 0 <= k < |rows| && CampusCounted(rows[k], route)
      ensures rows[k].campus in labels
    {
      CampusLabelIffCounted(rows, route, rows[k].campus);
      CountedCampusIsCounted(rows, route, k);
    }
    SumOfCounts(rows, route, labels);
    assert s.campusData == CountsOf(rows, route, labels);
    if route == Dashboard {
      EveryRowCountedOnDashboard(rows);
    }
  }

  lemma {:induction false} CountedCampusIsCounted(rows: seq<Row>, route: Route, k: nat)
    requires k < |rows| && CampusCounted(rows[k], route)
    ensures CampusCount(rows, route, rows[k].campus) > 0
  {
    if k < |rows| - 1 {
      var init := rows[..|rows| - 1];
      assert init[k] == rows[k];
      CountedCampusIsCounted(init, route, k);
    }
  }

  lemma {:induction false} EveryRowCountedOnDashboard(rows: seq<Row>)
    ensures CountedRows(rows, Dashboard) == |rows|
  {
    if rows != [] {
      EveryRowCountedOnDashboard(rows[..|rows| - 1]);
    }
  }

  /** The labels that are not None and not blank, in order. */
  function NonBlankLabels(labels: seq<Option<string>>): (r: seq<Option<string>>)
    ensures forall c :: c in r <==> c in labels && c.Some? && !IsBlank(c.value)
  {
    if labels == [] then []
    else
      var c := labels[|labels| - 1];
      NonBlankLabels(labels[..|labels| - 1]) + (if c.Some? && !IsBlank(c.value) then [c] else [])
  }

  /**
   * /dashboard2's campus chart is /dashboard's with the None and blank labels removed:
   * the same labels in the same order, and each with the same count.
   */
  lemma Dashboard2CampusesFilterDashboard(rows: seq<Row>)
    ensures CampusLabels(rows, Dashboard2) == NonBlankLabels(CampusLabels(rows, Dashboard))
    ensures forall c: Option<string> :: c.Some? && !IsBlank(c.value) ==> CampusCount(rows, Dashboard2, c) == CampusCount(rows, Dashboard, c)
  {
    Dashboard2LabelsFilterDashboard(rows);
    Dashboard2CountsMatchDashboard(rows);
  }

  lemma {:induction false} Dashboard2LabelsFilterDashboard(rows: seq<Row>)
    ensures CampusLabels(rows, Dashboard2) == NonBlankLabels(CampusLabels(rows, Dashboard))
  {
    if rows != [] {
      var init := rows[..|rows| - 1];
      Dashboard2LabelsFilterDashboard(init);
      var labels := CampusLabels(init, Dashboard);
      var c := rows[|rows| - 1].campus;
      if c !in labels {
        NonBlankLabelsSnoc(labels, c);
      }
    }
  }

  lemma NonBlankLabelsSnoc(labels: seq<Option<string>>, c: Option<string>)
    ensures NonBlankLabels(labels + [c]) == NonBlankLabels(labels) + (if c.Some? && !IsBlank(c.value) then [c] else [])
  {
    assert (labels + [c])[..|labels|] == labels;
  }

  lemma {:induction false} Dashboard2CountsMatchDashboard(rows: seq<Row>)
    ensures forall c: Option<string> :: c.Some? && !IsBlank(c.value) ==> CampusCount(rows, Dashboard2, c) == CampusCount(rows, Dashboard, c)
  {
    if rows != [] {
      Dashboard2CountsMatchDashboard(rows[..|rows| - 1]);
    }
  }

  // ---------------------------------------------------------------- years

  /** The number of rows whose date yields a year from 2020 on. */
  function DatedSince2020(rows: seq<Row>): nat {
    if rows == [] then 0
    else
      var year := YearOf(rows[|rows| - 1]);
      DatedSince2020(rows[..|rows| - 1]) + (if year.Some? && year.value >= FirstYear then 1 else 0)
  }

  lemma {:induction false} SumOfSeriesStep(rows: seq<Row>, years: seq<int>)
    requires rows != []
    ensures Sum(YearSeries(rows, years)) == Sum(YearSeries(rows[..|rows| - 1], years))
      + (if YearOf(rows[|rows| - 1]).Some? then Occurrences(years, YearOf(rows[|rows| - 1]).value) else 0)
  {
    if years != [] {
      var init := years[..|years| - 1];
      SumOfSeriesStep(rows, init);
      assert YearSeries(rows, years)[..|init|] == YearSeries(rows, init);
      assert YearSeries(rows[..|rows| - 1], years)[..|init|] == YearSeries(rows[..|rows| - 1], init);
    }
  }

  lemma {:induction false} SumOfNoSeries(years: seq<int>)
    ensures Sum(YearSeries([], years)) == 0
  {
    if years != [] {
      SumOfNoSeries(years[..|years| - 1]);
      assert YearSeries([], years)[..|years| - 1] == YearSeries([], years[..|years| - 1]);
    }
  }

  /** The axis list(range(2020, end + 1)) holds each year of 2020..end once. */
  lemma YearAxisHolds(end: int, y: int)
    ensures Distinct(YearAxis(end))
    ensures y in YearAxis(end) <==> FirstYear <= y <= end
  {
    if FirstYear <= y <= end {
      assert YearAxis(end)[y - FirstYear] == y;
    }
  }

  /** Summing the series over the axis 2020..end counts every row whose year lies in 2020..end once. */
  lemma {:induction false} SumOfSeries(rows: seq<Row>, end: int)
    requires forall y :: y in ObservedYears(rows) ==> y <= end
    ensures Sum(YearSeries(rows, YearAxis(end))) == DatedSince2020(rows)
  {
    var years := YearAxis(end);
    if rows != [] {
      var init := rows[..|rows| - 1];
      var year := YearOf(rows[|rows| - 1]);
      assert ObservedYears(rows) == ObservedYears(init) + (if year.Some? then {year.value} else {});
      SumOfSeries(init, end);
      SumOfSeriesStep(rows, years);
      if year.Some? {
        YearAxisHolds(end, year.value);
        OccurrencesOfDistinct(years, year.value);
      }
    } else {
      SumOfNoSeries(years);
    }
  }

  /**
   * The year chart: the axis runs from 2020 up to the latest observed year, one count per
   * year; with no dated row it is [2020] with [0]; when every observed year is before 2020
   * it is empty; every observed year from 2020 on is on it, and the counts add up to the
   * rows dated from 2020 on, so earlier years are dropped.
   */
  lemma YearChart(s: Summary, rows: seq<Row>, route: Route)
    requires Summarizes(s, rows, route)
    ensures |s.programCounts| == |s.years|
    ensures forall i :: 0 <= i < |s.years| ==> s.years[i] == FirstYear + i
    ensures forall i :: 0 <= i < |s.years| ==> s.programCounts[i] == YearCount(rows, s.years[i])
    ensures ObservedYears(rows) == {} ==> s.years == [FirstYear] && s.programCounts == [0]
    ensures ObservedYears(rows) != {} && (forall y :: y in ObservedYears(rows) ==> y < FirstYear) ==> s.years == []
    ensures forall y :: y in ObservedYears(rows) && y >= FirstYear ==> y in s.years
    ensures |s.years| > 0 ==> s.years[|s.years| - 1] == EndYear(rows)
    ensures Sum(s.programCounts) == DatedSince2020(rows)
  {
    var end := EndYear(rows);
    forall y | y in ObservedYears(rows) && y >= FirstYear
      ensures y in s.years
    {
      assert s.years[y - FirstYear] == y;
    }
    if ObservedYears(rows) == {} {
      ObservedIffCounted(rows, FirstYear);
      assert s.years == [FirstYear];
    }
    SumOfSeries(rows, end);
  }

  /**
   * A row whose date is missing, empty or in neither format leaves the year chart as it
   * was, yet still counts in its campus bar, in its status total and in the goal tallies.
   */
  lemma UndatedRowCountsElsewhere(rows: seq<Row>, row: Row, status: string, t: int, route: Route)
    requires YearOf(row).None?
    ensures ObservedYears(rows + [row]) == ObservedYears(rows)
    ensures EndYear(rows + [row]) == EndYear(rows)
    ensures forall years :: YearSeries(rows + [row], years) == YearSeries(rows, years)
    ensures CampusCounted(row, route)
            ==> CampusCount(rows + [row], route, row.campus) == CampusCount(rows, route, row.campus) + 1
    ensures StatusTotal(rows + [row], route, row.status) ==
      StatusTotal(rows, route, row.status) + (if route == Dashboard then 1 else |RowGoals(row)|)
    ensures GoalTally(rows + [row], status, t) ==
      GoalTally(rows, status, t) + (if row.status == status then multiset(RowGoals(row))[t] else 0)
  {
    assert (rows + [row])[..|rows|] == rows;
  }

  // ---------------------------------------------------------------- the two routes

  /** /dashboard tolerates a NULL SDG field, which /dashboard2 cannot split. */
  lemma NullSdgOnlyBreaksDashboard2(row: Row)
    requires row.sdg.None?
    ensures RowFault(row, Dashboard) == None
    ensures RowFault(row, Dashboard2) == Some(NoneHasNoAttribute("split"))
  {
  }

  /** Whenever /dashboard2 renders, /dashboard renders too. */
  lemma Dashboard2SuccessImpliesDashboardSuccess(rows: seq<Row>)
    requires FirstFault(rows, Dashboard2).None?
    ensures FirstFault(rows, Dashboard).None?
  {
    FirstFaultIsFirstRowFault(rows, Dashboard2);
    FirstFaultIsFirstRowFault(rows, Dashboard);
    forall k | 0 <= k < |rows|
      ensures RowFault(rows[k], Dashboard).None?
    {
      assert RowFault(rows[k], Dashboard2).None?;
    }
  }

  /** When both routes render the same rows they agree on everything but the status totals and the campus chart. */
  lemma RoutesAgree(s: Summary, s2: Summary, rows: seq<Row>)
    requires Summarizes(s, rows, Dashboard) && Summarizes(s2, rows, Dashboard2)
    ensures s.sdgStats == s2.sdgStats
    ensures s.totalProjects == s2.totalProjects
    ensures s.years == s2.years && s.programCounts == s2.programCounts
    ensures s2.campusLabels == NonBlankLabels(s.campusLabels)
  {
    Dashboard2CampusesFilterDashboard(rows);
  }
}
