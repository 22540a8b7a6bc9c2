/**
 * Reference definitions of what the two dashboard routes compute from the rows
 * (sdg, projectstatus, collegecampus, projectdate) of the project table: the
 * per-goal table, the status totals, the per-campus counts and the per-year series.
 */
module DashboardSpec {
  import opened Wrappers
  import opened PyText
  import opened Dates

  /** One row of the dashboards' query; a NULL column is None. */
  datatype Row = Row(sdg: Option<string>, status: string, campus: Option<string>, date: Option<string>)

  /** The two routes that aggregate: /dashboard and /dashboard2. */
  datatype Route = Dashboard | Dashboard2

  /** The two counters kept for one Sustainable Development Goal. */
  datatype Tally = Tally(completed: nat, inProgress: nat)

  /** The exception that ends a request in the 500 error result. */
  datatype Fault = KeyError(key: int) | NoneHasNoAttribute(attribute: string)

  /** What the route hands to its template. */
  datatype Summary = Summary(
    sdgStats: map<int, Tally>,
    totalProjects: nat,
    completedCount: nat,
    inProgressCount: nat,
    campusLabels: seq<Option<string>>,
    campusData: seq<nat>,
    years: seq<int>,
    programCounts: seq<nat>)

  const Completed: string := "Completed"
  const InProgress: string := "In Progress"
  const FirstYear: int := 2020

  /** The keys of sdg_stats: the goals 1 to 17. */
  const Goals: set<int> := set t | 1 <= t <= 17

  predicate IsGoal(t: int) {
    1 <= t <= 17
  }

  /** The statuses that have a counter. */
  predicate Tracked(status: string) {
    status == Completed || status == InProgress
  }

  // ---------------------------------------------------------------- goals

  /** The integer int() reads from one piece of an SDG field; a blank piece is skipped before int() is tried. */
  function PieceNumber(piece: string): Option<int> {
    if IsBlank(piece) then None else ParseInt(piece)
  }

  /** The blank check before int() changes nothing: int() rejects a blank piece anyway. */
  lemma BlankCheckIsRedundant(piece: string)
    ensures PieceNumber(piece) == ParseInt(piece)
  {
    if IsBlank(piece) {
      ParseIntOfBlank(piece);
    }
  }

  /** The integers read from the pieces of an SDG field: blank pieces and pieces int() rejects are skipped. */
  function GoalNumbers(pieces: seq<string>): seq<int> {
    if pieces == [] then []
    else
      var numbers := GoalNumbers(pieces[..|pieces| - 1]);
      match PieceNumber(pieces[|pieces| - 1])
      case None => numbers
      case Some(n) => numbers + [n]
  }

  /** The pieces of the SDG field as /dashboard splits it: a NULL or empty field has none. */
  function SdgPieces(row: Row): seq<string> {
    if row.sdg.Some? && row.sdg.value != "" then Split(row.sdg.value, ',') else []
  }

  /** The goal numbers a row is tagged with. */
  function RowGoals(row: Row): seq<int> {
    GoalNumbers(SdgPieces(row))
  }

  /** The first number that is not a goal, the one sdg_stats raises KeyError on. */
  function FirstNonGoal(ns: seq<int>): Option<int> {
    if ns == [] then None
    else match FirstNonGoal(ns[..|ns| - 1])
      case Some(n) => Some(n)
      case None => if IsGoal(ns[|ns| - 1]) then None else Some(ns[|ns| - 1])
  }

  /** FirstNonGoal finds a number that is not a goal exactly when there is one, and it is the first such number. */
  lemma {:induction false} FirstNonGoalSpec(ns: seq<int>)
    ensures FirstNonGoal(ns).None? <==> forall k :: 0 <= k < |ns| ==> IsGoal(ns[k])
    ensures FirstNonGoal(ns).Some? ==>
      exists k :: 0 <= k < |ns| && ns[k] == FirstNonGoal(ns).value && !IsGoal(ns[k])
                  && forall j :: 0 <= j < k ==> IsGoal(ns[j])
  {
    if ns != [] {
      var init := ns[..|ns| - 1];
      FirstNonGoalSpec(init);
      if FirstNonGoal(init).Some? {
        var k :| 0 <= k < |init| && init[k] == FirstNonGoal(init).value && !IsGoal(init[k])
                 && forall j :: 0 <= j < k ==> IsGoal(init[j]);
        assert ns[k] == init[k];
      } else {
        assert forall k :: 0 <= k < |init| ==> ns[k] == init[k];
      }
    }
  }

  /** The exception raised while reading a row's goals: splitting a NULL field on /dashboard2, then KeyError. */
  function GoalFault(row: Row, route: Route): Option<Fault> {
    if route == Dashboard2 && row.sdg.None? then Some(NoneHasNoAttribute("split"))
    else if Tracked(row.status) && FirstNonGoal(RowGoals(row)).Some? then Some(KeyError(FirstNonGoal(RowGoals(row)).value))
    else None
  }

  /** The exception processing one row raises, in the order the route meets them. */
  function RowFault(row: Row, route: Route): Option<Fault> {
    if GoalFault(row, route).Some? then GoalFault(row, route)
    else if route == Dashboard2 && row.campus.None? then Some(NoneHasNoAttribute("strip"))
    else None
  }

  /** The first exception met over all rows; it ends the request. */
  function FirstFault(rows: seq<Row>, route: Route): Option<Fault> {
    if rows == [] then None
    else match FirstFault(rows[..|rows| - 1], route)
      case Some(f) => Some(f)
      case None => RowFault(rows[|rows| - 1], route)
  }

  /** How many times goal t is tagged on rows whose status is status. */
  function GoalTally(rows: seq<Row>, status: string, t: int): nat {
    if rows == [] then 0
    else
      var row := rows[|rows| - 1];
      GoalTally(rows[..|rows| - 1], status, t) + (if row.status == status then multiset(RowGoals(row))[t] else 0)
  }

  // ---------------------------------------------------------------- statuses

  /** The number of rows whose status is status. */
  function StatusRows(rows: seq<Row>, status: string): nat {
    if rows == [] then 0
    else StatusRows(rows[..|rows| - 1], status) + (if rows[|rows| - 1].status == status then 1 else 0)
  }

  /** The number of goal tags carried by rows whose status is status. */
  function TagCount(rows: seq<Row>, status: string): nat {
    if rows == [] then 0
    else
      var row := rows[|rows| - 1];
      TagCount(rows[..|rows| - 1], status) + (if row.status == status then |RowGoals(row)| else 0)
  }

  /** completed_count / in_progress_count: per project on /dashboard, per goal tag on /dashboard2. */
  function StatusTotal(rows: seq<Row>, route: Route, status: string): nat {
    if route == Dashboard then StatusRows(rows, status) else TagCount(rows, status)
  }

  // ---------------------------------------------------------------- campuses

  /** Whether a row's campus is counted: always on /dashboard, only when not blank on /dashboard2. */
  predicate CampusCounted(row: Row, route: Route) {
    route == Dashboard || (row.campus.Some? && !IsBlank(row.campus.value))
  }

  /** The counted campus values, each once, in the order they are first met. */
  function CampusLabels(rows: seq<Row>, route: Route): seq<Option<string>> {
    if rows == [] then []
    else
      var labels := CampusLabels(rows[..|rows| - 1], route);
      var row := rows[|rows| - 1];
      if CampusCounted(row, route) && row.campus !in labels then labels + [row.campus] else labels
  }

  /** The number of counted rows whose campus value is campus. */
  function CampusCount(rows: seq<Row>, route: Route, campus: Option<string>): nat {
    if rows == [] then 0
    else
      var row := rows[|rows| - 1];
      CampusCount(rows[..|rows| - 1], route, campus) + (if CampusCounted(row, route) && row.campus == campus then 1 else 0)
  }

  /** The count of each label, position by position. */
  function CampusData(rows: seq<Row>, route: Route): seq<nat> {
    var labels := CampusLabels(rows, route);
    seq(|labels|, i requires 0 <= i < |labels| => CampusCount(rows, route, labels[i]))
  }

  // ---------------------------------------------------------------- years

  /** The year a row's date yields, if it is non-empty and matches a format. */
  function YearOf(row: Row): Option<int> {
    if row.date.Some? && row.date.value != "" then ParseYear(row.date.value) else None
  }

  /** The number of rows whose date yields year y. */
  function YearCount(rows: seq<Row>, y: int): nat {
    if rows == [] then 0
    else YearCount(rows[..|rows| - 1], y) + (if YearOf(rows[|rows| - 1]) == Some(y) then 1 else 0)
  }

  /** The years some row's date yields. */
  function ObservedYears(rows: seq<Row>): set<int> {
    if rows == [] then {}
    else
      var row := rows[|rows| - 1];
      ObservedYears(rows[..|rows| - 1]) + (if YearOf(row).Some? then {YearOf(row).value} else {})
  }

  /** The latest observed year, if any. */
  function MaxYear(rows: seq<Row>): (m: Option<int>)
    ensures m.None? <==> ObservedYears(rows) == {}
    ensures m.Some? ==> m.value in ObservedYears(rows)
    ensures m.Some? ==> forall y :: y in ObservedYears(rows) ==> y <= m.value
  {
    if rows == [] then None
    else
      var before := MaxYear(rows[..|rows| - 1]);
      match YearOf(rows[|rows| - 1])
      case None => before
      case Some(y) => if before.Some? && before.value >= y then before else Some(y)
  }

  /** The last year of the chart: the latest observed year, or 2020 when none is. */
  function EndYear(rows: seq<Row>): int {
    match MaxYear(rows)
    case None => FirstYear
    case Some(m) => m
  }

  /** list(range(2020, end + 1)). */
  function YearAxis(end: int): seq<int> {
    seq(if end >= FirstYear then end - FirstYear + 1 else 0, i => FirstYear + i)
  }

  /** The number of rows of each year of the axis. */
  function YearSeries(rows: seq<Row>, years: seq<int>): seq<nat> {
    seq(|years|, i requires 0 <= i < |years| => YearCount(rows, years[i]))
  }

  /** What a route renders from rows, when no exception is raised. */
  predicate Summarizes(s: Summary, rows: seq<Row>, route: Route) {
    && s.sdgStats.Keys == Goals
    && (forall t :: t in s.sdgStats ==> s.sdgStats[t] == Tally(GoalTally(rows, Completed, t), GoalTally(rows, InProgress, t)))
    && s.totalProjects == |rows|
    && s.completedCount == StatusTotal(rows, route, Completed)
    && s.inProgressCount == StatusTotal(rows, route, InProgress)
    && s.campusLabels == CampusLabels(rows, route)
    && s.campusData == CampusData(rows, route)
    && s.years == YearAxis(EndYear(rows))
    && s.programCounts == YearSeries(rows, s.years)
  }

  // ---------------------------------------------------------------- helper lemmas

  lemma {:induction false} GoalNumbersAppend(a: seq<string>, b: seq<string>)
    ensures GoalNumbers(a + b) == GoalNumbers(a) + GoalNumbers(b)
  {
    if b != [] {
      GoalNumbersAppend(a, b[..|b| - 1]);
      assert (a + b)[..|a + b| - 1] == a + b[..|b| - 1];
    } else {
      assert a + b == a;
    }
  }

  lemma GoalNumbersSnoc(pieces: seq<string>, j: nat)
    requires j < |pieces|
    ensures GoalNumbers(pieces[..j + 1]) ==
      GoalNumbers(pieces[..j]) + (if PieceNumber(pieces[j]).Some? then [PieceNumber(pieces[j]).value] else [])
  {
    assert pieces[..j + 1][..j] == pieces[..j];
  }

  lemma {:induction false} FirstNonGoalAppend(a: seq<int>, b: seq<int>)
    ensures FirstNonGoal(a + b) == if FirstNonGoal(a).Some? then FirstNonGoal(a) else FirstNonGoal(b)
  {
    if b != [] {
      FirstNonGoalAppend(a, b[..|b| - 1]);
      assert (a + b)[..|a + b| - 1] == a + b[..|b| - 1];
    } else {
      assert a + b == a;
    }
  }

  /** Once a prefix of the rows raises, the whole request raises the same exception. */
  lemma {:induction false} FaultPersists(rows: seq<Row>, route: Route, k: nat)
    requires k <= |rows| && FirstFault(rows[..k], route).Some?
    ensures FirstFault(rows, route) == FirstFault(rows[..k], route)
  {
    if k < |rows| {
      assert rows[..|rows| - 1][..k] == rows[..k];
      FaultPersists(rows[..|rows| - 1], route, k);
    } else {
      assert rows[..k] == rows;
    }
  }

  /** A campus value is a label exactly when some counted row carries it. */
  lemma {:induction false} CampusLabelIffCounted(rows: seq<Row>, route: Route, campus: Option<string>)
    ensures campus in CampusLabels(rows, route) <==> CampusCount(rows, route, campus) > 0
  {
    if rows != [] {
      CampusLabelIffCounted(rows[..|rows| - 1], route, campus);
    }
  }

  /** A year is observed exactly when some row's date yields it. */
  lemma {:induction false} ObservedIffCounted(rows: seq<Row>, y: int)
    ensures y in ObservedYears(rows) <==> YearCount(rows, y) > 0
  {
    if rows != [] {
      ObservedIffCounted(rows[..|rows| - 1], y);
    }
  }

  /** /dashboard2 splits the field even when it is empty; the single empty piece yields no goal. */
  lemma SplitPiecesOfDashboard2(row: Row)
    requires row.sdg.Some?
    ensures GoalNumbers(Split(row.sdg.value, ',')) == RowGoals(row)
  {
    if row.sdg.value == "" {
      assert Split("", ',') == [""];
      assert IsBlank("");
    }
  }
}
