/**
 * The aggregation loop shared by the /dashboard and /dashboard2 routes, proved
 * against the reference definitions of DashboardSpec.
 */
module Dashboard {
  import opened Wrappers
  import opened PyText
  import opened Dates
  import opened DashboardSpec

  /** A goal's counters after n more tags of status. */
  function Bump(tally: Tally, status: string, n: nat): Tally {
    if status == Completed then tally.(completed := tally.completed + n)
    else if status == InProgress then tally.(inProgress := tally.inProgress + n)
    else tally
  }

  /**
   * One piece of the SDG field: skipped when blank, else int() of it. The number is
   * what int() reads from the piece, blank check or not, and a blank piece gives none.
   */
  method ReadGoal(piece: string) returns (number: Option<int>)
    ensures number == ParseInt(piece)
    ensures IsBlank(piece) ==> number.None?
  {
    BlankCheckIsRedundant(piece);
    if IsBlank(piece) {
      return None;
    }
    number := ParseInt(piece);
  }

  /** Reading a non-goal n at piece j, after goal numbers only, makes n the first non-goal of pieces[..j + 1]. */
  lemma NonGoalAtPiece(pieces: seq<string>, j: nat, n: int)
    requires j < |pieces| && PieceNumber(pieces[j]) == Some(n) && !IsGoal(n)
    requires FirstNonGoal(GoalNumbers(pieces[..j])).None?
    ensures FirstNonGoal(GoalNumbers(pieces[..j + 1])) == Some(n)
  {
    var before := GoalNumbers(pieces[..j]);
    GoalNumbersSnoc(pieces, j);
    assert GoalNumbers(pieces[..j + 1]) == before + [n];
    FirstNonGoalAppend(before, [n]);
    assert [n][..0] == [];
  }

  /** A non-goal found in a prefix of the pieces is the first non-goal of all of them. */
  lemma NonGoalInPrefix(pieces: seq<string>, m: nat)
    requires m <= |pieces| && FirstNonGoal(GoalNumbers(pieces[..m])).Some?
    ensures FirstNonGoal(GoalNumbers(pieces)) == FirstNonGoal(GoalNumbers(pieces[..m]))
  {
    PrefixAndRest(pieces, m);
    PrefixNonGoal(pieces, pieces[..m], pieces[m..]);
  }

  lemma PrefixAndRest(pieces: seq<string>, m: nat)
    requires m <= |pieces|
    ensures pieces[..m] + pieces[m..] == pieces
  {
  }

  lemma PrefixNonGoal(pieces: seq<string>, front: seq<string>, rest: seq<string>)
    requires pieces == front + rest && FirstNonGoal(GoalNumbers(front)).Some?
    ensures FirstNonGoal(GoalNumbers(pieces)) == FirstNonGoal(GoalNumbers(front))
  {
    GoalNumbersAppend(front, rest);
    FirstNonGoalAppend(GoalNumbers(front), GoalNumbers(rest));
  }

  /** A non-goal tag at piece j, after goal tags only, is the first non-goal of the whole field. */
  lemma NonGoalFound(pieces: seq<string>, j: nat, n: int)
    requires j < |pieces| && PieceNumber(pieces[j]) == Some(n) && !IsGoal(n)
    requires FirstNonGoal(GoalNumbers(pieces[..j])).None?
    ensures FirstNonGoal(GoalNumbers(pieces)) == Some(n)
  {
    NonGoalAtPiece(pieces, j, n);
    NonGoalInPrefix(pieces, j + 1);
  }

  /** Adding the counts of one more tag n to the counts of the tags ns gives the counts of ns + [n]. */
  lemma CountOne(stats: map<int, Tally>, cur: map<int, Tally>, status: string, ns: seq<int>, n: int, next: map<int, Tally>)
    requires cur.Keys == stats.Keys && next.Keys == cur.Keys
    requires forall t :: t in cur ==> cur[t] == Bump(stats[t], status, multiset(ns)[t])
    requires forall t :: t in cur ==> next[t] == Bump(cur[t], status, if t == n then 1 else 0)
    ensures forall t :: t in next ==> next[t] == Bump(stats[t], status, multiset(ns + [n])[t])
  {
    forall t | t in next
      ensures next[t] == Bump(stats[t], status, multiset(ns + [n])[t])
    {
      assert multiset(ns + [n])[t] == multiset(ns)[t] + (if t == n then 1 else 0);
    }
  }

  /**
   * One tag n of a row with the given status: the goal's counter for that status
   * goes up by one (and the status total, when perTag is set); raised reports the
   * KeyError of a tracked status whose number is not a goal.
   */
  method TallyOne(n: int, status: string, stats: map<int, Tally>, perTag: bool, completed: nat, inProgress: nat)
    returns (stats': map<int, Tally>, completed': nat, inProgress': nat, raised: bool)
    requires stats.Keys == Goals
    ensures raised <==> Tracked(status) && !IsGoal(n)
    ensures !raised ==> stats'.Keys == Goals
    ensures !raised ==> forall t :: t in stats ==> stats'[t] == Bump(stats[t], status, if t == n then 1 else 0)
    ensures !raised ==> completed' == completed + (if perTag && status == Completed then 1 else 0)
    ensures !raised ==> inProgress' == inProgress + (if perTag && status == InProgress then 1 else 0)
  {
    stats', completed', inProgress', raised := stats, completed, inProgress, false;
    if status == Completed {
      if n !in stats {
        return stats, completed, inProgress, true;
      }
      stats' := stats[n := stats[n].(completed := stats[n].completed + 1)];
      if perTag {
        completed' := completed + 1;
      }
    } else if status == InProgress {
      if n !in stats {
        return stats, completed, inProgress, true;
      }
      stats' := stats[n := stats[n].(inProgress := stats[n].inProgress + 1)];
      if perTag {
        inProgress' := inProgress + 1;
      }
    }
  }

  /**
   * The inner loop over the pieces of one SDG field: every piece that int() reads
   * bumps that goal's counter for the row's status (and, when perTag is set, the
   * status total); a number with no counter raises KeyError, reported in fault.
   */
  method TallyGoals(pieces: seq<string>, status: string, stats: map<int, Tally>, perTag: bool,
                    completed: nat, inProgress: nat)
    returns (stats': map<int, Tally>, completed': nat, inProgress': nat, fault: Option<int>)
    requires stats.Keys == Goals
    ensures fault == (if Tracked(status) then FirstNonGoal(GoalNumbers(pieces)) else None)
    ensures fault.None? ==> stats'.Keys == Goals
    ensures fault.None? ==> forall t :: t in stats' ==> stats'[t] == Bump(stats[t], status, multiset(GoalNumbers(pieces))[t])
    ensures fault.None? ==> completed' == completed + (if perTag && status == Completed then |GoalNumbers(pieces)| else 0)
    ensures fault.None? ==> inProgress' == inProgress + (if perTag && status == InProgress then |GoalNumbers(pieces)| else 0)
  {
    stats', completed', inProgress' := stats, completed, inProgress;
    for j := 0 to |pieces|
      invariant Tracked(status) ==> FirstNonGoal(GoalNumbers(pieces[..j])).None?
      invariant stats'.Keys == Goals
      invariant forall t :: t in stats' ==> stats'[t] == Bump(stats[t], status, multiset(GoalNumbers(pieces[..j]))[t])
      invariant completed' == completed + (if perTag && status == Completed then |GoalNumbers(pieces[..j])| else 0)
      invariant inProgress' == inProgress + (if perTag && status == InProgress then |GoalNumbers(pieces[..j])| else 0)
    {
      var number := ReadGoal(pieces[j]);
      BlankCheckIsRedundant(pieces[j]);
      ghost var before := GoalNumbers(pieces[..j]);
      assert pieces[..j + 1][..j] == pieces[..j];
      if number.None? {
        continue;
      }
      var n := number.value;
      ghost var cur := stats';
      var raised;
      stats', completed', inProgress', raised := TallyOne(n, status, stats', perTag, completed', inProgress');
      if raised {
        NonGoalFound(pieces, j, n);
        fault := Some(n);
        return;
      }
      if Tracked(status) {
        assert (before + [n])[..|before|] == before;
      }
      CountOne(stats, cur, status, before, n, stats');
    }
    assert pieces[..|pieces|] == pieces;
    fault := None;
  }

  /** max(keys, default=default) over the keys of a dict, in insertion order. */
  method MaxKey(keys: seq<int>, default: int) returns (m: int)
    ensures |keys| == 0 ==> m == default
    ensures |keys| > 0 ==> m in keys && forall k :: k in keys ==> k <= m
  {
    m := default;
    for j := 0 to |keys|
      invariant j == 0 ==> m == default
      invariant j > 0 ==> m in keys[..j] && forall k :: k in keys[..j] ==> k <= m
    {
      assert keys[..j + 1] == keys[..j] + [keys[j]];
      if j == 0 || keys[j] > m {
        m := keys[j];
      }
    }
    assert keys[..|keys|] == keys;
  }

  /** [yearly.get(y, 0) for y in years]. */
  method ProgramCounts(years: seq<int>, yearly: map<int, nat>) returns (counts: seq<nat>)
    ensures |counts| == |years|
    ensures forall i :: 0 <= i < |years| ==> counts[i] == if years[i] in yearly then yearly[years[i]] else 0
  {
    counts := [];
    for i := 0 to |years|
      invariant |counts| == i
      invariant forall k :: 0 <= k < i ==> counts[k] == if years[k] in yearly then yearly[years[k]] else 0
    {
      var c := if years[i] in yearly then yearly[years[i]] else 0;
      counts := counts + [c];
    }
  }

  /** sdg_stats, completed_count and in_progress_count hold the counts of rows. */
  ghost predicate GoalsCounted(rows: seq<Row>, route: Route, stats: map<int, Tally>, completed: nat, inProgress: nat) {
    && stats.Keys == Goals
    && (forall t :: t in stats ==> stats[t] == Tally(GoalTally(rows, Completed, t), GoalTally(rows, InProgress, t)))
    && completed == StatusTotal(rows, route, Completed)
    && inProgress == StatusTotal(rows, route, InProgress)
  }

  /** collegecampus_counts, with its keys in insertion order, holds the campus counts of rows. */
  ghost predicate CampusesCounted(rows: seq<Row>, route: Route, labels: seq<Option<string>>, counts: map<Option<string>, nat>) {
    && labels == CampusLabels(rows, route)
    && (forall k :: k in counts <==> k in labels)
    && (forall k :: k in counts ==> counts[k] == CampusCount(rows, route, k))
  }

  /** yearly_programs, with its keys in insertion order, holds the year counts of rows. */
  ghost predicate YearsCounted(rows: seq<Row>, yearly: map<int, nat>, order: seq<int>) {
    && (forall y :: y in yearly <==> y in ObservedYears(rows))
    && (forall y :: y in yearly <==> y in order)
    && (forall y :: y in yearly ==> yearly[y] == YearCount(rows, y))
  }

  /** The status and SDG part of the loop body for row i. */
  method CountGoals(rows: seq<Row>, i: nat, route: Route, stats: map<int, Tally>, completed: nat, inProgress: nat)
    returns (stats': map<int, Tally>, completed': nat, inProgress': nat, fault: Option<Fault>)
    requires i < |rows| && GoalsCounted(rows[..i], route, stats, completed, inProgress)
    ensures fault == GoalFault(rows[i], route)
    ensures fault.None? ==> GoalsCounted(rows[..i + 1], route, stats', completed', inProgress')
  {
    var row := rows[i];
    var pieces: seq<string>;
    if route == Dashboard2 {
      if row.sdg.None? {
        return stats, completed, inProgress, Some(NoneHasNoAttribute("split"));
      }
      pieces := Split(row.sdg.value, ',');
      SplitPiecesOfDashboard2(row);
    } else {
      pieces := if row.sdg.Some? && row.sdg.value != "" then Split(row.sdg.value, ',') else [];
    }
    completed', inProgress' := completed, inProgress;
    if route == Dashboard {
      if row.status == Completed {
        completed' := completed' + 1;
      } else if row.status == InProgress {
        inProgress' := inProgress' + 1;
      }
    }
    assert GoalNumbers(pieces) == RowGoals(row);
    var nonGoal;
    stats', completed', inProgress', nonGoal := TallyGoals(pieces, row.status, stats, route == Dashboard2, completed', inProgress');
    if nonGoal.Some? {
      return stats', completed', inProgress', Some(KeyError(nonGoal.value));
    }
    fault := None;
    GoalsCountedStep(rows, i, route, stats, completed, inProgress, stats', completed', inProgress');
  }

  /** The counters after row i are the counters before it plus the row's own contribution. */
  lemma GoalsCountedStep(rows: seq<Row>, i: nat, route: Route, stats: map<int, Tally>, completed: nat, inProgress: nat,
                         stats': map<int, Tally>, completed': nat, inProgress': nat)
    requires i < |rows| && GoalsCounted(rows[..i], route, stats, completed, inProgress)
    requires stats'.Keys == Goals
    requires forall t :: t in stats' ==> stats'[t] == Bump(stats[t], rows[i].status, multiset(RowGoals(rows[i]))[t])
    requires completed' == completed + (if rows[i].status != Completed then 0 else if route == Dashboard then 1 else |RowGoals(rows[i])|)
    requires inProgress' == inProgress + (if rows[i].status != InProgress then 0 else if route == Dashboard then 1 else |RowGoals(rows[i])|)
    ensures GoalsCounted(rows[..i + 1], route, stats', completed', inProgress')
  {
    assert rows[..i + 1][..i] == rows[..i];
  }

  /** The campus bookkeeping after row i is the bookkeeping before it plus the row's own campus. */
  lemma CampusesCountedStep(rows: seq<Row>, i: nat, route: Route, labels: seq<Option<string>>, counts: map<Option<string>, nat>,
                            labels': seq<Option<string>>, counts': map<Option<string>, nat>)
    requires i < |rows| && CampusesCounted(rows[..i], route, labels, counts)
    requires !CampusCounted(rows[i], route) ==> labels' == labels && counts' == counts
    requires CampusCounted(rows[i], route) && rows[i].campus in counts ==>
      labels' == labels && counts' == counts[rows[i].campus := counts[rows[i].campus] + 1]
    requires CampusCounted(rows[i], route) && rows[i].campus !in counts ==>
      labels' == labels + [rows[i].campus] && counts' == counts[rows[i].campus := 1]
    ensures CampusesCounted(rows[..i + 1], route, labels', counts')
  {
    var row, before, after := rows[i], rows[..i], rows[..i + 1];
    assert after[..i] == before && after[i] == row;
    CampusLabelIffCounted(before, route, row.campus);
    assert CampusLabels(after, route) ==
      if CampusCounted(row, route) && row.campus !in CampusLabels(before, route) then CampusLabels(before, route) + [row.campus]
      else CampusLabels(before, route);
    forall k
      ensures CampusCount(after, route, k) == CampusCount(before, route, k) + (if CampusCounted(row, route) && row.campus == k then 1 else 0)
    {
    }
  }

  /** The campus part of the loop body for row i (collegecampus_counts[collegecampus] += 1). */
  method CountCampus(rows: seq<Row>, i: nat, route: Route, labels: seq<Option<string>>, counts: map<Option<string>, nat>)
    returns (labels': seq<Option<string>>, counts': map<Option<string>, nat>)
    requires i < |rows| && CampusesCounted(rows[..i], route, labels, counts)
    requires route == Dashboard2 ==> rows[i].campus.Some?
    ensures CampusesCounted(rows[..i + 1], route, labels', counts')
  {
    var campus := rows[i].campus;
    labels', counts' := labels, counts;
    if route == Dashboard || !IsBlank(campus.value) {
      if campus !in counts {
        labels' := labels + [campus];
        counts' := counts[campus := 1];
      } else {
        counts' := counts[campus := counts[campus] + 1];
      }
    }
    CampusesCountedStep(rows, i, route, labels, counts, labels', counts');
  }

  /** The year bookkeeping after row i is the bookkeeping before it plus the row's own year. */
  lemma YearsCountedStep(rows: seq<Row>, i: nat, yearly: map<int, nat>, order: seq<int>, yearly': map<int, nat>, order': seq<int>)
    requires i < |rows| && YearsCounted(rows[..i], yearly, order)
    requires YearOf(rows[i]).None? ==> yearly' == yearly && order' == order
    requires YearOf(rows[i]).Some? && YearOf(rows[i]).value in yearly ==>
      yearly' == yearly[YearOf(rows[i]).value := yearly[YearOf(rows[i]).value] + 1] && order' == order
    requires YearOf(rows[i]).Some? && YearOf(rows[i]).value !in yearly ==>
      yearly' == yearly[YearOf(rows[i]).value := 1] && order' == order + [YearOf(rows[i]).value]
    ensures YearsCounted(rows[..i + 1], yearly', order')
  {
    var row, before, after := rows[i], rows[..i], rows[..i + 1];
    YearsOfLastRow(after);
    assert after[..i] == before && after[i] == row;
    match YearOf(row)
    case None =>
    case Some(y0) =>
      ObservedIffCounted(before, y0);
      assert forall y :: y in yearly' <==> y in yearly || y == y0;
  }

  /** The years and year counts of a list are those of all but its last row, plus the last row's. */
  lemma YearsOfLastRow(rows: seq<Row>)
    requires rows != []
    ensures var row := rows[|rows| - 1];
            ObservedYears(rows) == ObservedYears(rows[..|rows| - 1]) + (if YearOf(row).Some? then {YearOf(row).value} else {})
    ensures forall y :: YearCount(rows, y) == YearCount(rows[..|rows| - 1], y) + (if YearOf(rows[|rows| - 1]) == Some(y) then 1 else 0)
  {
  }

  /** The date part of the loop body for row i (yearly_programs[year] += 1). */
  method CountYear(rows: seq<Row>, i: nat, yearly: map<int, nat>, order: seq<int>)
    returns (yearly': map<int, nat>, order': seq<int>)
    requires i < |rows| && YearsCounted(rows[..i], yearly, order)
    ensures YearsCounted(rows[..i + 1], yearly', order')
  {
    var date := rows[i].date;
    yearly', order' := yearly, order;
    var year: Option<int> := None;
    if date.Some? && date.value != "" {
      year := YearOfMonthYear(date.value);
      if year.None? {
        year := YearOfMonthDayYear(date.value);
      }
    }
    assert year == YearOf(rows[i]);
    if year.Some? {
      var y := year.value;
      if y in yearly {
        yearly' := yearly[y := yearly[y] + 1];
      } else {
        yearly' := yearly[y := 1];
        order' := order + [y];
      }
    }
    YearsCountedStep(rows, i, yearly, order, yearly', order');
  }

  /** The last year of the chart as computed from the keys of yearly_programs is EndYear. */
  lemma EndYearFromKeys(rows: seq<Row>, yearly: map<int, nat>, order: seq<int>, m: int)
    requires YearsCounted(rows, yearly, order)
    requires |order| == 0 ==> m == FirstYear
    requires |order| > 0 ==> m in order && forall k :: k in order ==> k <= m
    ensures m == EndYear(rows)
  {
    assert forall y :: y in order <==> y in ObservedYears(rows);
  }

  /**
   * The body of /dashboard (route Dashboard) and /dashboard2 (route Dashboard2)
   * from the fetched rows to the values rendered, or to the exception that ends
   * the request in the 500 result.
   */
  method Aggregate(rows: seq<Row>, route: Route) returns (r: Result<Summary, Fault>)
    ensures r.Failure? <==> FirstFault(rows, route).Some?
    ensures r.Failure? ==> r.error == FirstFault(rows, route).value
    ensures r.Success? ==> Summarizes(r.value, rows, route)
  {
    var stats: map<int, Tally> := map t | t in Goals :: Tally(0, 0);
    var total: nat := 0;
    var completed: nat := 0;
    var inProgress: nat := 0;
    var labels: seq<Option<string>> := [];
    var campusCounts: map<Option<string>, nat> := map[];
    var yearly: map<int, nat> := map[];
    var order: seq<int> := [];
    for i := 0 to |rows|
      invariant FirstFault(rows[..i], route).None?
      invariant total == i
      invariant GoalsCounted(rows[..i], route, stats, completed, inProgress)
      invariant CampusesCounted(rows[..i], route, labels, campusCounts)
      invariant YearsCounted(rows[..i], yearly, order)
    {
      FaultStep(rows, route, i);
      var fault;
      stats, completed, inProgress, fault := CountGoals(rows, i, route, stats, completed, inProgress);
      if fault.Some? {
        FaultPersists(rows, route, i + 1);
        return Failure(fault.value);
      }
      total := total + 1;
      if route == Dashboard2 && rows[i].campus.None? {
        FaultPersists(rows, route, i + 1);
        return Failure(NoneHasNoAttribute("strip"));
      }
      labels, campusCounts := CountCampus(rows, i, route, labels, campusCounts);
      yearly, order := CountYear(rows, i, yearly, order);
    }
    assert rows[..|rows|] == rows;
    var summary := Charts(rows, route, stats, total, completed, inProgress, labels, campusCounts, yearly, order);
    r := Success(summary);
  }

  /** Past fault-free rows, the first fault of one more row is that row's own. */
  lemma FaultStep(rows: seq<Row>, route: Route, i: nat)
    requires i < |rows| && FirstFault(rows[..i], route).None?
    ensures FirstFault(rows[..i + 1], route) == RowFault(rows[i], route)
  {
    assert rows[..i + 1][..i] == rows[..i];
  }

  /** The chart data prepared after the loop. */
  method Charts(rows: seq<Row>, route: Route, stats: map<int, Tally>, total: nat, completed: nat, inProgress: nat,
                labels: seq<Option<string>>, campusCounts: map<Option<string>, nat>, yearly: map<int, nat>, order: seq<int>)
    returns (s: Summary)
    requires total == |rows|
    requires GoalsCounted(rows, route, stats, completed, inProgress)
    requires CampusesCounted(rows, route, labels, campusCounts)
    requires YearsCounted(rows, yearly, order)
    ensures Summarizes(s, rows, route)
  {
    var data := seq(|labels|, k requires 0 <= k < |labels| => campusCounts[labels[k]]);
    var endYear := MaxKey(order, FirstYear);
    EndYearFromKeys(rows, yearly, order, endYear);
    var years := YearAxis(endYear);
    var programCounts := ProgramCounts(years, yearly);
    forall y | y in years
      ensures y !in yearly ==> YearCount(rows, y) == 0
    {
      ObservedIffCounted(rows, y);
    }
    s := Summary(stats, total, completed, inProgress, labels, data, years, programCounts);
  }
}
