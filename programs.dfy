/**
 * The pure pieces of the program routes: the SDG clean-up get_program applies
 * to a stored SDG field, the SDG join and the new project id of add_program,
 * and the partial UPDATE edit_program builds from a form.
 */
module Programs {
  import opened Wrappers
  import opened PyText
  import opened Collections
  import opened DashboardSpec

  // ------------------------------------------------- get_program: SDG clean-up

  /** `[p.strip() for p in parts if p.strip()]`. */
  function StrippedTokens(parts: seq<string>): (tokens: seq<string>)
    ensures |tokens| <= |parts|
  {
    if parts == [] then []
    else
      var tokens := StrippedTokens(parts[..|parts| - 1]);
      var last := parts[|parts| - 1];
      if IsBlank(last) then tokens else tokens + [Strip(last)]
  }

  /** A stored SDG field re-joined from its non-blank, stripped comma pieces. */
  function NormalizeSdg(value: string): string {
    Join(StrippedTokens(Split(value, ',')), ",")
  }

  /** A token as the clean-up leaves it: not empty and without surrounding whitespace. */
  predicate CleanToken(t: string) {
    t != [] && Strip(t) == t
  }

  /** Every character of Strip(s) comes from s. */
  lemma StripKeeps(s: string, c: char)
    requires c in Strip(s)
    ensures c in s
  {
    var l := TrimLeft(s);
    TrimLeftSpec(s);
    TrimRightSpec(l);
    var i :| 0 <= i < |Strip(s)| && Strip(s)[i] == c;
    assert Strip(s)[i] == l[i] == s[|s| - |l| + i];
  }

  lemma {:induction false} StrippedTokensSpec(parts: seq<string>)
    ensures forall i :: 0 <= i < |StrippedTokens(parts)| ==> CleanToken(StrippedTokens(parts)[i])
    ensures StrippedTokens(parts) == [] <==> forall i :: 0 <= i < |parts| ==> IsBlank(parts[i])
    ensures (forall i :: 0 <= i < |parts| ==> ',' !in parts[i])
            ==> forall i :: 0 <= i < |StrippedTokens(parts)| ==> ',' !in StrippedTokens(parts)[i]
  {
    if parts != [] {
      var init := parts[..|parts| - 1];
      var last := parts[|parts| - 1];
      StrippedTokensSpec(init);
      StripIdempotent(last);
      assert forall i :: 0 <= i < |init| ==> init[i] == parts[i];
      if ',' in Strip(last) {
        StripKeeps(last, ',');
      }
    }
  }

  /** Tokens that are already clean pass through the clean-up unchanged. */
  lemma {:induction false} StrippedTokensOfClean(tokens: seq<string>)
    requires forall i :: 0 <= i < |tokens| ==> CleanToken(tokens[i])
    ensures StrippedTokens(tokens) == tokens
  {
    if tokens != [] {
      StrippedTokensOfClean(tokens[..|tokens| - 1]);
      assert tokens == tokens[..|tokens| - 1] + [tokens[|tokens| - 1]];
    }
  }

  /** The pieces of a normalised field, split again on commas, are exactly the kept tokens. */
  lemma NormalizeSdgTokens(value: string)
    ensures StrippedTokens(Split(value, ',')) == [] ==> NormalizeSdg(value) == ""
    ensures StrippedTokens(Split(value, ',')) != []
            ==> Split(NormalizeSdg(value), ',') == StrippedTokens(Split(value, ','))
  {
    var tokens := StrippedTokens(Split(value, ','));
    StrippedTokensSpec(Split(value, ','));
    if tokens != [] {
      JoinThenSplit(tokens, ',');
    }
  }

  /**
   * The clean-up yields "" exactly when every piece is blank, and otherwise a
   * comma-joined string whose tokens are non-empty and carry no surrounding
   * whitespace.
   */
  lemma NormalizeSdgClean(value: string)
    ensures NormalizeSdg(value) == "" <==> forall i :: 0 <= i < |Split(value, ',')| ==> IsBlank(Split(value, ',')[i])
    ensures NormalizeSdg(value) != ""
            ==> forall i :: 0 <= i < |Split(NormalizeSdg(value), ',')| ==> CleanToken(Split(NormalizeSdg(value), ',')[i])
  {
    var tokens := StrippedTokens(Split(value, ','));
    StrippedTokensSpec(Split(value, ','));
    NormalizeSdgTokens(value);
    if tokens != [] {
      assert tokens[0] != [];
      assert NormalizeSdg(value) != "" by {
        if |tokens| > 1 {
          assert NormalizeSdg(value) == tokens[0] + "," + Join(tokens[1..], ",");
        }
      }
    }
  }

  /** Cleaning a cleaned field changes nothing. */
  lemma NormalizeSdgIdempotent(value: string)
    ensures NormalizeSdg(NormalizeSdg(value)) == NormalizeSdg(value)
  {
    var tokens := StrippedTokens(Split(value, ','));
    NormalizeSdgTokens(value);
    StrippedTokensSpec(Split(value, ','));
    if tokens == [] {
      assert Split("", ',') == [""];
      assert IsBlank("");
      assert StrippedTokens([""]) == [];
    } else {
      StrippedTokensOfClean(tokens);
    }
  }

  /**
   * The sdg entry of get_program's reply for the stored column value (NULL
   * becomes ""): "" exactly when the column is NULL or every comma piece is
   * blank, otherwise comma-joined clean tokens; showing a shown value again
   * changes nothing.
   */
  function ProgramSdg(value: Option<string>): (shown: string)
    ensures shown == "" <==>
            value.None? || forall i :: 0 <= i < |Split(value.value, ',')| ==> IsBlank(Split(value.value, ',')[i])
    ensures shown != "" ==> forall i :: 0 <= i < |Split(shown, ',')| ==> CleanToken(Split(shown, ',')[i])
    ensures NormalizeSdg(shown) == shown
  {
    match value
    case None => NormalizeSdgIdempotent(""); ""
    case Some(v) =>
      NormalizeSdgClean(v);
      NormalizeSdgIdempotent(v);
      NormalizeSdgIdempotent("");
      if v != "" then NormalizeSdg(v) else v
  }

  /** Stripping the pieces keeps their goal numbers, as long as int() sees no U+001C..U+001F. */
  lemma {:induction false} GoalNumbersOfStrippedTokens(parts: seq<string>)
    requires forall i :: 0 <= i < |parts| ==> !HasSeparatorControl(parts[i])
    ensures GoalNumbers(StrippedTokens(parts)) == GoalNumbers(parts)
  {
    if parts != [] {
      var init := parts[..|parts| - 1];
      var last := parts[|parts| - 1];
      assert forall i :: 0 <= i < |init| ==> init[i] == parts[i];
      GoalNumbersOfStrippedTokens(init);
      if !IsBlank(last) {
        var tokens := StrippedTokens(init);
        StripIdempotent(last);
        ParseIntOfStrip(last);
        assert (tokens + [Strip(last)])[..|tokens|] == tokens;
        assert PieceNumber(Strip(last)) == PieceNumber(last);
      }
    }
  }

  /** No piece of a field free of U+001C..U+001F holds one. */
  lemma PiecesWithoutSeparatorControl(value: string)
    requires !HasSeparatorControl(value)
    ensures forall i :: 0 <= i < |Split(value, ',')| ==> !HasSeparatorControl(Split(value, ',')[i])
  {
    var parts := Split(value, ',');
    forall i, j | 0 <= i < |parts| && 0 <= j < |parts[i]|
      ensures !IsSeparatorControl(parts[i][j])
    {
      SplitKeepsChars(value, ',', i, parts[i][j]);
      var k :| 0 <= k < |value| && value[k] == parts[i][j];
    }
  }

  /**
   * The dashboards read the same goal numbers from a cleaned SDG field as from
   * the stored one, for a field without U+001C..U+001F (see SeparatorPaddedGoal).
   */
  lemma NormalizeSdgKeepsGoals(row: Row, value: string)
    requires row.sdg == Some(value)
    requires !HasSeparatorControl(value)
    ensures RowGoals(row.(sdg := Some(NormalizeSdg(value)))) == RowGoals(row)
  {
    var parts := Split(value, ',');
    PiecesWithoutSeparatorControl(value);
    var tokens := StrippedTokens(parts);
    GoalNumbersOfStrippedTokens(parts);
    NormalizeSdgTokens(value);
    StrippedTokensSpec(parts);
    if value == "" {
      assert parts == [""];
      assert tokens == [];
    } else if tokens == [] {
      assert GoalNumbers([]) == [];
    }
  }

  lemma SplitOfPadded()
    ensures Split("5", ',') == ["5"]
    ensures Split("\U{1c}5", ',') == ["\U{1c}5"]
  {
    var five: string := "5";
    var padded: string := "\U{1c}5";
    assert Split(five, ',') == [five] by {
      var rest := Split(five[1..], ',');
      assert five[1..] == [];
      assert rest == [[]];
      assert five[0] != ',';
      assert [five[0]] + rest[0] == five;
      assert rest[1..] == [];
    }
    assert Split(padded, ',') == [padded] by {
      var rest := Split(padded[1..], ',');
      assert padded[1..] == five;
      assert rest == [five];
      assert padded[0] != ',';
      assert [padded[0]] + rest[0] == padded;
      assert rest[1..] == [];
    }
  }

  lemma PaddedPieces()
    ensures !IsBlank("5") && !IsBlank("\U{1c}5")
    ensures StrippedTokens(["\U{1c}5"]) == ["5"]
  {
    SeparatorPaddedNumber();
    var padded: string := "\U{1c}5";
    assert !IsSpace(padded[1]);
    assert !IsSpace("5"[0]);
    assert StrippedTokens([padded][..0]) == [];
  }

  lemma PaddedGoalNumbers()
    ensures GoalNumbers(["\U{1c}5"]) == []
    ensures GoalNumbers(["5"]) == [5]
  {
    SeparatorPaddedNumber();
    PaddedPieces();
    assert ["\U{1c}5"][..0] == [];
    assert ["5"][..0] == [];
  }

  /**
   * Where the clean-up and the dashboards part: a piece padded with U+001C is
   * no goal to int(), but strip() removes the padding, so the cleaned field
   * shows goal 5.
   */
  lemma SeparatorPaddedGoal(row: Row)
    requires row.sdg == Some("\U{1c}5")
    ensures RowGoals(row) == []
    ensures ProgramSdg(row.sdg) == "5"
    ensures RowGoals(row.(sdg := Some(ProgramSdg(row.sdg)))) == [5]
  {
    SplitOfPadded();
    PaddedPieces();
    PaddedGoalNumbers();
    assert NormalizeSdg("\U{1c}5") == "5";
  }

  // ------------------------------------------------- add_program

  const NoSdgMessage: string := "No SDG values provided."

  /** The sdg column add_program stores for the checked goals, or its 400 error. */
  function SdgFromForm(goals: seq<string>): Result<string, string> {
    if goals == [] then Failure(NoSdgMessage) else Success(Join(goals, ","))
  }

  /** The form is refused exactly when no goal is checked; otherwise splitting the stored field gives the goals back. */
  lemma SdgFromFormSpec(goals: seq<string>)
    ensures SdgFromForm(goals).Failure? <==> goals == []
    ensures SdgFromForm(goals).Failure? ==> SdgFromForm(goals).error == NoSdgMessage
    ensures goals != [] && (forall i :: 0 <= i < |goals| ==> ',' !in goals[i])
            ==> Split(SdgFromForm(goals).value, ',') == goals
  {
    if goals != [] && (forall i :: 0 <= i < |goals| ==> ',' !in goals[i]) {
      JoinThenSplit(goals, ',');
    }
  }

  /** SQL's MAX(projectid): NULL over no rows. */
  function MaxId(ids: seq<int>): Option<int> {
    if ids == [] then None
    else
      var last := ids[|ids| - 1];
      match MaxId(ids[..|ids| - 1])
      case None => Some(last)
      case Some(m) => Some(if last > m then last else m)
  }

  /** `ISNULL(MAX(projectid), 0) + 1`. */
  function NextId(ids: seq<int>): int {
    match MaxId(ids)
    case None => 0 + 1
    case Some(m) => m + 1
  }

  lemma {:induction false} MaxIdSpec(ids: seq<int>)
    ensures MaxId(ids).None? <==> ids == []
    ensures MaxId(ids).Some? ==> MaxId(ids).value in ids
    ensures MaxId(ids).Some? ==> forall i :: 0 <= i < |ids| ==> ids[i] <= MaxId(ids).value
  {
    if ids != [] {
      var init := ids[..|ids| - 1];
      MaxIdSpec(init);
      assert ids == init + [ids[|ids| - 1]];
    }
  }

  /** The new id is above every existing id: 1 on an empty table, one past the largest id otherwise. */
  lemma NextIdFresh(ids: seq<int>)
    ensures forall i :: 0 <= i < |ids| ==> ids[i] < NextId(ids)
    ensures NextId(ids) !in ids
    ensures ids == [] ==> NextId(ids) == 1
    ensures ids != [] ==> NextId(ids) - 1 in ids
  {
    MaxIdSpec(ids);
  }

  /** Inserting under the new id keeps the ids distinct. */
  lemma NextIdKeepsDistinct(ids: seq<int>)
    requires Distinct(ids)
    ensures Distinct(ids + [NextId(ids)])
  {
    NextIdFresh(ids);
    var ext := ids + [NextId(ids)];
    forall i, j | 0 <= i < j < |ext|
      ensures ext[i] != ext[j]
    {
      if j == |ids| {
        assert ext[i] == ids[i];
      }
    }
  }

  // ------------------------------------------------- edit_program

  /** The columns edit_program may set, in the order its data dict lists them. */
  const UpdateFields: seq<string> := [
    "title", "projectlocation", "leader", "assistant", "members", "projectdate",
    "duration", "projectstatus", "link", "x", "y", "sdg", "collegecampus"]

  /** Comma-free goals come back from their comma join one for one. */
  lemma JoinSplitsBack(goals: seq<string>)
    requires goals != []
    ensures (forall i :: 0 <= i < |goals| ==> ',' !in goals[i]) ==> Split(Join(goals, ","), ',') == goals
  {
    if forall i :: 0 <= i < |goals| ==> ',' !in goals[i] {
      JoinThenSplit(goals, ',');
    }
  }

  /** The sdg value of the update: the checked goals joined with commas, None when none is checked. */
  function SdgForEdit(goals: seq<string>): (sdg: Option<string>)
    ensures sdg.None? <==> goals == []
    ensures goals != [] ==> SdgFromForm(goals).Success? && sdg == Some(SdgFromForm(goals).value)
    ensures goals != [] && (forall i :: 0 <= i < |goals| ==> ',' !in goals[i]) ==> Split(sdg.value, ',') == goals
  {
    if goals == [] then None
    else
      JoinSplitsBack(goals);
      Some(Join(goals, ","))
  }

  /** The value the data dict holds for a column before the None filter (`request.form.get` or the SDG join). */
  function Proposed(form: map<string, string>, goals: seq<string>, key: string): Option<string> {
    if key == "sdg" then SdgForEdit(goals)
    else if key in form then Some(form[key])
    else None
  }

  /** The data dict after `{k: v for k, v in data.items() if v is not None}`. */
  function Supplied(form: map<string, string>, goals: seq<string>, keys: seq<string>): seq<(string, string)> {
    if keys == [] then []
    else
      var kept := Supplied(form, goals, keys[..|keys| - 1]);
      var key := keys[|keys| - 1];
      match Proposed(form, goals, key)
      case None => kept
      case Some(v) => kept + [(key, v)]
  }

  function Keys(pairs: seq<(string, string)>): (keys: seq<string>)
    ensures |keys| == |pairs|
    ensures forall i :: 0 <= i < |pairs| ==> keys[i] == pairs[i].0
  {
    seq(|pairs|, i requires 0 <= i < |pairs| => pairs[i].0)
  }

  /** `", ".join(f"{key} = ?" for key in keys)`, one assignment per supplied column. */
  function SetClause(keys: seq<string>): string {
    Join(Assignments(keys), ", ")
  }

  function Assignments(keys: seq<string>): (parts: seq<string>)
    ensures |parts| == |keys|
  {
    if keys == [] then [] else [keys[0] + " = ?"] + Assignments(keys[1..])
  }

  const QueryHead: string := "UPDATE dbo.Projects SET "
  const QueryTail: string := " WHERE projectid = ?"

  function UpdateQuery(keys: seq<string>): string {
    QueryHead + SetClause(keys) + QueryTail
  }

  /** One bound parameter of the UPDATE. */
  datatype Param = Text(text: string) | Id(id: int)

  /** `list(data.values()) + [projectid]`. */
  function UpdateParams(pairs: seq<(string, string)>, projectid: int): (params: seq<Param>)
    ensures |params| == |pairs| + 1
  {
    seq(|pairs|, i requires 0 <= i < |pairs| => Text(pairs[i].1)) + [Id(projectid)]
  }

  /** The number of occurrences of c in s. */
  function CountOf(s: string, c: char): nat {
    if s == [] then 0 else CountOf(s[..|s| - 1], c) + (if s[|s| - 1] == c then 1 else 0)
  }

  lemma {:induction false} CountOfConcat(a: string, b: string, c: char)
    ensures CountOf(a + b, c) == CountOf(a, c) + CountOf(b, c)
  {
    if b == [] {
      assert a + b == a;
    } else {
      CountOfConcat(a, b[..|b| - 1], c);
      assert (a + b)[..|a + b| - 1] == a + b[..|b| - 1];
    }
  }

  lemma {:induction false} CountOfAbsent(s: string, c: char)
    requires c !in s
    ensures CountOf(s, c) == 0
  {
    if s != [] {
      assert s == s[..|s| - 1] + [s[|s| - 1]];
      CountOfAbsent(s[..|s| - 1], c);
    }
  }

  lemma {:induction false} SuppliedSpec(form: map<string, string>, goals: seq<string>, keys: seq<string>)
    ensures forall k :: k in Keys(Supplied(form, goals, keys)) <==> k in keys && Proposed(form, goals, k).Some?
    ensures forall i :: 0 <= i < |Supplied(form, goals, keys)| ==>
              Proposed(form, goals, Supplied(form, goals, keys)[i].0) == Some(Supplied(form, goals, keys)[i].1)
    ensures Distinct(keys) ==> Distinct(Keys(Supplied(form, goals, keys)))
  {
    if keys != [] {
      var init := keys[..|keys| - 1];
      var key := keys[|keys| - 1];
      SuppliedSpec(form, goals, init);
      assert keys == init + [key];
      var kept := Supplied(form, goals, init);
      if Proposed(form, goals, key).Some? {
        var pairs := kept + [(key, Proposed(form, goals, key).value)];
        assert Keys(pairs) == Keys(kept) + [key];
        if Distinct(keys) {
          assert key !in init;
        }
      }
    }
  }

  lemma {:induction false} CountOfSetClause(keys: seq<string>)
    requires forall i :: 0 <= i < |keys| ==> '?' !in keys[i]
    ensures CountOf(SetClause(keys), '?') == |keys|
  {
    if keys != [] {
      var head := keys[0] + " = ?";
      assert CountOf(head, '?') == 1 by {
        CountOfConcat(keys[0], " = ?", '?');
        CountOfAbsent(keys[0], '?');
        CountOfConcat(" = ", ['?'], '?');
        CountOfAbsent(" = ", '?');
        assert " = ?" == " = " + ['?'];
        assert ['?'][..0] == [];
      }
      if |keys| > 1 {
        CountOfSetClause(keys[1..]);
        assert Assignments(keys)[1..] == Assignments(keys[1..]);
        assert SetClause(keys) == head + ", " + SetClause(keys[1..]);
        CountOfConcat(head + ", ", SetClause(keys[1..]), '?');
        CountOfConcat(head, ", ", '?');
        CountOfAbsent(", ", '?');
      }
    }
  }

  lemma UpdateFieldsFacts()
    ensures Distinct(UpdateFields)
    ensures forall i :: 0 <= i < |UpdateFields| ==> '?' !in UpdateFields[i]
  {
  }

  /** The fixed text around the SET clause holds only the id's placeholder, at the very end. */
  lemma QueryTextFacts()
    ensures '?' !in QueryHead
    ensures QueryTail == QueryTail[..|QueryTail| - 1] + ['?']
    ensures '?' !in QueryTail[..|QueryTail| - 1]
  {
  }

  /** The query holds one placeholder per assignment plus the one for the project id. */
  lemma {:induction false} CountOfUpdateQuery(keys: seq<string>)
    requires forall i :: 0 <= i < |keys| ==> '?' !in keys[i]
    ensures CountOf(UpdateQuery(keys), '?') == |keys| + 1
  {
    QueryTextFacts();
    CountOfSetClause(keys);
    CountOfConcat(QueryHead + SetClause(keys), QueryTail, '?');
    CountOfConcat(QueryHead, SetClause(keys), '?');
    CountOfAbsent(QueryHead, '?');
    CountOfConcat(QueryTail[..|QueryTail| - 1], ['?'], '?');
    assert ['?'][..0] == [];
    CountOfAbsent(QueryTail[..|QueryTail| - 1], '?');
  }

  /**
   * The query built from the supplied pairs of any '?'-free, duplicate-free
   * column list has one placeholder per bound parameter, the last parameter is
   * the project id, and each earlier one is the value proposed for the column
   * its assignment names.
   */
  lemma QueryLinesUp(form: map<string, string>, goals: seq<string>, fields: seq<string>, projectid: int)
    requires Distinct(fields)
    requires forall i :: 0 <= i < |fields| ==> '?' !in fields[i]
    ensures var pairs := Supplied(form, goals, fields);
            var params := UpdateParams(pairs, projectid);
            && CountOf(UpdateQuery(Keys(pairs)), '?') == |params|
            && params[|params| - 1] == Id(projectid)
            && (forall i :: 0 <= i < |pairs| ==>
                  params[i] == Text(pairs[i].1) && Proposed(form, goals, Keys(pairs)[i]) == Some(pairs[i].1))
            && Distinct(Keys(pairs))
            && (forall k :: k in Keys(pairs) <==> k in fields && Proposed(form, goals, k).Some?)
  {
    var pairs := Supplied(form, goals, fields);
    SuppliedSpec(form, goals, fields);
    var keys := Keys(pairs);
    forall i | 0 <= i < |keys|
      ensures '?' !in keys[i]
    {
      assert keys[i] in keys;
    }
    CountOfUpdateQuery(keys);
  }

  /**
   * edit_program's query lines up with its parameters, and a column appears in
   * its SET clause at most once and exactly when the form supplied it (the sdg
   * column when a goal is checked).
   */
  lemma UpdateQueryLinesUp(form: map<string, string>, goals: seq<string>, projectid: int)
    ensures var pairs := Supplied(form, goals, UpdateFields);
            var params := UpdateParams(pairs, projectid);
            && CountOf(UpdateQuery(Keys(pairs)), '?') == |params|
            && params[|params| - 1] == Id(projectid)
            && (forall i :: 0 <= i < |pairs| ==>
                  params[i] == Text(pairs[i].1) && Proposed(form, goals, Keys(pairs)[i]) == Some(pairs[i].1))
            && Distinct(Keys(pairs))
            && (forall k :: k in Keys(pairs) <==> k in UpdateFields && Proposed(form, goals, k).Some?)
  {
    UpdateFieldsFacts();
    QueryLinesUp(form, goals, UpdateFields, projectid);
  }

  /** The SET clause is empty exactly when the form supplies no column and checks no goal. */
  lemma EmptyUpdate(form: map<string, string>, goals: seq<string>)
    ensures Supplied(form, goals, UpdateFields) == []
            <==> goals == [] && forall i :: 0 <= i < |UpdateFields| && UpdateFields[i] != "sdg" ==> UpdateFields[i] !in form
  {
    var pairs := Supplied(form, goals, UpdateFields);
    SuppliedSpec(form, goals, UpdateFields);
    if pairs != [] {
      assert pairs[0].0 in Keys(pairs);
    } else {
      forall i | 0 <= i < |UpdateFields|
        ensures Proposed(form, goals, UpdateFields[i]).None?
      {
        assert UpdateFields[i] !in Keys(pairs);
      }
      assert Proposed(form, goals, "sdg").None?;
    }
  }

  // ------------------------------------------------- the UPDATE's effect

  /** A stored project, column name to value. */
  type Record = map<string, string>

  /**
   * What the UPDATE does: the new table, no row with that id (the 404 reply), or
   * a statement with an empty SET list that the database refuses (the 500 reply).
   */
  datatype EditOutcome = Updated(table: map<int, Record>) | NotFound | Rejected

  /** The record after `SET key = value` for each pair in turn. */
  function Assign(record: Record, pairs: seq<(string, string)>): Record {
    if pairs == [] then record
    else Assign(record, pairs[..|pairs| - 1])[pairs[|pairs| - 1].0 := pairs[|pairs| - 1].1]
  }

  function ApplyUpdate(table: map<int, Record>, projectid: int, pairs: seq<(string, string)>): EditOutcome {
    if pairs == [] then Rejected
    else if projectid in table then Updated(table[projectid := Assign(table[projectid], pairs)])
    else NotFound
  }

  lemma {:induction false} AssignSpec(record: Record, pairs: seq<(string, string)>)
    requires Distinct(Keys(pairs))
    ensures forall i :: 0 <= i < |pairs| ==> pairs[i].0 in Assign(record, pairs) && Assign(record, pairs)[pairs[i].0] == pairs[i].1
    ensures forall k :: k !in Keys(pairs) ==> (k in Assign(record, pairs) <==> k in record)
    ensures forall k :: k !in Keys(pairs) && k in record ==> Assign(record, pairs)[k] == record[k]
  {
    if pairs != [] {
      var init := pairs[..|pairs| - 1];
      assert Keys(init) == Keys(pairs)[..|pairs| - 1];
      AssignSpec(record, init);
      forall k | k in Keys(init)
        ensures k in Keys(pairs)
      {
        var i :| 0 <= i < |init| && Keys(init)[i] == k;
        assert Keys(pairs)[i] == k;
      }
    }
  }

  /**
   * edit_program on a table: Rejected exactly when the form supplies no column
   * (the statement reads `SET  WHERE`); otherwise NotFound exactly when no row
   * has the id; otherwise
   * only that row changes, each column the form supplied takes the supplied
   * value and every other column keeps its value.
   */
  lemma EditProgramEffect(table: map<int, Record>, projectid: int, form: map<string, string>, goals: seq<string>)
    ensures var outcome := ApplyUpdate(table, projectid, Supplied(form, goals, UpdateFields));
            && (outcome.Rejected? <==> Supplied(form, goals, UpdateFields) == [])
            && (outcome.NotFound? <==> Supplied(form, goals, UpdateFields) != [] && projectid !in table)
            && (outcome.Updated? ==>
                  && outcome.table.Keys == table.Keys
                  && (forall id :: id in table && id != projectid ==> outcome.table[id] == table[id])
                  && (forall k :: k in UpdateFields && Proposed(form, goals, k).Some? ==>
                        k in outcome.table[projectid] && outcome.table[projectid][k] == Proposed(form, goals, k).value)
                  && (forall k :: !(k in UpdateFields && Proposed(form, goals, k).Some?) ==>
                        (k in outcome.table[projectid] <==> k in table[projectid])
                        && (k in table[projectid] ==> outcome.table[projectid][k] == table[projectid][k])))
  {
    var pairs := Supplied(form, goals, UpdateFields);
    UpdateFieldsFacts();
    SuppliedSpec(form, goals, UpdateFields);
    if pairs != [] && projectid in table {
      AssignSpec(table[projectid], pairs);
      var updated := Assign(table[projectid], pairs);
      forall k | k in UpdateFields && Proposed(form, goals, k).Some?
        ensures k in updated && updated[k] == Proposed(form, goals, k).value
      {
        assert k in Keys(pairs);
        var i :| 0 <= i < |pairs| && Keys(pairs)[i] == k;
      }
    }
  }
}
