# SDG project tracker: dashboard aggregation and program helpers

This project models the data-handling core of a Flask application. The
application records university extension projects (programs) and the United
Nations Sustainable Development Goals (SDGs) each one serves. The model
covers:

- **The dashboard aggregator.** The `/dashboard` and `/dashboard2` routes
  (`login.py`) read four columns of every project row: `sdg`,
  `projectstatus`, `collegecampus` and `projectdate`. From them they compute:
  - a per-goal table of completed and in-progress counts for goals 1 to 17;
  - the project total and the two status totals;
  - a per-campus doughnut chart;
  - a per-year line chart that starts in 2020.

  The model is the loop itself: `Dashboard.Aggregate`, with one `Route` flag
  for the two variants. It is proved against reference definitions
  (`DashboardSpec`). The properties of those definitions are lemmas in
  `DashboardProperties`.
- **`get_program`'s clean-up of the SDG field.** It strips each
  comma-separated piece and drops the blank ones (`Programs`).
- **`add_program`.** It joins the submitted goals, refuses an empty list, and
  builds the new project id as `ISNULL(MAX(projectid), 0) + 1` (`Programs`).
- **`edit_program`.** It drops the form fields that were not sent, builds the
  `UPDATE` statement and its parameter list, and models the effect of that
  statement on the table, including the 404 when no row has the id
  (`Programs`).
- **`get_db_connection`.** It chooses the ODBC connection string from the
  environment settings (`Connection`).
- **`get_project_locations`.** It turns each row into a dictionary, renders
  the values as text, renames `x`/`y` to `lng`/`lat` and prefixes the PDF
  link (`Locations`, as imperative methods over an insertion-ordered
  dictionary model).

Supporting modules:
- `Wrappers`: `Option` and `Result`.
- `PyText`: the Python string operations the code relies on: `str.isspace`,
  `strip`, `split`, `join`, `int()` and `str(int)`, with their round trips.
- `Dates`: the two `datetime.strptime` formats `"%B %Y"` and
  `"%B %d, %Y"`, reduced to the year they yield.
- `Collections`: `Distinct`, `Occurrences` and `Sum`.

Behaviour the model makes explicit:
- Both routes skip a blank SDG piece and a piece `int()` rejects.
- A whole number outside 1..17 under a tracked status is not skipped. It
  raises `KeyError` on `sdg_stats[...]`, so the whole request ends in the
  500 error result (`DashboardProperties.OutOfRangeTagEndsRequest`).
- On `/dashboard2`, a NULL `sdg` or a NULL `collegecampus` raises
  `AttributeError` for the same reason. `/dashboard` survives both.
- `/dashboard` counts statuses once per row. `/dashboard2` counts them once
  per goal tag. The two agree when every row carries exactly one goal.
- All counters are unbounded Python integers, which the model writes as `nat`.

## Model

| member | source | states |
|---|---|---|
| Dashboard.Aggregate | login.py:138-207 | The request fails exactly when some row raises. The exception reported is the first one raised, in row order. Otherwise the rendered values are those `Summarizes` defines: per-goal tallies, total, status totals, campus labels and counts, year axis and series. |
| Dashboard.ReadGoal | login.py:167-174 | The number read from one SDG piece is exactly what `int(piece)` gives, with `int()`'s own whitespace rule. A blank piece yields none. |
| Dashboard.TallyOne | login.py:176-179 | One goal number: the call raises iff the status is tracked and the number is not in 1..17. Otherwise exactly that goal's counter for the status goes up by one; all other counters are unchanged. With per-tag counting, the status total also goes up by one. |
| Dashboard.TallyGoals | login.py:282-293 | The pieces of one SDG field. The fault is the first non-goal number, and only under a tracked status. Otherwise each goal's counter grows by the number of times it is tagged, and the per-tag status totals grow by the number of tags read. |
| Dashboard.CountGoals | login.py:158-179 | One row's status and goal step keeps the per-goal and status totals equal to the reference counts over the rows so far, or reports that row's goal fault. |
| Dashboard.CountCampus | login.py:295-297 | One row's campus step keeps the labels in first-seen order and the counts equal to the reference per-campus counts. |
| Dashboard.CountYear | login.py:189-198 | One row's date step adds one to the year strptime reads from the date. An empty, NULL or unparsable date changes nothing. |
| Dashboard.MaxKey | login.py:204 | `max(keys, default=...)`: the default for no keys. Otherwise a key that no key exceeds. |
| Dashboard.EndYearFromKeys | login.py:203-204 | The end year computed from the `yearly_programs` keys is the reference `EndYear`: the largest parsed year, or 2020 when none was parsed. |
| Dashboard.ProgramCounts | login.py:323-327 | One count per axis year: that year's total, or 0 when the year has no entry. |
| Dashboard.Charts | login.py:200-207 | The chart data prepared after the loop satisfies `Summarizes`. |
| Dates.ParseYearInRange | login.py:192-195 | A year read by either format lies in 1..9999. |
| Dates.ParseMonthYearText | login.py:192 | "<month name> <four-digit year>" parses to that year. |
| Dates.ParseMonthDayYearText | login.py:194-195 | "<month name> <day>, <four-digit year>" with a day valid for that month parses, through the second format, to that year. |
| Dates.SampleDates | login.py:302-307 | The two sample dates in the source comments, "March 2024" and "March 14, 2022", give 2024 and 2022. |
| PyText.BlankIffAllSpace | login.py:168 | `not s.strip()` holds exactly when every character of s is whitespace. |
| PyText.ParseShowInt | login.py:171 | `int(str(n)) == n` for every integer n. |
| PyText.ParseIntOfBlank | login.py:168-171 | `int()` rejects every blank piece. |
| PyText.ParseIntOfStrip | login.py:171 | Stripping before `int()` changes nothing when `int()` accepts the text, or when the text holds no U+001C..U+001F. |
| PyText.SeparatorPaddedNumber | login.py:171 | `int("\x1c5")` fails, although `"\x1c5".strip()` is "5", which `int()` reads as 5. |
| PyText.StripIdempotent | login.py:579 | Stripping twice is stripping once. |
| PyText.SplitThenJoin | login.py:148 | Joining the pieces of `s.split(sep)` with sep gives back s. |
| PyText.JoinThenSplit | login.py:501 | Splitting a join of separator-free pieces gives back the pieces. |
| DashboardProperties.FirstFaultIsFirstRowFault | login.py:224-226 | No exception iff no row raises. Otherwise the reported exception is the one raised by the first failing row, and every earlier row is clean. |
| DashboardProperties.DashboardFaultIsKeyError | login.py:176-179 | On `/dashboard` the only exception is `KeyError`. It happens iff some row with a tracked status carries a number outside 1..17. |
| DashboardProperties.ShownTagReadsBack | login.py:274-285 | An SDG field holding one integer splits into that one piece and reads back as that integer. |
| DashboardProperties.OutOfRangeTagEndsRequest | login.py:288-292 | A row under a tracked status whose first number outside 1..17 is n ends the request with `KeyError(n)`, when every earlier row is clean. The number may sit anywhere in the field, after blank, unreadable or in-range pieces. |
| DashboardProperties.ShownOutOfRangeTagEndsRequest | login.py:288-292 | In particular, a row whose SDG field is `str(n)` with n outside 1..17 ends the request with `KeyError(n)`. |
| DashboardProperties.DashboardStatusTotals | login.py:158-164 | On `/dashboard`, the total is the number of rows, and the two status totals add up to at most that. They equal it iff every row's status is tracked. |
| DashboardProperties.Dashboard2StatusTotals | login.py:288-293 | On `/dashboard2`, each status total equals the sum of that status's column of the per-goal table. |
| DashboardProperties.SingleTagRowsAgree | login.py:288-293 | When every row carries exactly one goal number, the per-tag totals of `/dashboard2` equal the per-row totals of `/dashboard`. |
| DashboardProperties.GoalCountIsTokenCount | login.py:282-289 | The times a number is read from a field equal the number of pieces that `int()` maps to it. |
| DashboardProperties.GoalTallyOfNextRow | login.py:167-179 | Adding a row adds to a goal's tally for its status exactly that row's tags of the goal. Tallies for other statuses are unchanged. |
| DashboardSpec.BlankCheckIsRedundant | login.py:168-174 | The blank check before `int()` changes no outcome: the number read equals `int(piece)`. |
| DashboardProperties.CampusLabelsFirstSeen | login.py:201 | A campus is a label iff some counted row has it. Labels are distinct and ordered by the first row that has them. |
| DashboardProperties.CampusChart | login.py:201-202 | Labels and data have equal length. The labels are distinct and in first-seen order. The data add up to the counted rows, and on `/dashboard` to every row. |
| DashboardProperties.EveryRowCountedOnDashboard | login.py:182 | `/dashboard` counts every row's campus, NULL included. |
| DashboardProperties.Dashboard2CampusesFilterDashboard | login.py:296-297 | The `/dashboard2` labels are the `/dashboard` labels without NULL and blank campuses. Every non-blank campus has the same count on both routes. |
| DashboardProperties.YearAxisHolds | login.py:203-205 | The year axis is distinct. It holds exactly the years from 2020 to the end year. |
| DashboardProperties.YearChart | login.py:203-207 | Years run consecutively from 2020 to the end year. The axis is [2020] with count 0 when no date parsed, and empty when every parsed year precedes 2020. Each count is the number of rows dated in that year. Every parsed year from 2020 on is on the axis, and the counts add up to the rows dated since 2020. |
| DashboardProperties.UndatedRowCountsElsewhere | login.py:158-198 | A row whose date does not parse leaves the year chart unchanged. It still counts in its campus bar (when the route counts its campus), in its status total on either route (once on `/dashboard`, once per goal tag on `/dashboard2`) and in its goal tallies. |
| DashboardProperties.NullSdgOnlyBreaksDashboard2 | login.py:274 | A NULL `sdg` raises `AttributeError` on `/dashboard2` and nothing on `/dashboard`. |
| DashboardProperties.Dashboard2SuccessImpliesDashboardSuccess | login.py:273-297 | Rows that `/dashboard2` processes without an exception are processed by `/dashboard` without one. |
| DashboardProperties.RoutesAgree | login.py:259-327 | When both routes succeed on the same rows, they agree on the per-goal table, the total and the year chart. |
| Programs.ProgramSdg | login.py:574-580 | The shown SDG is "" iff the column is NULL or every comma piece is blank. Otherwise every comma piece of the shown value is non-empty and carries no surrounding whitespace. Cleaning the shown value again changes nothing. |
| Programs.StrippedTokensSpec | login.py:579 | The kept tokens are stripped and non-blank, and none is kept iff every piece is blank. Comma-free pieces give comma-free tokens. |
| Programs.NormalizeSdgTokens | login.py:578-580 | The normalised field is "" iff no token survives. Otherwise it splits back into exactly the surviving tokens. |
| Programs.NormalizeSdgClean | login.py:578-580 | The normalised field is "" iff every piece is blank. Otherwise every piece of it is a clean token. |
| Programs.NormalizeSdgIdempotent | login.py:578-580 | Normalising twice is normalising once. |
| Programs.NormalizeSdgKeepsGoals | login.py:578-580 | For a field without the separator controls U+001C..U+001F, normalising it does not change the goal numbers the dashboards read from it. |
| Programs.SeparatorPaddedGoal | login.py:578-580 | For the field "\x1c5", the dashboards read no goal, but the normalised field reads goal 5. So the precondition of `NormalizeSdgKeepsGoals` is needed. |
| Programs.SdgFromFormSpec | login.py:495-501 | An empty goal list is refused with "No SDG values provided.". Any other list is accepted, and comma-free goals split back from the joined string. |
| Programs.MaxIdSpec | login.py:509-511 | `MAX(projectid)` is NULL iff the table is empty. Otherwise it is an id no other id exceeds. |
| Programs.NextIdFresh | login.py:509-511 | The new id exceeds every existing id, so it is unused. It is 1 for an empty table and otherwise the maximum plus one. |
| Programs.NextIdKeepsDistinct | login.py:509-511 | Adding the new id to distinct ids keeps them distinct. |
| Programs.SdgForEdit | login.py:642-643 | The SDG value is absent iff no goal was submitted. Otherwise it is the value `add_program` stores for the same goals, and comma-free goals split back from it one for one. |
| Programs.SuppliedSpec | login.py:646-663 | A column is kept iff a value was submitted for it, an empty text included. Each kept column carries its submitted value, and distinct columns stay distinct. |
| Programs.CountOfUpdateQuery | login.py:666-667 | The query has one placeholder per kept column plus one for the id. |
| Programs.QueryLinesUp | login.py:666-670 | For any distinct placeholder-free column list, the placeholders equal the parameters in number. The parameters are the kept values in column order, then the id. |
| Programs.UpdateQueryLinesUp | login.py:646-670 | For the thirteen editable columns: the placeholders equal the parameters in number, the last parameter is the project id, the kept columns are distinct, and a column is set iff it was submitted. |
| Programs.EmptyUpdate | login.py:646-667 | No column is kept iff no goal and none of the twelve other fields was submitted. |
| Programs.AssignSpec | login.py:673 | Assigning distinct columns sets each to its value and keeps every other column of the record. |
| Programs.EditProgramEffect | login.py:664-688 | The database rejects the statement (the 500 outcome) iff no column is supplied. Otherwise an unknown id gives the 404 outcome. Otherwise only that row changes: its submitted columns take the submitted values and its other columns are kept. |
| Connection.ConnectionPrecedence | login.py:48-56 | A non-empty `DB_CONN_STRING` is used verbatim. Otherwise the built string splits on ';' into DRIVER, SERVER and DATABASE. Those are followed by UID and PWD when both are non-empty, and by `Trusted_Connection=yes` when either is empty. |
| Connection.BuiltIsJoin | login.py:51-54 | A built connection string is its attributes joined with ';'. |
| Connection.DefaultConnection | login.py:22-27 | With no environment settings, the SQLEXPRESS defaults and Windows authentication are used. |
| Locations.RenderSpec | login.py:463-469 | NULL renders as "" and text is kept. An integer renders as text that `int()` reads back. |
| Locations.PutValid | login.py:471 | Assigning a key keeps the dictionary well formed: its key order lists each key once, exactly the keys present. |
| Locations.RemoveValid | login.py:471-472 | `pop` removes exactly that key and keeps every other entry. |
| Locations.ZipKeys | login.py:461 | `dict(zip(columns, row))` is well formed. Its keys are the paired columns. |
| Locations.ZipValue | login.py:461 | A paired column that is not repeated later maps to its own value. |
| Locations.RenameSpec | login.py:471-472 | `d[b] = d.pop(a)` moves a's value to b and keeps the other entries. A new b goes to the end. |
| Locations.PrefixLinkSpec | login.py:474-475 | A non-empty text link gets the "/static/pdfs/" prefix. Every other entry, and the order, are kept. |
| Locations.RelocateSpec | login.py:471-475 | The step fails iff `x` or `y` is missing. Otherwise `x` and `y` are gone and `lng` and `lat` are present. |
| Locations.RelocateValues | login.py:471-475 | `lng` holds x's value and `lat` holds y's. The link is prefixed, and every other column keeps its value. |
| Locations.RelocateOrder | login.py:471-472 | The keys keep their order without `x` and `y`, with `lng` and `lat` appended. |
| Locations.RenderAllSpec | login.py:463-469 | Rendering all values keeps the keys and their order. It replaces each value by its text. |
| Locations.LocationSpec | login.py:460-477 | A row fails iff its `x` or `y` column is missing. A projected row holds text only. |
| Locations.LocationValues | login.py:460-477 | `lng` and `lat` hold the rendered coordinates. The link is the prefixed rendered link when that is non-empty. Every other column holds its rendered value. |
| Locations.RenderValues | login.py:463-469 | The rendering loop produces `RenderAll` of the row dictionary. |
| Locations.ProjectRow | login.py:461-477 | The imperative per-row body produces `LocationOf` of the row. |
| Locations.ListingSpec | login.py:460-484 | Any failing row makes the result `[]`. Otherwise the result holds one projected row per input row, in order. |
| Locations.ProjectLocations | login.py:460-484 | The loop returns `Listing`: every row projected in order, or `[]` on the first failure. |

## Left out

- The web layer is not modelled: Flask routing, sessions, login checks, `flash`, redirects, templates and `jsonify` bodies. A route's outcome is the `Result` or `EditOutcome` value.
- SQL execution is not modelled. The rows the queries return are inputs. The `WHERE` filters of the dashboard queries (`sdg IS NOT NULL`, the two statuses) and of the locations query (`x`/`y IS NOT NULL`) are not assumed, so the model also covers rows those filters would exclude.
- Environment variables are a `map` parameter; the process environment is not read.
- `print` logging and the debug output inside the loops are left out.
- `datetime.strftime` and `str(float)` are not modelled: `Locations.Value` carries a date's and a float's formatted text. `Decimal`, bytes and other column types are not modelled.
- Python's `int()` is modelled for ASCII digits with an optional sign, surrounded by any whitespace `str.isspace` accepts except U+001C..U+001F. Like CPython, it rejects any text that holds U+001C..U+001F, which `str.strip` does treat as whitespace. Unicode digits and `_` separators are not modelled. Neither is CPython's limit of 4300 digits for `int()` of a string, above which it raises `ValueError`. The model reads a longer digit string as its value.
- Programs.NormalizeSdgKeepsGoals: the goal numbers are stated to be kept only for a field without U+001C..U+001F. In a field that holds them, `strip` can remove such padding, so the cleaned piece reads as a number while the stored piece does not. `Programs.SeparatorPaddedGoal` shows this.
- `strptime` is modelled with ASCII case-insensitive English month names, a four-digit `%Y`, and a `%d` of one or two digits. A space before a one-digit day is taken by the greedy whitespace match before `%d`, as `Dates` does with TrimLeft. Unicode digits and case folding are not modelled.
- The race between two concurrent `add_program` calls reading the same maximum id is not modelled. Neither is the `INSERT` itself.
- Exceptions other than the modelled `KeyError` and `AttributeError` are not modelled. This includes database and driver errors, which all end in the generic 500 result.
- When no field is submitted, `edit_program` builds `UPDATE dbo.Projects SET  WHERE projectid = ?`. The model takes it that the database rejects that text, and returns the `Rejected` outcome (the 500 reply). `Programs.EmptyUpdate` states when that happens. The error message itself is not modelled.
- In `get_project_locations`, only the missing `x`/`y` failure is modelled, as returning `[]`. Other exceptions are not.
- Connection.ConnectionPrecedence: the split-back half of the contract needs settings free of ';'. A setting that contains ';' makes the ODBC string ambiguous, so no split-back is stated for it. The verbatim and built strings themselves are stated for all settings through `Connection.BuiltIsJoin`.
- Programs.SdgFromFormSpec: the split round trip is stated only for goals without commas. A goal containing a comma cannot be recovered from the joined string.
- Programs.SdgForEdit: the same holds for its split round trip.
