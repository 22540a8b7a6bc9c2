/**
 * get_project_locations: each project row becomes a JSON object whose values
 * are all strings, with the coordinates x and y renamed lng and lat and a
 * non-empty link turned into the path of the uploaded PDF.
 */
module Locations {
  import opened Wrappers
  import opened PyText
  import opened Collections

  /** A column value as the database driver hands it over. */
  datatype Value =
    | Null
    | Text(text: string)
    | Int(number: int)
    | Bool(flag: bool)
    | Float(shown: string)   // the float together with the text str() gives for it
    | Stamp(formatted: string)   // a datetime together with its strftime("%Y-%m-%d") text

  /** The string a value becomes in the projection; text is left as it is. */
  function Render(v: Value): string {
    match v
    case Null => ""
    case Text(t) => t
    case Int(n) => ShowInt(n)
    case Bool(b) => if b then "True" else "False"
    case Float(shown) => shown
    case Stamp(formatted) => formatted
  }

  /** NULL becomes "", text is kept, and an integer column reads back with int(). */
  lemma RenderSpec(v: Value)
    ensures v.Null? ==> Render(v) == ""
    ensures v.Text? ==> Render(v) == v.text
    ensures v.Int? ==> ParseInt(Render(v)) == Some(v.number)
  {
    if v.Int? {
      ParseShowInt(v.number);
    }
  }

  // ------------------------------------------------- Python dicts

  /** A Python dict: its keys in insertion order and the value under each key. */
  datatype Dict = Dict(order: seq<string>, entries: map<string, Value>)

  /** A dict's keys are distinct and are exactly the keys with an entry. */
  ghost predicate Valid(d: Dict) {
    Distinct(d.order) && forall k :: k in d.entries <==> k in d.order
  }

  const Empty: Dict := Dict([], map[])

  /** `d[k] = v`: a new key goes to the end, an existing key keeps its place. */
  function Put(d: Dict, k: string, v: Value): (r: Dict)
    ensures r.entries == d.entries[k := v]
    ensures k in d.entries ==> r.order == d.order
    ensures k !in d.entries ==> r.order == d.order + [k]
  {
    if k in d.entries then d.(entries := d.entries[k := v]) else Dict(d.order + [k], d.entries[k := v])
  }

  /** The keys of order other than k, in order. */
  function Without(order: seq<string>, k: string): (rest: seq<string>)
    ensures |rest| <= |order|
  {
    if order == [] then []
    else Without(order[..|order| - 1], k) + (if order[|order| - 1] == k then [] else [order[|order| - 1]])
  }

  /** The dict after `d.pop(k)` has taken the entry out. */
  function Remove(d: Dict, k: string): Dict {
    Dict(Without(d.order, k), d.entries - {k})
  }

  lemma {:induction false} WithoutSpec(order: seq<string>, k: string)
    ensures forall j :: j in Without(order, k) <==> j in order && j != k
    ensures Distinct(order) ==> Distinct(Without(order, k))
  {
    if order != [] {
      var init := order[..|order| - 1];
      var last := order[|order| - 1];
      WithoutSpec(init, k);
      assert order == init + [last];
      if Distinct(order) {
        assert Distinct(init);
        assert last !in init;
      }
    }
  }

  lemma PutValid(d: Dict, k: string, v: Value)
    requires Valid(d)
    ensures Valid(Put(d, k, v))
  {
  }

  lemma RemoveValid(d: Dict, k: string)
    requires Valid(d)
    ensures Valid(Remove(d, k))
    ensures k !in Remove(d, k).entries
    ensures forall j :: j != k && j in d.entries ==> j in Remove(d, k).entries && Remove(d, k).entries[j] == d.entries[j]
  {
    WithoutSpec(d.order, k);
  }

  /** `dict(zip(columns, row))`: pairs up to the shorter of the two; a repeated column keeps its first place and its last value. */
  function Zip(columns: seq<string>, row: seq<Value>): Dict
    decreases |columns|
  {
    if columns == [] || row == [] then Empty
    else
      var n := if |columns| < |row| then |columns| else |row|;
      Put(Zip(columns[..n - 1], row[..n - 1]), columns[n - 1], row[n - 1])
  }

  /** The number of column/value pairs zip produces. */
  function Paired(columns: seq<string>, row: seq<Value>): nat {
    if |columns| < |row| then |columns| else |row|
  }

  /** dict(zip(...)) is a dict whose keys are the paired columns. */
  lemma {:induction false} ZipKeys(columns: seq<string>, row: seq<Value>)
    ensures Valid(Zip(columns, row))
    ensures forall k :: k in Zip(columns, row).entries <==> k in columns[..Paired(columns, row)]
    decreases |columns|
  {
    if columns != [] && row != [] {
      var n := Paired(columns, row);
      var cs, rs := columns[..n - 1], row[..n - 1];
      assert Paired(cs, rs) == n - 1;
      ZipKeys(cs, rs);
      assert cs[..n - 1] == cs;
      assert columns[..n] == cs + [columns[n - 1]];
      PutValid(Zip(cs, rs), columns[n - 1], row[n - 1]);
    }
  }

  /** A column holds the value paired with its last occurrence. */
  lemma {:induction false} ZipValue(columns: seq<string>, row: seq<Value>, j: nat)
    requires j < Paired(columns, row) && columns[j] !in columns[j + 1..Paired(columns, row)]
    ensures columns[j] in Zip(columns, row).entries && Zip(columns, row).entries[columns[j]] == row[j]
    decreases |columns|
  {
    var n := Paired(columns, row);
    var cs, rs := columns[..n - 1], row[..n - 1];
    if j < n - 1 {
      assert columns[n - 1] in columns[j + 1..n];
      assert Paired(cs, rs) == n - 1;
      assert cs[j + 1..n - 1] == columns[j + 1..n - 1];
      assert columns[j] !in cs[j + 1..n - 1];
      ZipValue(cs, rs, j);
    }
  }

  // ------------------------------------------------- the projection

  /** Every value of the dict replaced by its rendered string. */
  function RenderAll(d: Dict): (r: Dict)
    ensures r.order == d.order && r.entries.Keys == d.entries.Keys
  {
    Dict(d.order, map k | k in d.entries :: Text(Render(d.entries[k])))
  }

  /** The prefix a stored link gets, the place its PDF is served from. */
  const PdfPrefix: string := "/static/pdfs/"

  /** `if project.get("link"): project["link"] = f"/static/pdfs/{project['link']}"` on a rendered dict. */
  function PrefixLink(d: Dict): Dict {
    if "link" in d.entries && d.entries["link"].Text? && d.entries["link"].text != "" then
      Put(d, "link", Text(PdfPrefix + d.entries["link"].text))
    else d
  }

  /**
   * The rest of the per-row steps on the rendered dict: x popped and stored
   * under lng, then y under lat, then the link prefixed; a missing x or y is the
   * KeyError that ends the whole listing.
   */
  function Relocate(d: Dict): Option<Dict> {
    if "x" !in d.entries then None
    else
      var withLng := Rename(d, "x", "lng");
      if "y" !in withLng.entries then None
      else Some(PrefixLink(Rename(withLng, "y", "lat")))
  }

  /** The JSON object get_project_locations makes of one row, or None when it raises. */
  function LocationOf(columns: seq<string>, row: seq<Value>): Option<Dict> {
    Relocate(RenderAll(Zip(columns, row)))
  }

  /** `d[b] = d.pop(a)`: the value under a moves to b and nothing else changes. */
  function Rename(d: Dict, a: string, b: string): Dict
    requires a in d.entries
  {
    Put(Remove(d, a), b, d.entries[a])
  }

  lemma RenameSpec(d: Dict, a: string, b: string)
    requires Valid(d) && a in d.entries && a != b
    ensures Valid(Rename(d, a, b))
    ensures forall k :: k in Rename(d, a, b).entries <==> (k in d.entries && k != a) || k == b
    ensures Rename(d, a, b).entries[b] == d.entries[a]
    ensures forall k :: k in d.entries && k != a && k != b ==> Rename(d, a, b).entries[k] == d.entries[k]
    ensures b !in d.entries ==> Rename(d, a, b).order == Without(d.order, a) + [b]
  {
    RemoveValid(d, a);
    PutValid(Remove(d, a), b, d.entries[a]);
  }

  lemma WithoutSnoc(order: seq<string>, k: string, b: string)
    requires b != k
    ensures Without(order + [b], k) == Without(order, k) + [b]
  {
    assert (order + [b])[..|order|] == order;
  }

  lemma PrefixLinkSpec(d: Dict)
    requires Valid(d)
    ensures Valid(PrefixLink(d)) && PrefixLink(d).order == d.order
    ensures PrefixLink(d).entries.Keys == d.entries.Keys
    ensures forall k :: k in d.entries && k != "link" ==> PrefixLink(d).entries[k] == d.entries[k]
    ensures "link" in d.entries && d.entries["link"].Text? ==>
              PrefixLink(d).entries["link"] == if d.entries["link"].text == "" then d.entries["link"]
                                               else Text(PdfPrefix + d.entries["link"].text)
  {
  }

  /**
   * What one row becomes: None exactly when the columns lack x or y; otherwise
   * a dict in which lng and lat hold x and y, x and y are gone, a non-empty
   * link carries the PDF prefix and every other column keeps its value.
   */
  lemma RelocateSpec(d: Dict)
    requires Valid(d)
    ensures Relocate(d).None? <==> "x" !in d.entries || "y" !in d.entries
    ensures Relocate(d).Some? ==>
              var p := Relocate(d).value;
              && Valid(p)
              && (forall k :: k in p.entries <==> (k in d.entries && k != "x" && k != "y") || k == "lng" || k == "lat")
  {
    if "x" in d.entries {
      RenameSpec(d, "x", "lng");
      var withLng := Rename(d, "x", "lng");
      if "y" in withLng.entries {
        RenameSpec(withLng, "y", "lat");
        var withLat := Rename(withLng, "y", "lat");
        PrefixLinkSpec(withLat);
        assert Relocate(d) == Some(PrefixLink(withLat));
      }
    }
  }

  /** lng and lat hold x and y, a non-empty link carries the PDF prefix and every other column keeps its value. */
  lemma RelocateValues(d: Dict)
    requires Valid(d) && "x" in d.entries && "y" in d.entries
    ensures Relocate(d).Some?
    ensures var p := Relocate(d).value;
            && "lng" in p.entries && p.entries["lng"] == d.entries["x"]
            && "lat" in p.entries && p.entries["lat"] == d.entries["y"]
            && (forall k :: k in d.entries && k != "x" && k != "y" && k != "lng" && k != "lat" && k != "link" ==>
                  k in p.entries && p.entries[k] == d.entries[k])
            && ("link" in d.entries && d.entries["link"].Text? ==>
                  "link" in p.entries
                  && p.entries["link"] == if d.entries["link"].text == "" then d.entries["link"]
                                          else Text(PdfPrefix + d.entries["link"].text))
  {
    RenameSpec(d, "x", "lng");
    var withLng := Rename(d, "x", "lng");
    RenameSpec(withLng, "y", "lat");
    var withLat := Rename(withLng, "y", "lat");
    PrefixLinkSpec(withLat);
    assert Relocate(d) == Some(PrefixLink(withLat));
  }

  /** Without lng and lat among the columns, the keys keep their order with x and y taken out and lng, lat appended. */
  lemma RelocateOrder(d: Dict)
    requires Valid(d) && Relocate(d).Some?
    requires "lng" !in d.entries && "lat" !in d.entries
    ensures Relocate(d).value.order == Without(Without(d.order, "x"), "y") + ["lng", "lat"]
  {
    var withLng := Rename(d, "x", "lng");
    assert withLng.order == Without(d.order, "x") + ["lng"];
    var withLat := Rename(withLng, "y", "lat");
    assert withLat.order == Without(withLng.order, "y") + ["lat"];
    var rest := Without(Without(d.order, "x"), "y");
    WithoutSnoc(Without(d.order, "x"), "y", "lng");
    assert withLat.order == rest + ["lng"] + ["lat"];
    assert rest + ["lng"] + ["lat"] == rest + ["lng", "lat"];
  }

  /** After rendering, every value is a string and shows the column's rendered value. */
  lemma RenderAllSpec(d: Dict)
    requires Valid(d)
    ensures Valid(RenderAll(d))
    ensures forall k :: k in d.entries ==> RenderAll(d).entries[k] == Text(Render(d.entries[k]))
  {
  }

  /**
   * One row of get_project_locations raises exactly when the dict(zip(...)) it
   * starts from lacks x or y; otherwise every value of the result is a string.
   */
  lemma LocationSpec(columns: seq<string>, row: seq<Value>)
    ensures var d := Zip(columns, row);
            LocationOf(columns, row).None? <==> "x" !in d.entries || "y" !in d.entries
    ensures LocationOf(columns, row).Some? ==>
              forall k :: k in LocationOf(columns, row).value.entries ==> LocationOf(columns, row).value.entries[k].Text?
  {
    var d := Zip(columns, row);
    ZipKeys(columns, row);
    RenderAllSpec(d);
    var rendered := RenderAll(d);
    assert LocationOf(columns, row) == Relocate(rendered);
    RelocateSpec(rendered);
    if "x" in d.entries && "y" in d.entries {
      RelocateValues(rendered);
    }
  }

  /**
   * In terms of the dict(zip(...)) a row starts from: lng and lat show x and y,
   * a link that shows non-empty is prefixed with the PDF path, and every other
   * column shows its own value.
   */
  lemma LocationValues(columns: seq<string>, row: seq<Value>)
    requires "x" in Zip(columns, row).entries && "y" in Zip(columns, row).entries
    ensures LocationOf(columns, row).Some?
    ensures var d := Zip(columns, row);
            var p := LocationOf(columns, row).value;
            && "lng" in p.entries && p.entries["lng"] == Text(Render(d.entries["x"]))
            && "lat" in p.entries && p.entries["lat"] == Text(Render(d.entries["y"]))
            && ("link" in d.entries ==>
                  "link" in p.entries
                  && p.entries["link"] == if Render(d.entries["link"]) == "" then Text("")
                                          else Text(PdfPrefix + Render(d.entries["link"])))
            && (forall k :: k in d.entries && k != "x" && k != "y" && k != "lng" && k != "lat" && k != "link" ==>
                  k in p.entries && p.entries[k] == Text(Render(d.entries[k])))
  {
    var d := Zip(columns, row);
    ZipKeys(columns, row);
    RenderAllSpec(d);
    var rendered := RenderAll(d);
    assert LocationOf(columns, row) == Relocate(rendered);
    RelocateValues(rendered);
  }

  // ------------------------------------------------- the loops

  /** The loop over `project.items()` that replaces each value by its string. */
  method RenderValues(project: Dict) returns (rendered: Dict)
    requires Valid(project)
    ensures rendered == RenderAll(project)
  {
    rendered := project;
    var i := 0;
    while i < |project.order|
      invariant 0 <= i <= |project.order|
      invariant rendered.order == project.order && rendered.entries.Keys == project.entries.Keys
      invariant forall j :: 0 <= j < i ==> rendered.entries[project.order[j]] == Text(Render(project.entries[project.order[j]]))
      invariant forall j :: i <= j < |project.order| ==> rendered.entries[project.order[j]] == project.entries[project.order[j]]
    {
      var key := project.order[i];
      rendered := rendered.(entries := rendered.entries[key := Text(Render(rendered.entries[key]))]);
      i := i + 1;
    }
    assert forall k :: k in project.entries ==> exists j :: 0 <= j < |project.order| && project.order[j] == k;
  }

  /** The body of the loop over the cursor: one row made into its JSON object, or None on the KeyError. */
  method ProjectRow(columns: seq<string>, row: seq<Value>) returns (r: Option<Dict>)
    ensures r == LocationOf(columns, row)
  {
    ZipKeys(columns, row);
    var project := RenderValues(Zip(columns, row));
    if "x" !in project.entries {
      return None;
    }
    var lng := project.entries["x"];
    project := Remove(project, "x");
    project := Put(project, "lng", lng);
    if "y" !in project.entries {
      return None;
    }
    var lat := project.entries["y"];
    project := Remove(project, "y");
    project := Put(project, "lat", lat);
    if "link" in project.entries && project.entries["link"].Text? && project.entries["link"].text != "" {
      project := Put(project, "link", Text(PdfPrefix + project.entries["link"].text));
    }
    r := Some(project);
  }

  /** The per-row outcomes of the listing, in row order. */
  function Outcomes(columns: seq<string>, rows: seq<seq<Value>>): (outcomes: seq<Option<Dict>>)
    ensures |outcomes| == |rows|
  {
    seq(|rows|, i requires 0 <= i < |rows| => LocationOf(columns, rows[i]))
  }

  /** All the values, or None as soon as one outcome is None. */
  function Gather<T>(outcomes: seq<Option<T>>): Option<seq<T>> {
    if outcomes == [] then Some([])
    else
      match Gather(outcomes[..|outcomes| - 1])
      case None => None
      case Some(done) =>
        match outcomes[|outcomes| - 1]
        case None => None
        case Some(v) => Some(done + [v])
  }

  lemma {:induction false} GatherSpec<T>(outcomes: seq<Option<T>>)
    ensures Gather(outcomes).None? <==> exists i :: 0 <= i < |outcomes| && outcomes[i].None?
    ensures Gather(outcomes).Some? ==>
              |Gather(outcomes).value| == |outcomes|
              && forall i :: 0 <= i < |outcomes| ==> Some(Gather(outcomes).value[i]) == outcomes[i]
  {
    if outcomes != [] {
      var init := outcomes[..|outcomes| - 1];
      GatherSpec(init);
      assert forall i :: 0 <= i < |init| ==> init[i] == outcomes[i];
      if Gather(init).None? {
        var i :| 0 <= i < |init| && init[i].None?;
        assert outcomes[i].None?;
      }
    }
  }

  /** Once an outcome is None, gathering any longer list gives None too. */
  lemma {:induction false} GatherFailurePersists<T>(outcomes: seq<Option<T>>, i: nat)
    requires i <= |outcomes|
    requires Gather(outcomes[..i]).None?
    ensures Gather(outcomes).None?
    decreases |outcomes| - i
  {
    if i < |outcomes| {
      assert outcomes[..i + 1][..i] == outcomes[..i];
      GatherFailurePersists(outcomes, i + 1);
    } else {
      assert outcomes[..i] == outcomes;
    }
  }

  /** The listing: every row's object in row order, or [] when any row raises. */
  function Listing(columns: seq<string>, rows: seq<seq<Value>>): seq<Dict> {
    match Gather(Outcomes(columns, rows))
    case None => []
    case Some(ps) => ps
  }

  /** The listing has one object per row, in order, unless some row lacks x or y, in which case it is empty. */
  lemma ListingSpec(columns: seq<string>, rows: seq<seq<Value>>)
    ensures (exists i :: 0 <= i < |rows| && LocationOf(columns, rows[i]).None?) ==> Listing(columns, rows) == []
    ensures (forall i :: 0 <= i < |rows| ==> LocationOf(columns, rows[i]).Some?) ==>
              |Listing(columns, rows)| == |rows|
              && forall i :: 0 <= i < |rows| ==> Some(Listing(columns, rows)[i]) == LocationOf(columns, rows[i])
  {
    var outcomes := Outcomes(columns, rows);
    GatherSpec(outcomes);
    if exists i :: 0 <= i < |rows| && LocationOf(columns, rows[i]).None? {
      var i :| 0 <= i < |rows| && LocationOf(columns, rows[i]).None?;
      assert outcomes[i].None?;
    }
  }

  /** get_project_locations over the fetched rows. */
  method ProjectLocations(columns: seq<string>, rows: seq<seq<Value>>) returns (projects: seq<Dict>)
    ensures projects == Listing(columns, rows)
  {
    projects := [];
    var i := 0;
    ghost var outcomes := Outcomes(columns, rows);
    while i < |rows|
      invariant 0 <= i <= |rows|
      invariant Gather(outcomes[..i]) == Some(projects)
    {
      var project := ProjectRow(columns, rows[i]);
      assert outcomes[..i + 1][..i] == outcomes[..i];
      assert outcomes[i] == project;
      if project.None? {
        GatherFailurePersists(outcomes, i + 1);
        return [];
      }
      projects := projects + [project.value];
      i := i + 1;
    }
    assert outcomes[..i] == outcomes;
  }
}
