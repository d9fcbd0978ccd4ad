/** The `places` command's data side (`places_api/client.py`): the CDC
    PLACES measure table, and the pivot of the long records the service
    returns (one per county and measure) into one wide row per county,
    keyed by the normalised county name in `locationname`. A record is a
    dict of texts; a field the record lacks reads as `""`, and so does a
    JSON `null`, where the program raises for a `null` `locationname`. */
module Places {
  import opened Results
  import opened Seqs
  import opened Numbers
  import opened Sorting
  import opened Dicts
  import opened Table
  import Catalog
  import CountyName
  import Text

  // ---------------------------------------------------------------------
  // The measure table

  const CHRONIC_DISEASE: seq<Catalog.Measure> := [
    Catalog.Measure("DIABETES", "Diabetes", "Diagnosed diabetes among adults"),
    Catalog.Measure("COPD", "COPD", "Chronic obstructive pulmonary disease among adults"),
    Catalog.Measure("CHD", "Coronary Heart Disease", "Coronary heart disease among adults"),
    Catalog.Measure("OBESITY", "Obesity", "Obesity among adults"),
    Catalog.Measure("CSMOKING", "Smoking", "Current smoking among adults"),
    Catalog.Measure("CASTHMA", "Current Asthma", "Current asthma among adults"),
    Catalog.Measure("STROKE", "Stroke", "Stroke among adults"),
    Catalog.Measure("BPHIGH", "High Blood Pressure", "High blood pressure among adults"),
    Catalog.Measure("HIGHCHOL", "High Cholesterol", "High cholesterol among adults"),
    Catalog.Measure("DEPRESSION", "Depression", "Depression among adults"),
    Catalog.Measure("ARTHRITIS", "Arthritis", "Arthritis among adults"),
    Catalog.Measure("CANCER", "Cancer (excl skin)", "Cancer (non-skin) among adults")
  ]

  const HEALTH_BEHAVIORS: seq<Catalog.Measure> := [
    Catalog.Measure("BINGE", "Binge Drinking", "Binge drinking among adults"),
    Catalog.Measure("LPA", "Physical Inactivity", "No leisure-time physical activity among adults"),
    Catalog.Measure("SLEEP", "Short Sleep", "Sleeping less than 7 hours among adults")
  ]

  const PREVENTION: seq<Catalog.Measure> := [
    Catalog.Measure("CHECKUP", "Annual Checkup", "Visits to doctor for routine checkup"),
    Catalog.Measure("DENTAL", "Dental Visit", "Visits to dentist or dental clinic"),
    Catalog.Measure("CHOLSCREEN", "Cholesterol Screening", "Cholesterol screening among adults"),
    Catalog.Measure("MAMMOUSE", "Mammography", "Mammography use among women 50-74"),
    Catalog.Measure("COLON_SCREEN", "Colorectal Screening", "Colorectal cancer screening among adults 45-75")
  ]

  const DISABILITY: seq<Catalog.Measure> := [
    Catalog.Measure("DISABILITY", "Any Disability", "Any disability among adults"),
    Catalog.Measure("HEARING", "Hearing Disability", "Hearing disability among adults"),
    Catalog.Measure("VISION", "Vision Disability", "Vision disability among adults"),
    Catalog.Measure("COGNITION", "Cognitive Disability", "Cognitive disability among adults"),
    Catalog.Measure("MOBILITY", "Mobility Disability", "Mobility disability among adults")
  ]

  const SDOH: seq<Catalog.Measure> := [
    Catalog.Measure("FOODINSECU", "Food Insecurity", "Food insecurity among adults"),
    Catalog.Measure("HOUSINSECU", "Housing Insecurity", "Housing insecurity among adults"),
    Catalog.Measure("LACKTRPT", "Transportation Barriers", "Lack of transportation among adults")
  ]

  const MENTAL_HEALTH: seq<Catalog.Measure> := [
    Catalog.Measure("MHLTH", "Frequent Mental Distress", "Frequent mental distress among adults"),
    Catalog.Measure("EMOTIONSPT", "Lack of Emotional Support", "Lack of social and emotional support among adults"),
    Catalog.Measure("LONELINESS", "Loneliness", "Loneliness among adults")
  ]

  const PLACES_MEASURES: seq<Catalog.Group<Catalog.Measure>> := [
    Catalog.Group("chronic_disease", CHRONIC_DISEASE),
    Catalog.Group("health_behaviors", HEALTH_BEHAVIORS),
    Catalog.Group("prevention", PREVENTION),
    Catalog.Group("disability", DISABILITY),
    Catalog.Group("sdoh", SDOH),
    Catalog.Group("mental_health", MENTAL_HEALTH)
  ]

  const GROUP_NAMES: seq<string> :=
    ["chronic_disease", "health_behaviors", "prevention", "disability", "sdoh", "mental_health"]

  lemma PlacesNames()
    ensures Catalog.Names(PLACES_MEASURES) == GROUP_NAMES
    ensures Catalog.WellFormed(PLACES_MEASURES)
  {
    assert Catalog.Names(PLACES_MEASURES) == GROUP_NAMES;
  }

  /** The six groups hold 12, 3, 5, 5, 3 and 3 measures: 31 in all. */
  lemma PlacesSize()
    ensures SumInt(Map(PLACES_MEASURES, Catalog.GroupMembers), Length) == 31
  {
    var ms := Map(PLACES_MEASURES, Catalog.GroupMembers);
    assert ms[..0] == [];
    assert SumInt(ms[..1], Length) == 12 by { assert ms[..1][..0] == ms[..0]; }
    assert SumInt(ms[..2], Length) == 15 by { assert ms[..2][..1] == ms[..1]; }
    assert SumInt(ms[..3], Length) == 20 by { assert ms[..3][..2] == ms[..2]; }
    assert SumInt(ms[..4], Length) == 25 by { assert ms[..4][..3] == ms[..3]; }
    assert SumInt(ms[..5], Length) == 28 by { assert ms[..5][..4] == ms[..4]; }
    assert ms[..6] == ms;
  }

  /** `resolve_measures`: `all` selects all 31 measures, group by group;
      otherwise the named groups' measures in request order, or an error
      naming the first unknown group. */
  function ResolveMeasures(groups: seq<string>): (r: Result<seq<Catalog.Measure>>)
    ensures Catalog.ALL in groups ==> r == Ok(Catalog.AllMembers(PLACES_MEASURES)) && |r.value| == 31
    ensures Catalog.ALL !in groups ==> (r.Ok? <==> forall i :: 0 <= i < |groups| ==> groups[i] in GROUP_NAMES)
    ensures r.Err? ==> exists k :: Catalog.FirstUnknown(PLACES_MEASURES, groups, k) && r.error == UnknownGroup(groups[k])
  {
    PlacesNames();
    if Catalog.ALL in groups then
      Catalog.ResolveAll(PLACES_MEASURES, groups);
      PlacesSize();
      Catalog.Resolve(PLACES_MEASURES, groups)
    else Catalog.Resolve(PLACES_MEASURES, groups)
  }

  /** Naming one known group selects exactly its list. */
  lemma ResolveMeasuresSingle(name: string)
    requires name in GROUP_NAMES
    ensures ResolveMeasures([name]) == Ok(Catalog.Members(PLACES_MEASURES, name))
  {
    PlacesNames();
    Catalog.ResolveSingle(PLACES_MEASURES, name);
  }

  // ---------------------------------------------------------------------
  // The pivot

  const LOCATION: string := "locationname"

  /** Every record belongs to the county its cleaned `locationname` names;
      a record without one lands under `""`. */
  function CountyKey(rec: Record): (r: Option<string>)
    ensures r.Some?
    ensures |r.value| <= |Field(rec, LOCATION)| + 2 * Text.Occurrences(Field(rec, LOCATION), CountyName.SAINT_ABBREV)
    ensures Field(rec, LOCATION) == "" ==> r == Some("")
  {
    CountyName.CleanUnchanged("");
    Some(CountyName.Clean(Field(rec, LOCATION)))
  }

  function MeasureOf(rec: Record): string {
    Field(rec, "measureid")
  }

  /** `str(round(float(raw) / 100, 4))` when the value reads as a number;
      the raw text otherwise. A negative zero stays negative through the
      division and the rounding. */
  function Cell(raw: string, ft: FloatText): (r: string)
    ensures ParseNumber(raw).None? ==> r == raw
    ensures NegativeZero(raw) ==> r == "-0.0"
    ensures forall x :: ParseNumber(raw) == Some(x) && !NegativeZero(raw) ==> r == ft.round4(x / 100.0)
  {
    match ParseNumber(raw)
    case Some(x) => if NegativeZero(raw) then "-0.0" else ft.round4(x / 100.0)
    case None => raw
  }

  /** `"-0"` and `"0"` write different cells: the sign of a zero survives. */
  lemma SignedZeroCell(ft: FloatText)
    ensures Cell("-0", ft) == "-0.0"
    ensures Cell("0", ft) == ft.round4(0.0)
  {
    assert ParseNumber("0") == Some(0.0);
    NegativeZeroText("0");
  }

  /** The cell a record writes: its value column, read as above. */
  function CellOf(valueCol: string, ft: FloatText): Record -> Value {
    (rec: Record) => Str(Cell(Field(rec, valueCol), ft))
  }

  /** What one record writes into its county's row. */
  function Entry(val: Record -> Value): Record -> Row {
    (rec: Record) => map[MeasureOf(rec) := val(rec)]
  }

  /** A new county's row: `{"locationname": county}`. */
  function Start(k: string): Row {
    map[LOCATION := Str(k)]
  }

  /** The loop body: `by_county[county][mid] = value`. */
  function PivotStep(val: Record -> Value): (Row, Record) -> Row {
    (acc: Row, rec: Record) => Join(acc, Entry(val)(rec))
  }

  function Pivoted(records: seq<Record>, valueCol: string, ft: FloatText): (d: Dict<Row>)
    ensures Valid(d)
    ensures |d.keys| <= |records|
  {
    GroupFold(records, CountyKey, Start, PivotStep(CellOf(valueCol, ft)))
  }

  /** `_pivot_rows(records, measures, value_col)`; the measure list plays
      no part in it. */
  function PivotRows(records: seq<Record>, valueCol: string, ft: FloatText): (r: seq<Row>)
    ensures |r| <= |records|
    ensures SortedBy(r, ByKey(RowKey(LOCATION)))
    ensures NoLocationMeasure(records) ==> StrictlyAscending(r, RowKey(LOCATION))
  {
    PivotKeyedWhen(records, valueCol, ft);
    SortedItems(Pivoted(records, valueCol, ft), Second, LOCATION)
  }

  // ---------------------------------------------------------------------
  // What the pivot computes

  function RecordsOf(records: seq<Record>, county: string): seq<Record> {
    Group(records, CountyKey, county)
  }

  /** The row a county's records build: `{"locationname": county}`
      updated by each record in turn. */
  function RowOf(county: string, g: seq<Record>, val: Record -> Value): Row {
    Overlay([Start(county)] + Map(g, Entry(val)))
  }

  /** The reference row of a county in the pivot. */
  function PivotRow(records: seq<Record>, valueCol: string, ft: FloatText, county: string): Row {
    RowOf(county, RecordsOf(records, county), CellOf(valueCol, ft))
  }

  lemma {:induction false} FoldEntries(g: seq<Record>, base: Row, val: Record -> Value)
    ensures Fold(g, base, PivotStep(val)) == Fold(Map(g, Entry(val)), base, Join)
    decreases |g|
  {
    if |g| > 0 {
      var pre := g[..|g| - 1];
      FoldEntries(pre, base, val);
      assert Map(g, Entry(val))[..|g| - 1] == Map(pre, Entry(val));
    }
  }

  /** A county has a row exactly when some record names it, and its row
      is the reference row. */
  lemma PivotedSpec(records: seq<Record>, valueCol: string, ft: FloatText, county: string)
    ensures county in Pivoted(records, valueCol, ft).entries <==>
      exists i :: 0 <= i < |records| && CountyKey(records[i]) == Some(county)
    ensures county in Pivoted(records, valueCol, ft).entries ==>
      Pivoted(records, valueCol, ft).entries[county] == PivotRow(records, valueCol, ft, county)
  {
    var g := RecordsOf(records, county);
    var val := CellOf(valueCol, ft);
    GroupFoldAt(records, CountyKey, Start, PivotStep(val), county);
    GroupNonEmpty(records, CountyKey, county);
    FoldEntries(g, Start(county), val);
    FoldUpdate(Map(g, Entry(val)), Start(county));
  }

  /** No record's measure id is `locationname`, so no record overwrites
      the county name of its row. */
  predicate NoLocationMeasure(records: seq<Record>) {
    forall i :: 0 <= i < |records| ==> MeasureOf(records[i]) != LOCATION
  }

  /** The maps a county's row is overlaid from: its start, then one
      single-key map per record. */
  lemma EntryMaps(county: string, g: seq<Record>, val: Record -> Value)
    ensures var ms := [Start(county)] + Map(g, Entry(val));
      && |ms| == |g| + 1
      && ms[0] == map[LOCATION := Str(county)]
      && Entries(ms, g, val)
  {
  }

  /** The facts of `EntryMaps`, over any maps that satisfy them. */
  predicate Entries(ms: seq<Row>, g: seq<Record>, val: Record -> Value) {
    && |ms| == |g| + 1
    && forall i :: 0 <= i < |g| ==> ms[i + 1] == map[MeasureOf(g[i]) := val(g[i])]
  }

  lemma EntriesHave(ms: seq<Row>, g: seq<Record>, val: Record -> Value, m: string)
    requires Entries(ms, g, val) && LOCATION in ms[0] && ms[0].Keys == {LOCATION}
    ensures (exists l :: 0 <= l < |ms| && m in ms[l]) <==>
      m == LOCATION || exists i :: 0 <= i < |g| && MeasureOf(g[i]) == m
  {
    if exists l :: 0 <= l < |ms| && m in ms[l] {
      var l :| 0 <= l < |ms| && m in ms[l];
      if l > 0 {
        assert ms[l] == map[MeasureOf(g[l - 1]) := val(g[l - 1])];
      }
    }
    if exists i :: 0 <= i < |g| && MeasureOf(g[i]) == m {
      var i :| 0 <= i < |g| && MeasureOf(g[i]) == m;
      assert m in ms[i + 1];
    }
  }

  lemma EntriesLast(ms: seq<Row>, g: seq<Record>, val: Record -> Value, j: int)
    requires Entries(ms, g, val) && 0 <= j < |g|
    requires forall l :: j < l < |g| ==> MeasureOf(g[l]) != MeasureOf(g[j])
    ensures MeasureOf(g[j]) in Overlay(ms) && Overlay(ms)[MeasureOf(g[j])] == val(g[j])
  {
    var m := MeasureOf(g[j]);
    assert ms[j + 1] == map[m := val(g[j])];
    forall l | j + 1 < l < |ms| ensures m !in ms[l] {
      assert ms[l] == map[MeasureOf(g[l - 1]) := val(g[l - 1])];
    }
    OverlayLast(ms, m, j + 1);
  }

  /** The keys of a county's row: `locationname` and every measure id of
      its records, and nothing else; a measure no record carries is absent,
      not blank. */
  lemma RowKeys(county: string, g: seq<Record>, val: Record -> Value, m: string)
    ensures m in RowOf(county, g, val) <==>
      m == LOCATION || exists i :: 0 <= i < |g| && MeasureOf(g[i]) == m
  {
    var ms := [Start(county)] + Map(g, Entry(val));
    EntryMaps(county, g, val);
    OverlayHas(ms, m);
    EntriesHave(ms, g, val, m);
  }

  /** The last record with a given measure id decides its cell. */
  lemma RowLast(county: string, g: seq<Record>, val: Record -> Value, j: int)
    requires 0 <= j < |g|
    requires forall l :: j < l < |g| ==> MeasureOf(g[l]) != MeasureOf(g[j])
    ensures MeasureOf(g[j]) in RowOf(county, g, val)
    ensures RowOf(county, g, val)[MeasureOf(g[j])] == val(g[j])
  {
    var ms := [Start(county)] + Map(g, Entry(val));
    EntryMaps(county, g, val);
    EntriesLast(ms, g, val, j);
  }

  /** The row keeps its county name unless a record's measure id is
      `locationname` itself. */
  lemma RowName(county: string, g: seq<Record>, val: Record -> Value)
    requires forall i :: 0 <= i < |g| ==> MeasureOf(g[i]) != LOCATION
    ensures Get(RowOf(county, g, val), LOCATION) == county
  {
    var ms := [Start(county)] + Map(g, Entry(val));
    EntryMaps(county, g, val);
    OverlayLast(ms, LOCATION, 0);
  }

  lemma PivotRowName(records: seq<Record>, valueCol: string, ft: FloatText, county: string)
    requires NoLocationMeasure(records)
    ensures Get(PivotRow(records, valueCol, ft, county), LOCATION) == county
  {
    var g := RecordsOf(records, county);
    forall i | 0 <= i < |g| ensures MeasureOf(g[i]) != LOCATION {
      GroupMember(records, CountyKey, county, g[i]);
    }
    RowName(county, g, CellOf(valueCol, ft));
  }

  /** A county's row has a column for a measure exactly when one of that
      county's records carries it; a measure it lacks is absent, not blank. */
  lemma PivotMeasures(records: seq<Record>, valueCol: string, ft: FloatText, county: string, m: string)
    requires m != LOCATION
    ensures m in PivotRow(records, valueCol, ft, county) <==>
      exists i :: 0 <= i < |records| && CountyKey(records[i]) == Some(county) && MeasureOf(records[i]) == m
  {
    RowKeys(county, RecordsOf(records, county), CellOf(valueCol, ft), m);
    CarriedBy(records, county, m);
  }

  /** Some record of the county's group carries `m` exactly when some
      record of the county does. */
  lemma CarriedBy(records: seq<Record>, county: string, m: string)
    ensures (exists i :: 0 <= i < |RecordsOf(records, county)| && MeasureOf(RecordsOf(records, county)[i]) == m) <==>
      exists i :: 0 <= i < |records| && CountyKey(records[i]) == Some(county) && MeasureOf(records[i]) == m
  {
    var g := RecordsOf(records, county);
    if exists i :: 0 <= i < |g| && MeasureOf(g[i]) == m {
      var i :| 0 <= i < |g| && MeasureOf(g[i]) == m;
      CarriedFromGroup(records, county, g[i]);
    }
    if exists i :: 0 <= i < |records| && CountyKey(records[i]) == Some(county) && MeasureOf(records[i]) == m {
      var i :| 0 <= i < |records| && CountyKey(records[i]) == Some(county) && MeasureOf(records[i]) == m;
      CarriedIntoGroup(records, county, i);
    }
  }

  lemma CarriedFromGroup(records: seq<Record>, county: string, x: Record)
    requires x in RecordsOf(records, county)
    ensures exists j :: 0 <= j < |records| && records[j] == x && CountyKey(x) == Some(county)
  {
    GroupMember(records, CountyKey, county, x);
  }

  lemma CarriedIntoGroup(records: seq<Record>, county: string, i: int)
    requires 0 <= i < |records| && CountyKey(records[i]) == Some(county)
    ensures exists j :: 0 <= j < |RecordsOf(records, county)| && RecordsOf(records, county)[j] == records[i]
  {
    var g := RecordsOf(records, county);
    GroupMember(records, CountyKey, county, records[i]);
    var j :| 0 <= j < |g| && g[j] == records[i];
  }

  /** In the pivot, a county's cell for a measure is written by the last of
      its records with that measure id: the value read as a number and
      scaled, or the raw text when it does not read. */
  lemma PivotCell(records: seq<Record>, valueCol: string, ft: FloatText, county: string, j: int)
    requires var g := RecordsOf(records, county);
      0 <= j < |g| && (forall l :: j < l < |g| ==> MeasureOf(g[l]) != MeasureOf(g[j]))
    ensures var g := RecordsOf(records, county);
      && MeasureOf(g[j]) in PivotRow(records, valueCol, ft, county)
      && PivotRow(records, valueCol, ft, county)[MeasureOf(g[j])] == Str(Cell(Field(g[j], valueCol), ft))
  {
    RowLast(county, RecordsOf(records, county), CellOf(valueCol, ft), j);
  }

  lemma PivotKeyedWhen(records: seq<Record>, valueCol: string, ft: FloatText)
    ensures NoLocationMeasure(records) ==> KeyedBy(Pivoted(records, valueCol, ft), Second, LOCATION)
  {
    if NoLocationMeasure(records) {
      PivotKeyed(records, valueCol, ft);
    }
  }

  lemma PivotKeyed(records: seq<Record>, valueCol: string, ft: FloatText)
    requires NoLocationMeasure(records)
    ensures KeyedBy(Pivoted(records, valueCol, ft), Second, LOCATION)
  {
    var d := Pivoted(records, valueCol, ft);
    var items := Items(d, Second);
    forall j | 0 <= j < |items| ensures Map(items, RowKey(LOCATION))[j] == d.keys[j] {
      PivotedSpec(records, valueCol, ft, d.keys[j]);
      PivotRowName(records, valueCol, ft, d.keys[j]);
    }
  }

  /** One row per distinct cleaned county name, strictly ascending by that
      name, each the reference row of its county. */
  lemma PivotRowsSpec(records: seq<Record>, valueCol: string, ft: FloatText)
    requires NoLocationMeasure(records)
    ensures StrictlyAscending(PivotRows(records, valueCol, ft), RowKey(LOCATION))
    ensures forall k :: k in Map(PivotRows(records, valueCol, ft), RowKey(LOCATION)) <==>
      exists i :: 0 <= i < |records| && CountyName.Clean(Field(records[i], LOCATION)) == k
    ensures forall i :: 0 <= i < |PivotRows(records, valueCol, ft)| ==>
      PivotRows(records, valueCol, ft)[i] ==
      PivotRow(records, valueCol, ft, Get(PivotRows(records, valueCol, ft)[i], LOCATION))
  {
    var d := Pivoted(records, valueCol, ft);
    var out := PivotRows(records, valueCol, ft);
    forall k ensures k in d.entries <==> exists i :: 0 <= i < |records| && CountyName.Clean(Field(records[i], LOCATION)) == k {
      PivotedSpec(records, valueCol, ft, k);
    }
    PivotKeyed(records, valueCol, ft);
    SortedItemsSpec(d, Second, LOCATION);
    forall i | 0 <= i < |out| ensures out[i] == PivotRow(records, valueCol, ft, Get(out[i], LOCATION)) {
      PivotedSpec(records, valueCol, ft, Get(out[i], LOCATION));
    }
  }

  /** A record for `St. <name>` gives a row named `Saint <name>`. */
  lemma PivotSaint(records: seq<Record>, valueCol: string, ft: FloatText, i: int, b: string)
    requires NoLocationMeasure(records)
    requires 0 <= i < |records| && Field(records[i], LOCATION) == "St. " + b
    requires ',' !in b && '.' !in b
    requires |b| > 0 && !Text.IsSpace(b[0]) && b[|b| - 1] != 'y' && b[|b| - 1] != '\n'
    ensures "Saint " + b in Map(PivotRows(records, valueCol, ft), RowKey(LOCATION))
  {
    CountyName.CleanBareSaintName(b);
    PivotRowsSpec(records, valueCol, ft);
  }
}
