/** The shortage side of the `access` command (`hrsa_api/client.py`): the
    measure table, the two ArcGIS layers, the roll-up of Health
    Professional Shortage Area designations into one row per Michigan
    county, and the union of the per-layer rows. A designation is the
    `attributes` dict of an ArcGIS feature, whose values are JSON scalars. */
module Hrsa {
  import opened Results
  import opened Seqs
  import opened Numbers
  import opened Sorting
  import opened Dicts
  import opened Table
  import Catalog

  // ---------------------------------------------------------------------
  // The tables

  const PRIMARY_CARE: string := "primary_care_shortage"
  const MENTAL_HEALTH: string := "mental_health_shortage"

  /** A layer of the HPSA map service: the group it serves, the query path
      and the prefix of the column ids it fills. */
  datatype Layer = Layer(group: string, path: string, prefix: string)

  const HPSA_LAYERS: seq<Layer> := [
    Layer(PRIMARY_CARE, "/9/query", "pc"),
    Layer(MENTAL_HEALTH, "/5/query", "mh")
  ]

  const HPSA_MEASURES: seq<Catalog.Group<Catalog.Measure>> := [
    Catalog.Group(PRIMARY_CARE, [
      Catalog.Measure("pc_hpsa_count", "Primary Care HPSA Count", "Number of primary care HPSA designations"),
      Catalog.Measure("pc_hpsa_max_score", "Primary Care Max HPSA Score", "Maximum HPSA score (higher = greater shortage)"),
      Catalog.Measure("pc_hpsa_avg_score", "Primary Care Avg HPSA Score", "Average HPSA score across designations"),
      Catalog.Measure("pc_underserved_pop", "Primary Care Underserved Pop", "Estimated underserved population")
    ]),
    Catalog.Group(MENTAL_HEALTH, [
      Catalog.Measure("mh_hpsa_count", "Mental Health HPSA Count", "Number of mental health HPSA designations"),
      Catalog.Measure("mh_hpsa_max_score", "Mental Health Max HPSA Score", "Maximum HPSA score (higher = greater shortage)"),
      Catalog.Measure("mh_hpsa_avg_score", "Mental Health Avg HPSA Score", "Average HPSA score across designations"),
      Catalog.Measure("mh_underserved_pop", "Mental Health Underserved Pop", "Estimated underserved population")
    ])
  ]

  /** Michigan's county FIPS codes and the county each stands for. */
  const MI_FIPS_TO_COUNTY: map<string, string> := map[
    "26001" := "Alcona", "26003" := "Alger", "26005" := "Allegan",
    "26007" := "Alpena", "26009" := "Antrim", "26011" := "Arenac",
    "26013" := "Baraga", "26015" := "Barry", "26017" := "Bay",
    "26019" := "Benzie", "26021" := "Berrien", "26023" := "Branch",
    "26025" := "Calhoun", "26027" := "Cass", "26029" := "Charlevoix",
    "26031" := "Cheboygan", "26033" := "Chippewa", "26035" := "Clare",
    "26037" := "Clinton", "26039" := "Crawford", "26041" := "Delta",
    "26043" := "Dickinson", "26045" := "Eaton", "26047" := "Emmet",
    "26049" := "Genesee", "26051" := "Gladwin", "26053" := "Gogebic",
    "26055" := "Grand Traverse", "26057" := "Gratiot", "26059" := "Hillsdale",
    "26061" := "Houghton", "26063" := "Huron", "26065" := "Ingham",
    "26067" := "Ionia", "26069" := "Iosco", "26071" := "Iron",
    "26073" := "Isabella", "26075" := "Jackson", "26077" := "Kalamazoo",
    "26079" := "Kalkaska", "26081" := "Kent", "26083" := "Keweenaw",
    "26085" := "Lake", "26087" := "Lapeer", "26089" := "Leelanau",
    "26091" := "Lenawee", "26093" := "Livingston", "26095" := "Luce",
    "26097" := "Mackinac", "26099" := "Macomb", "26101" := "Manistee",
    "26103" := "Marquette", "26105" := "Mason", "26107" := "Mecosta",
    "26109" := "Menominee", "26111" := "Midland", "26113" := "Missaukee",
    "26115" := "Monroe", "26117" := "Montcalm", "26119" := "Montmorency",
    "26121" := "Muskegon", "26123" := "Newaygo", "26125" := "Oakland",
    "26127" := "Oceana", "26129" := "Ogemaw", "26131" := "Ontonagon",
    "26133" := "Osceola", "26135" := "Oscoda", "26137" := "Otsego",
    "26139" := "Ottawa", "26141" := "Presque Isle", "26143" := "Roscommon",
    "26145" := "Saginaw", "26147" := "Saint Clair", "26149" := "Saint Joseph",
    "26151" := "Sanilac", "26153" := "Schoolcraft", "26155" := "Shiawassee",
    "26157" := "Tuscola", "26159" := "Van Buren", "26161" := "Washtenaw",
    "26163" := "Wayne", "26165" := "Wexford"
  ]

  /** The table knows the codes of the example below. */
  lemma FipsExamples()
    ensures KnowsExample(MI_FIPS_TO_COUNTY)
  {
  }

  /** `resolve_hpsa_measures`: `all` selects both groups' eight measures;
      otherwise the named groups' measures in request order, or an error
      naming the first unknown group. */
  function ResolveHpsaMeasures(groups: seq<string>): (r: Result<seq<Catalog.Measure>>)
    ensures Catalog.ALL in groups ==>
      r == Ok(HPSA_MEASURES[0].members + HPSA_MEASURES[1].members) && |r.value| == 8
    ensures Catalog.ALL !in groups ==>
      (r.Ok? <==> forall i :: 0 <= i < |groups| ==> groups[i] in {PRIMARY_CARE, MENTAL_HEALTH})
    ensures r.Err? ==> exists k :: Catalog.FirstUnknown(HPSA_MEASURES, groups, k) && r.error == UnknownGroup(groups[k])
  {
    assert Catalog.Names(HPSA_MEASURES) == [PRIMARY_CARE, MENTAL_HEALTH];
    if Catalog.ALL in groups then
      HpsaAll(groups);
      Catalog.Resolve(HPSA_MEASURES, groups)
    else Catalog.Resolve(HPSA_MEASURES, groups)
  }

  lemma HpsaAll(groups: seq<string>)
    requires Catalog.ALL in groups
    ensures Catalog.Resolve(HPSA_MEASURES, groups) == Ok(HPSA_MEASURES[0].members + HPSA_MEASURES[1].members)
  {
    assert Catalog.Names(HPSA_MEASURES) == [PRIMARY_CARE, MENTAL_HEALTH];
    Catalog.ResolveAll(HPSA_MEASURES, groups);
    var ms := Map(HPSA_MEASURES, Catalog.GroupMembers);
    assert ms == [HPSA_MEASURES[0].members, HPSA_MEASURES[1].members];
    assert ms[..1][..0] == [] && ms[..1] == [HPSA_MEASURES[0].members];
    assert Flatten(ms[..1]) == HPSA_MEASURES[0].members;
    assert Flatten(ms) == Flatten(ms[..1]) + ms[1];
  }

  /** Naming one group selects exactly its four measures. */
  lemma ResolveHpsaSingle(name: string)
    requires name in {PRIMARY_CARE, MENTAL_HEALTH}
    ensures ResolveHpsaMeasures([name]) == Ok(Catalog.Members(HPSA_MEASURES, name))
    ensures |ResolveHpsaMeasures([name]).value| == 4
  {
    assert Catalog.Names(HPSA_MEASURES) == [PRIMARY_CARE, MENTAL_HEALTH];
    Catalog.ResolveSingle(HPSA_MEASURES, name);
    assert Catalog.Lookup(HPSA_MEASURES, PRIMARY_CARE) == Some(HPSA_MEASURES[0].members);
    assert Catalog.Lookup(HPSA_MEASURES, MENTAL_HEALTH) == Some(HPSA_MEASURES[1].members);
  }

  // ---------------------------------------------------------------------
  // Reading one designation

  /** A JSON scalar as `resp.json()` gives it. */
  datatype Scalar = JStr(s: string) | JInt(i: int) | JReal(x: real) | JNull

  type Attrs = map<string, Scalar>

  const FIPS_FIELD: string := "CMN_STATE_COUNTY_FIPS_CD"
  const SCORE_FIELD: string := "HPSA_SCORE"
  const POP_FIELD: string := "HPSA_ESTIMATED_UNDERSERVED_POP"

  /** `str(v)` of a JSON scalar: a string is itself, an integer is text
      `int()` reads back, a float its `str()`, and `null` is `"None"`. */
  function StrOf(v: Scalar, ft: FloatText): (r: string)
    ensures v.JStr? ==> r == v.s
    ensures v.JInt? ==> ParseInt(r) == Some(v.i)
    ensures v.JReal? ==> r == ft.repr(v.x)
    ensures v.JNull? ==> r == "None"
  {
    match v
    case JStr(s) => s
    case JInt(i) => IntToString(i)
    case JReal(x) => ft.repr(x)
    case JNull => "None"
  }

  /** `str(attrs.get("CMN_STATE_COUNTY_FIPS_CD", ""))` */
  function FipsText(a: Attrs, ft: FloatText): string {
    if FIPS_FIELD in a then StrOf(a[FIPS_FIELD], ft) else ""
  }

  /** `MI_FIPS_TO_COUNTY.get(fips)`, where an empty name also counts as
      no county (`if not county: continue`). */
  function CountyIn(fips: map<string, string>, ft: FloatText): (r: Attrs -> Option<string>)
    ensures forall a :: r(a).Some? ==> r(a).value != "" && r(a).value in fips.Values
    ensures forall a :: r(a).None? <==> FipsText(a, ft) !in fips || fips[FipsText(a, ft)] == ""
  {
    (a: Attrs) => var f := FipsText(a, ft); if f in fips && fips[f] != "" then Some(fips[f]) else None
  }

  /** `[float(score)]` when the score is present, not null, and reads as
      a number; nothing otherwise. */
  function ScoreList(a: Attrs): (r: seq<real>)
    ensures |r| <= 1
    ensures SCORE_FIELD !in a || a[SCORE_FIELD] == JNull ==> r == []
  {
    if SCORE_FIELD !in a then []
    else
      match a[SCORE_FIELD]
      case JNull => []
      case JInt(i) => [i as real]
      case JReal(x) => [x]
      case JStr(s) =>
        match ParseNumber(s)
        case Some(x) => [x]
        case None => []
  }

  /** `int(pop)` when the population is present, not null, and reads as an
      integer; 0 (adding nothing) otherwise. A float is truncated. */
  function PopOf(a: Attrs): (r: int)
    ensures POP_FIELD !in a || a[POP_FIELD] == JNull ==> r == 0
  {
    if POP_FIELD !in a then 0
    else
      match a[POP_FIELD]
      case JNull => 0
      case JInt(i) => i
      case JReal(x) => Truncate(x)
      case JStr(s) =>
        match ParseInt(s)
        case Some(i) => i
        case None => 0
  }

  // ---------------------------------------------------------------------
  // The roll-up

  /** A county's entry while the loop runs: designations, parsed scores,
      and the population sum. */
  datatype Shortage = Shortage(count: nat, scores: seq<real>, pop: int)

  function NewShortage(county: string): Shortage {
    Shortage(0, [], 0)
  }

  function Step(t: Shortage, a: Attrs): Shortage {
    Shortage(t.count + 1, t.scores + ScoreList(a), t.pop + PopOf(a))
  }

  function Shortages(features: seq<Attrs>, fips: map<string, string>, ft: FloatText): (d: Dict<Shortage>)
    ensures Valid(d) && |d.keys| <= |features|
    ensures forall county :: county in d.entries <==>
      exists i :: 0 <= i < |features| && CountyIn(fips, ft)(features[i]) == Some(county)
  {
    GroupFold(features, CountyIn(fips, ft), NewShortage, Step)
  }

  function CountField(prefix: string): string { prefix + "_hpsa_count" }
  function MaxField(prefix: string): string { prefix + "_hpsa_max_score" }
  function AvgField(prefix: string): string { prefix + "_hpsa_avg_score" }
  function PopField(prefix: string): string { prefix + "_underserved_pop" }

  /** `str(max(scores))`, or `""` with no score: the rendering of a score
      that no other score exceeds. */
  function MaxText(scores: seq<real>, ft: FloatText): (r: string)
    ensures |scores| == 0 ==> r == ""
    ensures |scores| > 0 ==>
      exists m :: r == ft.repr(m) && m in scores && (forall i :: 0 <= i < |scores| ==> scores[i] <= m)
  {
    if |scores| == 0 then "" else ft.repr(MaxOf(scores))
  }

  /** `str(pop) if pop else ""`: blank exactly when the sum is 0, and
      otherwise the decimal text of the sum, which `int()` reads back. */
  function PopText(pop: int): (r: string)
    ensures r == "" <==> pop == 0
    ensures pop > 0 ==> Canonical(r) && DigitsValue(r) == pop
    ensures pop < 0 ==> r[0] == '-' && Canonical(r[1..]) && DigitsValue(r[1..]) == -pop
    ensures pop != 0 ==> ParseInt(r) == Some(pop)
  {
    if pop == 0 then "" else IntToString(pop)
  }

  /** A county's output row. */
  function ShortageRow(prefix: string, county: string, t: Shortage, ft: FloatText): Row {
    map[CountField(prefix) := Int(t.count),
        MaxField(prefix) := Str(MaxText(t.scores, ft)),
        AvgField(prefix) := Str(MeanText(t.scores, ft)),
        PopField(prefix) := Str(PopText(t.pop)),
        "county" := Str(county)]
  }

  function Finish(prefix: string, ft: FloatText): (string, Shortage) -> Row {
    (k: string, t: Shortage) => ShortageRow(prefix, k, t, ft)
  }

  /** `_aggregate_hpsa_by_county(features, prefix)`, with the FIPS table
      as a parameter (`MI_FIPS_TO_COUNTY` in the program). */
  function Aggregate(features: seq<Attrs>, prefix: string, fips: map<string, string>, ft: FloatText): (r: seq<Row>)
    ensures |r| <= |features|
    ensures StrictlyAscending(r, RowKey("county"))
    ensures forall k :: k in Map(r, RowKey("county")) <==>
      exists i :: 0 <= i < |features| && CountyIn(fips, ft)(features[i]) == Some(k)
  {
    FinishKeyed(features, prefix, fips, ft);
    SortedItemsKeys(Shortages(features, fips, ft), Finish(prefix, ft), "county");
    SortedItems(Shortages(features, fips, ft), Finish(prefix, ft), "county")
  }

  // ---------------------------------------------------------------------
  // What the roll-up computes

  function FeaturesOf(features: seq<Attrs>, fips: map<string, string>, ft: FloatText, county: string): seq<Attrs> {
    Group(features, CountyIn(fips, ft), county)
  }

  /** The reference reading of a county's entry: its designations, their
      scores that read, in order, and the sum of their populations. */
  function Reference(g: seq<Attrs>): Shortage {
    Shortage(|g|, Flatten(Map(g, ScoreList)), SumInt(g, PopOf))
  }

  lemma {:induction false} ShortageFold(g: seq<Attrs>, county: string)
    ensures Fold(g, NewShortage(county), Step) == Reference(g)
    decreases |g|
  {
    if |g| > 0 {
      var pre := g[..|g| - 1];
      ShortageFold(pre, county);
      assert Map(g, ScoreList)[..|g| - 1] == Map(pre, ScoreList);
    }
  }

  /** A county has an entry exactly when some designation maps to it, and
      the entry is the reference reading of its designations. */
  lemma ShortagesSpec(features: seq<Attrs>, fips: map<string, string>, ft: FloatText, county: string)
    ensures county in Shortages(features, fips, ft).entries <==>
      exists i :: 0 <= i < |features| && CountyIn(fips, ft)(features[i]) == Some(county)
    ensures county in Shortages(features, fips, ft).entries ==>
      Shortages(features, fips, ft).entries[county] == Reference(FeaturesOf(features, fips, ft, county))
  {
    GroupFoldAt(features, CountyIn(fips, ft), NewShortage, Step, county);
    GroupNonEmpty(features, CountyIn(fips, ft), county);
    ShortageFold(FeaturesOf(features, fips, ft, county), county);
  }

  /** A row carries its county and its designation count. */
  lemma ShortageRowFields(prefix: string, county: string, t: Shortage, ft: FloatText)
    ensures Get(ShortageRow(prefix, county, t, ft), "county") == county
    ensures ShortageRow(prefix, county, t, ft)[CountField(prefix)] == Int(t.count)
  {
    assert |CountField(prefix)| != |MaxField(prefix)|;
    assert |CountField(prefix)| != |AvgField(prefix)|;
    assert |CountField(prefix)| != |PopField(prefix)|;
    assert |CountField(prefix)| != |"county"|;
  }

  lemma FinishKeyed(features: seq<Attrs>, prefix: string, fips: map<string, string>, ft: FloatText)
    ensures KeyedBy(Shortages(features, fips, ft), Finish(prefix, ft), "county")
  {
    var d := Shortages(features, fips, ft);
    var items := Items(d, Finish(prefix, ft));
    forall j | 0 <= j < |items| ensures Map(items, RowKey("county"))[j] == d.keys[j] {
      ShortageRowFields(prefix, d.keys[j], d.entries[d.keys[j]], ft);
    }
  }

  /** `x` is the row of its county, built from the reference reading. */
  predicate CountyRow(features: seq<Attrs>, prefix: string, fips: map<string, string>, ft: FloatText, x: Row) {
    x == ShortageRow(prefix, Get(x, "county"), Reference(FeaturesOf(features, fips, ft, Get(x, "county"))), ft)
  }

  /** One row per county some designation maps to, in strictly ascending
      county order, each built from that county's designations. */
  lemma AggregateSpec(features: seq<Attrs>, prefix: string, fips: map<string, string>, ft: FloatText)
    ensures StrictlyAscending(Aggregate(features, prefix, fips, ft), RowKey("county"))
    ensures forall k :: k in Map(Aggregate(features, prefix, fips, ft), RowKey("county")) <==>
      exists i :: 0 <= i < |features| && CountyIn(fips, ft)(features[i]) == Some(k)
    ensures forall i :: 0 <= i < |Aggregate(features, prefix, fips, ft)| ==>
      CountyRow(features, prefix, fips, ft, Aggregate(features, prefix, fips, ft)[i])
  {
    var d := Shortages(features, fips, ft);
    var out := Aggregate(features, prefix, fips, ft);
    forall k ensures k in d.entries <==> exists i :: 0 <= i < |features| && CountyIn(fips, ft)(features[i]) == Some(k) {
      ShortagesSpec(features, fips, ft, k);
    }
    FinishKeyed(features, prefix, fips, ft);
    SortedItemsSpec(d, Finish(prefix, ft), "county");
    forall i | 0 <= i < |out| ensures CountyRow(features, prefix, fips, ft, out[i]) {
      ShortagesSpec(features, fips, ft, Get(out[i], "county"));
    }
  }

  /** A designation whose FIPS code names no county changes nothing. */
  lemma UnknownFipsDropped(features: seq<Attrs>, a: Attrs, prefix: string, fips: map<string, string>, ft: FloatText)
    requires FipsText(a, ft) !in fips
    ensures Aggregate(features + [a], prefix, fips, ft) == Aggregate(features, prefix, fips, ft)
  {
    var rs := features + [a];
    assert rs[..|rs| - 1] == features;
    assert CountyIn(fips, ft)(a) == None;
  }

  /** With no designation in a known county the roll-up is empty. */
  lemma NoKnownFipsEmpty(features: seq<Attrs>, prefix: string, fips: map<string, string>, ft: FloatText)
    requires forall i :: 0 <= i < |features| ==> FipsText(features[i], ft) !in fips
    ensures Aggregate(features, prefix, fips, ft) == []
  {
    GroupFoldNone(features, CountyIn(fips, ft), NewShortage, Step);
    assert Items(Shortages(features, fips, ft), Finish(prefix, ft)) == [];
  }

  /** The population cell is `""` exactly when the sum is 0, and otherwise
      the decimal text of the sum, which `int()` reads back. */
  lemma PopTextSpec(pop: int)
    ensures PopText(pop) == "" <==> pop == 0
    ensures pop > 0 ==> Canonical(PopText(pop)) && DigitsValue(PopText(pop)) == pop
    ensures pop < 0 ==> PopText(pop)[0] == '-' && Canonical(PopText(pop)[1..]) && DigitsValue(PopText(pop)[1..]) == -pop
    ensures pop != 0 ==> ParseInt(PopText(pop)) == Some(pop)
  {
  }

  /** The maximum score is a score of the county and no score exceeds it;
      with no score both score cells are blank. */
  lemma ScoreCells(scores: seq<real>, ft: FloatText)
    ensures |scores| == 0 ==> MaxText(scores, ft) == "" && MeanText(scores, ft) == ""
    ensures |scores| > 0 ==>
      exists m :: MaxText(scores, ft) == ft.repr(m) && m in scores && (forall i :: 0 <= i < |scores| ==> scores[i] <= m)
  {
    if |scores| > 0 {
      var m := MaxOf(scores);
      assert MaxText(scores, ft) == ft.repr(m);
    }
  }

  /** A county's designation count and population sum do not depend on
      the order of the designations. */
  lemma ShortageOrderFree(a: seq<Attrs>, b: seq<Attrs>, fips: map<string, string>, ft: FloatText, county: string)
    requires multiset(a) == multiset(b)
    ensures var ta, tb := Reference(FeaturesOf(a, fips, ft, county)), Reference(FeaturesOf(b, fips, ft, county));
      ta.count == tb.count && ta.pop == tb.pop
  {
    var ga, gb := FeaturesOf(a, fips, ft, county), FeaturesOf(b, fips, ft, county);
    FilterPerm(a, b, InGroup(CountyIn(fips, ft), county));
    SumIntPerm(ga, gb, PopOf);
  }

  /** Every designation in a known county is counted once, in its own
      county: the counts add up to the number of such designations. */
  lemma CountsSum(features: seq<Attrs>, prefix: string, fips: map<string, string>, ft: FloatText)
    ensures SumInt(Aggregate(features, prefix, fips, ft), CountOf(prefix)) == |Kept(features, CountyIn(fips, ft))|
  {
    ItemsCountsSum(features, prefix, fips, ft);
    SumIntPerm(Items(Shortages(features, fips, ft), Finish(prefix, ft)), Aggregate(features, prefix, fips, ft), CountOf(prefix));
  }

  /** The same sum over the roll-up's items before they are sorted. */
  lemma ItemsCountsSum(features: seq<Attrs>, prefix: string, fips: map<string, string>, ft: FloatText)
    ensures SumInt(Items(Shortages(features, fips, ft), Finish(prefix, ft)), CountOf(prefix)) == |Kept(features, CountyIn(fips, ft))|
  {
    ItemsGroupSizes(features, prefix, fips, ft);
    GroupSizesSum(features, CountyIn(fips, ft), NewShortage, Step);
  }

  /** Before sorting, the counts add up to the group sizes over the keys. */
  lemma ItemsGroupSizes(features: seq<Attrs>, prefix: string, fips: map<string, string>, ft: FloatText)
    ensures SumInt(Items(Shortages(features, fips, ft), Finish(prefix, ft)), CountOf(prefix)) ==
      SumInt(Shortages(features, fips, ft).keys, GroupSize(features, CountyIn(fips, ft)))
  {
    var d := Shortages(features, fips, ft);
    ItemCounts(features, prefix, fips, ft);
    SumIntPointwise(Items(d, Finish(prefix, ft)), CountOf(prefix), d.keys, GroupSize(features, CountyIn(fips, ft)));
  }

  /** `row[f"{prefix}_hpsa_count"]` as a number. */
  function CountOf(prefix: string): Row -> int {
    (row: Row) => if CountField(prefix) in row && row[CountField(prefix)].Int? then row[CountField(prefix)].i else 0
  }

  lemma ItemCounts(features: seq<Attrs>, prefix: string, fips: map<string, string>, ft: FloatText)
    ensures |Items(Shortages(features, fips, ft), Finish(prefix, ft))| == |Shortages(features, fips, ft).keys|
    ensures forall j :: 0 <= j < |Shortages(features, fips, ft).keys| ==>
      CountOf(prefix)(Items(Shortages(features, fips, ft), Finish(prefix, ft))[j]) ==
      GroupSize(features, CountyIn(fips, ft))(Shortages(features, fips, ft).keys[j])
  {
    var d := Shortages(features, fips, ft);
    var items := Items(d, Finish(prefix, ft));
    forall j | 0 <= j < |d.keys|
      ensures CountOf(prefix)(items[j]) == GroupSize(features, CountyIn(fips, ft))(d.keys[j])
    {
      var k := d.keys[j];
      ShortagesSpec(features, fips, ft, k);
      ShortageRowFields(prefix, k, d.entries[k], ft);
    }
  }

  // ---------------------------------------------------------------------
  // Both layers

  /** The ids of the requested measures. */
  function Ids(measures: seq<Catalog.Measure>): set<string> {
    set m | m in measures :: m.id
  }

  /** Some measure of the layer's group was requested. */
  predicate Requested(layer: Layer, ids: set<string>) {
    exists m :: m in Catalog.Members(HPSA_MEASURES, layer.group) && m.id in ids
  }

  /** A layer's designations, as the service returns them for its path. */
  type Fetch = string -> seq<Attrs>

  /** The rows of the requested layers, layer after layer; a layer none of
      whose measures is requested is not fetched at all. */
  function LayerRows(layers: seq<Layer>, ids: set<string>, fetch: Fetch, fips: map<string, string>, ft: FloatText): (r: seq<Row>)
    ensures forall x :: x in r <==> InLayers(layers, ids, fetch, fips, ft)(x)
    decreases |layers|
  {
    if |layers| == 0 then []
    else
      SomeAtLast(layers, FromLayer(ids, fetch, fips, ft));
      LayerRows(layers[..|layers| - 1], ids, fetch, fips, ft) + LayerPart(layers[|layers| - 1], ids, fetch, fips, ft)
  }

  /** `x` is a row of the aggregate of one of the requested layers. */
  ghost function InLayers(layers: seq<Layer>, ids: set<string>, fetch: Fetch, fips: map<string, string>, ft: FloatText): Row -> bool {
    (x: Row) => SomeAt(layers, FromLayer(ids, fetch, fips, ft), x)
  }

  /** `x` is a row of the aggregate of a layer that was requested. */
  ghost function FromLayer(ids: set<string>, fetch: Fetch, fips: map<string, string>, ft: FloatText): (Layer, Row) -> bool {
    (layer: Layer, x: Row) => Requested(layer, ids) && x in Aggregate(fetch(layer.path), layer.prefix, fips, ft)
  }

  /** One layer's rows: its aggregate when requested, nothing otherwise. */
  function LayerPart(layer: Layer, ids: set<string>, fetch: Fetch, fips: map<string, string>, ft: FloatText): (r: seq<Row>)
    ensures forall x :: x in r <==> FromLayer(ids, fetch, fips, ft)(layer, x)
  {
    if Requested(layer, ids) then Aggregate(fetch(layer.path), layer.prefix, fips, ft) else []
  }

  /** The requested layers' rows, merged by county with a later layer's
      value winning, sorted by county. */
  function FetchLayers(layers: seq<Layer>, measures: seq<Catalog.Measure>, fetch: Fetch, fips: map<string, string>, ft: FloatText): (r: seq<Row>)
    ensures StrictlyAscending(r, RowKey("county"))
    ensures forall k :: k in Map(r, RowKey("county")) <==>
      exists x :: InLayers(layers, Ids(measures), fetch, fips, ft)(x) && Get(x, "county") == k
  {
    var rows := LayerRows(layers, Ids(measures), fetch, fips, ft);
    KeysOfMembers(rows, "county", InLayers(layers, Ids(measures), fetch, fips, ft));
    MergeBy(rows, "county")
  }

  /** `fetch_shortage_data`: with no measure requested, no layer is
      fetched and there are no rows. */
  function FetchShortage(measures: seq<Catalog.Measure>, fetch: Fetch, fips: map<string, string>, ft: FloatText): (r: seq<Row>)
    ensures StrictlyAscending(r, RowKey("county"))
    ensures |measures| == 0 ==> r == []
    ensures forall k :: k in Map(r, RowKey("county")) <==>
      exists x :: InLayers(HPSA_LAYERS, Ids(measures), fetch, fips, ft)(x) && Get(x, "county") == k
  {
    if |measures| == 0 then
      LayerRowsNone(HPSA_LAYERS, Ids(measures), fetch, fips, ft);
      FetchLayers(HPSA_LAYERS, measures, fetch, fips, ft)
    else FetchLayers(HPSA_LAYERS, measures, fetch, fips, ft)
  }

  /** The service is only asked for the layers that were requested: two
      services that agree on those give the same rows. */
  lemma {:induction false} LayerRowsFetch(layers: seq<Layer>, ids: set<string>, f: Fetch, g: Fetch,
                                          fips: map<string, string>, ft: FloatText)
    requires forall i :: 0 <= i < |layers| && Requested(layers[i], ids) ==> f(layers[i].path) == g(layers[i].path)
    ensures LayerRows(layers, ids, f, fips, ft) == LayerRows(layers, ids, g, fips, ft)
    decreases |layers|
  {
    if |layers| > 0 {
      var pre := layers[..|layers| - 1];
      assert forall i :: 0 <= i < |pre| ==> pre[i] == layers[i];
      LayerRowsFetch(pre, ids, f, g, fips, ft);
    }
  }

  /** With no requested layer there is nothing to merge. */
  lemma {:induction false} LayerRowsNone(layers: seq<Layer>, ids: set<string>, fetch: Fetch, fips: map<string, string>, ft: FloatText)
    requires forall i :: 0 <= i < |layers| ==> !Requested(layers[i], ids)
    ensures LayerRows(layers, ids, fetch, fips, ft) == []
    decreases |layers|
  {
    if |layers| > 0 {
      var pre := layers[..|layers| - 1];
      assert forall i :: 0 <= i < |pre| ==> pre[i] == layers[i];
      LayerRowsNone(pre, ids, fetch, fips, ft);
    }
  }

  /** A county is in the result exactly when a requested layer has a row
      for it; there is one row per county, in ascending order, holding the
      union of its layer rows with the later layer winning. */
  lemma FetchLayersSpec(layers: seq<Layer>, measures: seq<Catalog.Measure>, fetch: Fetch, fips: map<string, string>, ft: FloatText)
    ensures var rows := LayerRows(layers, Ids(measures), fetch, fips, ft);
      var out := FetchLayers(layers, measures, fetch, fips, ft);
      && StrictlyAscending(out, RowKey("county"))
      && (forall k :: k in Map(out, RowKey("county")) <==> k in Map(rows, RowKey("county")))
      && (forall i :: 0 <= i < |out| ==> out[i] == MergedRow(rows, "county", Get(out[i], "county")))
  {
    var rows := LayerRows(layers, Ids(measures), fetch, fips, ft);
    MergeByKeys(rows, "county");
  }

  /** Requesting only primary care measures leaves the mental health
      layer unfetched. */
  lemma PrimaryCareOnly(fetch: Fetch, fips: map<string, string>, ft: FloatText)
    ensures FetchShortage(HPSA_MEASURES[0].members, fetch, fips, ft) ==
      MergeBy(Aggregate(fetch("/9/query"), "pc", fips, ft), "county")
  {
    var ids := Ids(HPSA_MEASURES[0].members);
    PrimaryCareLayers(ids);
    FirstLayerOnly(HPSA_LAYERS[0], HPSA_LAYERS[1], ids, fetch, fips, ft);
    assert HPSA_LAYERS == [HPSA_LAYERS[0], HPSA_LAYERS[1]];
  }

  lemma LayerRowsLast(layers: seq<Layer>, ids: set<string>, fetch: Fetch, fips: map<string, string>, ft: FloatText)
    requires |layers| > 0
    ensures LayerRows(layers, ids, fetch, fips, ft) ==
      LayerRows(layers[..|layers| - 1], ids, fetch, fips, ft) + LayerPart(layers[|layers| - 1], ids, fetch, fips, ft)
  {
  }

  lemma FirstLayerOnly(l0: Layer, l1: Layer, ids: set<string>, fetch: Fetch, fips: map<string, string>, ft: FloatText)
    requires Requested(l0, ids) && !Requested(l1, ids)
    ensures LayerRows([l0, l1], ids, fetch, fips, ft) == Aggregate(fetch(l0.path), l0.prefix, fips, ft)
  {
    var rows := LayerPart(l0, ids, fetch, fips, ft);
    assert LayerPart(l1, ids, fetch, fips, ft) == [];
    LayerRowsLast([l0], ids, fetch, fips, ft);
    assert [l0][..0] == [];
    LayerRowsLast([l0, l1], ids, fetch, fips, ft);
    assert [l0, l1][..1] == [l0];
  }

  lemma PrimaryCareLayers(ids: set<string>)
    requires ids == Ids(HPSA_MEASURES[0].members)
    ensures Requested(HPSA_LAYERS[0], ids) && !Requested(HPSA_LAYERS[1], ids)
  {
    assert Catalog.Names(HPSA_MEASURES) == [PRIMARY_CARE, MENTAL_HEALTH];
    Catalog.LookupAt(HPSA_MEASURES, 0);
    Catalog.LookupAt(HPSA_MEASURES, 1);
    var m0 := HPSA_MEASURES[0].members[0];
    assert m0.id in ids;
    forall m | m in HPSA_MEASURES[1].members ensures m.id !in ids {
    }
  }

  function Designation(fips: string, score: int, pop: int): Attrs {
    map[FIPS_FIELD := JStr(fips), SCORE_FIELD := JInt(score), POP_FIELD := JInt(pop)]
  }

  predicate KnowsExample(fips: map<string, string>) {
    && "26163" in fips && fips["26163"] == "Wayne"
    && "26125" in fips && fips["26125"] == "Oakland"
  }

  /** Two Wayne designations (scores 20 and 10, populations 15000 and
      5000) and one in Oakland: Wayne's entry counts 2, its scores are 20
      and 10 with maximum 20 and mean 15, and its population sum is 20000,
      which the population cell writes so that `int()` reads it back. */
  lemma WayneExample(fips: map<string, string>, ft: FloatText)
    requires KnowsExample(fips)
    ensures var fs := [Designation("26163", 20, 15000), Designation("26163", 10, 5000), Designation("26125", 18, 8000)];
      var t := Reference(FeaturesOf(fs, fips, ft, "Wayne"));
      && t == Shortage(2, [20.0, 10.0], 20000)
      && MaxOf(t.scores) == 20.0 && Mean(t.scores) == 15.0
      && PopText(t.pop) == "20000"
  {
    var a, b, c := Designation("26163", 20, 15000), Designation("26163", 10, 5000), Designation("26125", 18, 8000);
    assert [a, b, c][..2] == [a, b];
    WayneGroup(fips, ft);
    WayneReference();
    WayneNumbers();
    PopTextSpec(20000);
  }

  lemma WayneNumbers()
    ensures MaxOf([20.0, 10.0]) == 20.0 && Mean([20.0, 10.0]) == 15.0
  {
    assert [20.0, 10.0][..1] == [20.0];
    assert [20.0][..0] == [];
    assert Sum([20.0, 10.0]) == 30.0;
  }

  lemma WayneGroup(fips: map<string, string>, ft: FloatText)
    requires KnowsExample(fips)
    ensures var fs := [Designation("26163", 20, 15000), Designation("26163", 10, 5000), Designation("26125", 18, 8000)];
      FeaturesOf(fs, fips, ft, "Wayne") == fs[..2]
  {
    var a, b, c := Designation("26163", 20, 15000), Designation("26163", 10, 5000), Designation("26125", 18, 8000);
    var fs := [a, b, c];
    var p := InGroup(CountyIn(fips, ft), "Wayne");
    assert FipsText(a, ft) == "26163" && FipsText(b, ft) == "26163" && FipsText(c, ft) == "26125";
    assert p(a) && p(b) && !p(c);
    assert fs[..2] == [a, b] && [a, b][..1] == [a] && [a][..0] == [];
    assert Filter([a], p) == [a];
    assert Filter([a, b], p) == [a, b];
    assert Filter(fs, p) == Filter(fs[..2], p);
  }

  lemma WayneReference()
    ensures Reference([Designation("26163", 20, 15000), Designation("26163", 10, 5000)]) == Shortage(2, [20.0, 10.0], 20000)
  {
    var a, b := Designation("26163", 20, 15000), Designation("26163", 10, 5000);
    var g := [a, b];
    assert ScoreList(a) == [20.0] && ScoreList(b) == [10.0];
    assert PopOf(a) == 15000 && PopOf(b) == 5000;
    assert g[..1] == [a] && [a][..0] == [];
    assert SumInt([a], PopOf) == 15000;
    assert SumInt(g, PopOf) == 20000;
    var ms := Map(g, ScoreList);
    assert ms == [[20.0], [10.0]];
    assert ms[..1] == [[20.0]] && ms[..1][..0] == [];
    assert Flatten(ms[..1]) == [20.0];
    assert Flatten(ms) == [20.0, 10.0];
  }
}
