/** The hospital side of the `access` command (`cms_api/client.py`): the
    measure table, and the roll-up of CMS hospital records into one row per
    county with hospital counts by type, emergency services, birthing
    designation and the mean star rating. A record is a dict of texts; a
    field the record lacks reads as `""`, and so does a JSON `null`, where
    the program raises for a `null` county, type, emergency or birthing
    field. */
module Cms {
  import opened Results
  import opened Seqs
  import opened Text
  import opened Numbers
  import opened Sorting
  import opened Dicts
  import opened Table
  import Catalog

  // ---------------------------------------------------------------------
  // The measure table

  const HOSPITAL_ACCESS: string := "hospital_access"

  const ACCESS_MEASURES: seq<Catalog.Group<Catalog.Measure>> := [
    Catalog.Group(HOSPITAL_ACCESS, [
      Catalog.Measure("hospital_count", "Hospital Count", "Total hospitals in county"),
      Catalog.Measure("acute_care_hospitals", "Acute Care Hospitals", "Acute care hospital count"),
      Catalog.Measure("critical_access_hospitals", "Critical Access Hospitals", "Critical access hospital count"),
      Catalog.Measure("emergency_services", "Emergency Services", "Hospitals with emergency services"),
      Catalog.Measure("birthing_friendly", "Birthing Friendly", "Birthing-friendly designated hospitals"),
      Catalog.Measure("avg_hospital_rating", "Avg Hospital Rating", "Average CMS overall hospital rating")
    ])
  ]

  /** `resolve_access_measures`: `all` or the one group name selects all
      six measures; any other name is an error naming it. */
  function ResolveAccessMeasures(groups: seq<string>): (r: Result<seq<Catalog.Measure>>)
    ensures Catalog.ALL in groups ==> r == Ok(ACCESS_MEASURES[0].members)
    ensures Catalog.ALL !in groups ==> (r.Ok? <==> forall i :: 0 <= i < |groups| ==> groups[i] == HOSPITAL_ACCESS)
    ensures r.Err? ==> exists k :: Catalog.FirstUnknown(ACCESS_MEASURES, groups, k) && r.error == UnknownGroup(groups[k])
  {
    var r := Catalog.Resolve(ACCESS_MEASURES, groups);
    assert Catalog.Names(ACCESS_MEASURES) == [HOSPITAL_ACCESS];
    if Catalog.ALL in groups then
      AccessAll(groups);
      r
    else r
  }

  lemma AccessAll(groups: seq<string>)
    requires Catalog.ALL in groups
    ensures Catalog.Resolve(ACCESS_MEASURES, groups) == Ok(ACCESS_MEASURES[0].members)
  {
    assert Catalog.WellFormed(ACCESS_MEASURES);
    Catalog.ResolveAll(ACCESS_MEASURES, groups);
    var ms := Map(ACCESS_MEASURES, Catalog.GroupMembers);
    assert ms == [ACCESS_MEASURES[0].members];
    assert ms[..0] == [];
    assert Flatten(ms) == Flatten(ms[..0]) + ms[0] == ACCESS_MEASURES[0].members;
    assert Catalog.AllMembers(ACCESS_MEASURES) == Flatten(ms);
  }

  /** The one group selects its six measures. */
  lemma ResolveAccessSingle()
    ensures ResolveAccessMeasures([HOSPITAL_ACCESS]) == Ok(ACCESS_MEASURES[0].members)
    ensures |ResolveAccessMeasures([HOSPITAL_ACCESS]).value| == 6
  {
    assert Catalog.Names(ACCESS_MEASURES) == [HOSPITAL_ACCESS];
    Catalog.ResolveSingle(ACCESS_MEASURES, HOSPITAL_ACCESS);
    assert Catalog.Lookup(ACCESS_MEASURES, HOSPITAL_ACCESS) == Some(ACCESS_MEASURES[0].members);
  }

  // ---------------------------------------------------------------------
  // Classifying one record

  /** The record's county: `countyparish` trimmed and title-cased, or
      nothing when it is blank. */
  function CountyOf(rec: Record): (r: Option<string>)
    ensures r.None? <==> forall i :: 0 <= i < |Field(rec, "countyparish")| ==> IsSpace(Field(rec, "countyparish")[i])
    ensures r.Some? ==> |r.value| > 0 && !IsSpace(r.value[0]) && !IsSpace(r.value[|r.value| - 1])
    ensures r.Some? ==> exists t :: Trimmed(Field(rec, "countyparish"), t) && r.value == Title(t)
  {
    var s := Field(rec, "countyparish");
    var c := Strip(s);
    if c == "" then None
    else
      StripTitled(s);
      assert Trimmed(s, c);
      Some(Title(c))
  }

  predicate IsAcute(rec: Record) {
    Contains(Field(rec, "hospital_type"), "Acute Care")
  }

  /** The `elif`: a critical access hospital that is not also acute care. */
  predicate IsCritical(rec: Record) {
    !IsAcute(rec) && Contains(Field(rec, "hospital_type"), "Critical Access")
  }

  predicate HasEmergency(rec: Record) {
    Lower(Field(rec, "emergency_services")) in {"yes", "y", "true"}
  }

  predicate IsBirthing(rec: Record) {
    Upper(Field(rec, "meets_criteria_for_birthing_friendly_designation")) == "Y"
  }

  /** `[float(rating)]` when the rating reads as a number, else nothing. */
  function RatingList(rec: Record): seq<real> {
    match ParseNumber(Field(rec, "hospital_overall_rating"))
    case Some(x) => [x]
    case None => []
  }

  // ---------------------------------------------------------------------
  // The roll-up

  /** A county's entry while the loop runs. */
  datatype Tally = Tally(count: nat, acute: nat, critical: nat, emergency: nat, birthing: nat, ratings: seq<real>)

  function NewTally(county: string): Tally {
    Tally(0, 0, 0, 0, 0, [])
  }

  function Bit(b: bool): nat {
    if b then 1 else 0
  }

  /** The loop body for one record of the county. */
  function Step(t: Tally, rec: Record): Tally {
    Tally(t.count + 1,
          t.acute + Bit(IsAcute(rec)),
          t.critical + Bit(IsCritical(rec)),
          t.emergency + Bit(HasEmergency(rec)),
          t.birthing + Bit(IsBirthing(rec)),
          t.ratings + RatingList(rec))
  }

  /** The dict `by_county` after the loop. */
  function Tallies(records: seq<Record>): (d: Dict<Tally>)
    ensures Valid(d) && |d.keys| <= |records|
    ensures forall county :: county in d.entries <==>
      exists i :: 0 <= i < |records| && CountyOf(records[i]) == Some(county)
  {
    GroupFold(records, CountyOf, NewTally, Step)
  }

  /** A county's output row: its county, and a cell for every measure of
      the hospital table, the counts as Python ints. */
  function HospitalRow(county: string, t: Tally, ft: FloatText): (r: Row)
    ensures Get(r, "county") == county && CountOf(r) == t.count
    ensures forall m :: m in ACCESS_MEASURES[0].members ==> m.id in r && (r[m.id].Int? <==> m.id != "avg_hospital_rating")
  {
    var r := map["county" := Str(county),
                  "hospital_count" := Int(t.count),
                  "acute_care_hospitals" := Int(t.acute),
                  "critical_access_hospitals" := Int(t.critical),
                  "emergency_services" := Int(t.emergency),
                  "birthing_friendly" := Int(t.birthing),
                  "avg_hospital_rating" := Str(MeanText(t.ratings, ft))];
    assert forall k :: k in COUNT_IDS ==> k in r && r[k].Int?;
    MeasureIds();
    r
  }

  /** The ids of the count columns. */
  const COUNT_IDS: set<string> :=
    {"hospital_count", "acute_care_hospitals", "critical_access_hospitals", "emergency_services", "birthing_friendly"}

  /** Every hospital measure is a count column or the rating column. */
  lemma MeasureIds()
    ensures forall m :: m in ACCESS_MEASURES[0].members ==> m.id in COUNT_IDS || m.id == "avg_hospital_rating"
    ensures "avg_hospital_rating" !in COUNT_IDS
  {
    var ms := ACCESS_MEASURES[0].members;
    forall m | m in ms ensures m.id in COUNT_IDS || m.id == "avg_hospital_rating" {
      var i :| 0 <= i < |ms| && ms[i] == m;
    }
  }

  function Finish(ft: FloatText): (string, Tally) -> Row {
    (k: string, t: Tally) => HospitalRow(k, t, ft)
  }

  /** `_aggregate_hospitals_by_county`: one row per county, sorted by
      county. */
  function Aggregate(records: seq<Record>, ft: FloatText): (r: seq<Row>)
    ensures |r| <= |records|
    ensures StrictlyAscending(r, RowKey("county"))
    ensures forall k :: k in Map(r, RowKey("county")) <==>
      exists i :: 0 <= i < |records| && CountyOf(records[i]) == Some(k)
  {
    FinishKeyed(records, ft);
    SortedItemsKeys(Tallies(records), Finish(ft), "county");
    SortedItems(Tallies(records), Finish(ft), "county")
  }

  // ---------------------------------------------------------------------
  // What the roll-up computes

  /** The records of a county, in input order. */
  function RecordsOf(records: seq<Record>, county: string): seq<Record> {
    Group(records, CountyOf, county)
  }

  /** The reference reading of a county's tally: each count is the number
      of the county's records of that kind, and the ratings are the ratings
      that read, in record order. */
  function Reference(g: seq<Record>): Tally {
    Tally(|g|, |Filter(g, IsAcute)|, |Filter(g, IsCritical)|, |Filter(g, HasEmergency)|,
          |Filter(g, IsBirthing)|, Flatten(Map(g, RatingList)))
  }

  lemma {:induction false} TallyFold(g: seq<Record>, county: string)
    ensures Fold(g, NewTally(county), Step) == Reference(g)
    decreases |g|
  {
    if |g| > 0 {
      var pre := g[..|g| - 1];
      TallyFold(pre, county);
      var ms := Map(g, RatingList);
      assert ms[..|g| - 1] == Map(pre, RatingList);
    }
  }

  /** A county has an entry exactly when some record belongs to it, and the
      entry is the reference tally of its records. */
  lemma TalliesSpec(records: seq<Record>, county: string)
    ensures county in Tallies(records).entries <==>
      exists i :: 0 <= i < |records| && CountyOf(records[i]) == Some(county)
    ensures county in Tallies(records).entries ==>
      Tallies(records).entries[county] == Reference(RecordsOf(records, county))
  {
    GroupFoldAt(records, CountyOf, NewTally, Step, county);
    GroupNonEmpty(records, CountyOf, county);
    TallyFold(RecordsOf(records, county), county);
  }

  /** The output has one row per county that some record names, in strictly
      ascending county order, and each row holds the reference tally of
      that county's records. */
  lemma AggregateSpec(records: seq<Record>, ft: FloatText)
    ensures StrictlyAscending(Aggregate(records, ft), RowKey("county"))
    ensures forall k :: k in Map(Aggregate(records, ft), RowKey("county")) <==>
      exists i :: 0 <= i < |records| && CountyOf(records[i]) == Some(k)
    ensures forall i :: 0 <= i < |Aggregate(records, ft)| ==> CountyRow(records, ft, Aggregate(records, ft)[i])
  {
    var d := Tallies(records);
    var out := Aggregate(records, ft);
    forall k ensures k in d.entries <==> exists i :: 0 <= i < |records| && CountyOf(records[i]) == Some(k) {
      TalliesSpec(records, k);
    }
    FinishKeyed(records, ft);
    SortedItemsSpec(d, Finish(ft), "county");
    forall i | 0 <= i < |out| ensures CountyRow(records, ft, out[i]) {
      EntryCountyRow(records, ft, out[i]);
    }
  }

  /** A row built from an entry of the tallies is its county's row. */
  lemma EntryCountyRow(records: seq<Record>, ft: FloatText, x: Row)
    requires IsEntryRow(Tallies(records), Finish(ft), "county", x)
    ensures CountyRow(records, ft, x)
  {
    TalliesSpec(records, Get(x, "county"));
  }

  lemma FinishKeyed(records: seq<Record>, ft: FloatText)
    ensures KeyedBy(Tallies(records), Finish(ft), "county")
  {
    var d := Tallies(records);
    var items := Items(d, Finish(ft));
    forall j | 0 <= j < |items| ensures Map(items, RowKey("county"))[j] == d.keys[j] {
      HospitalRowFields(d.keys[j], d.entries[d.keys[j]], ft);
    }
  }

  /** A county's row carries its name and its hospital count. */
  lemma HospitalRowFields(county: string, t: Tally, ft: FloatText)
    ensures Get(HospitalRow(county, t, ft), "county") == county
    ensures CountOf(HospitalRow(county, t, ft)) == t.count
  {
  }

  /** `x` is the row of its county, built from the reference tally. */
  predicate CountyRow(records: seq<Record>, ft: FloatText, x: Row) {
    x == HospitalRow(Get(x, "county"), Reference(RecordsOf(records, Get(x, "county"))), ft)
  }

  /** In every row, acute care and critical access hospitals (exclusive by
      the `elif`) together, those with emergency services, and those with
      the birthing designation are each at most the hospital count. */
  lemma RowBounds(records: seq<Record>, county: string)
    ensures var t := Reference(RecordsOf(records, county));
      && t.acute + t.critical <= t.count
      && t.emergency <= t.count
      && t.birthing <= t.count
  {
    var g := RecordsOf(records, county);
    FilterDisjoint(g, IsAcute, IsCritical);
  }

  /** The average is blank when no rating of the county's records reads. */
  lemma NoRatingBlank(records: seq<Record>, county: string, ft: FloatText)
    requires forall rec :: rec in records && CountyOf(rec) == Some(county) ==> RatingList(rec) == []
    ensures MeanText(Reference(RecordsOf(records, county)).ratings, ft) == ""
  {
    NoRatings(records, county);
  }

  lemma NoRatings(records: seq<Record>, county: string)
    requires forall rec :: rec in records && CountyOf(rec) == Some(county) ==> RatingList(rec) == []
    ensures Flatten(Map(RecordsOf(records, county), RatingList)) == []
  {
    var g := RecordsOf(records, county);
    var ms := Map(g, RatingList);
    forall i | 0 <= i < |ms| ensures ms[i] == [] {
      GroupMember(records, CountyOf, county, g[i]);
    }
    FlattenEmpty(ms);
  }

  lemma {:induction false} FlattenEmpty<T>(ss: seq<seq<T>>)
    requires forall i :: 0 <= i < |ss| ==> ss[i] == []
    ensures Flatten(ss) == []
    decreases |ss|
  {
    if |ss| > 0 {
      FlattenEmpty(ss[..|ss| - 1]);
    }
  }

  // ---------------------------------------------------------------------
  // Totals and order independence

  /** `row["hospital_count"]` as a number. */
  function CountOf(row: Row): int {
    if "hospital_count" in row && row["hospital_count"].Int? then row["hospital_count"].i else 0
  }

  /** The counties' hospital counts add up to the number of records with a
      county: every such record is counted once, in its own county. */
  lemma CountsSum(records: seq<Record>, ft: FloatText)
    ensures SumInt(Aggregate(records, ft), CountOf) == |Kept(records, CountyOf)|
  {
    var d := Tallies(records);
    var items := Items(d, Finish(ft));
    GroupSizesSum(records, CountyOf, NewTally, Step);
    ItemCounts(records, ft);
    SumIntPointwise(items, CountOf, d.keys, GroupSize(records, CountyOf));
    SumIntPerm(items, Aggregate(records, ft), CountOf);
  }

  /** Before sorting, the row of each county counts its records. */
  lemma ItemCounts(records: seq<Record>, ft: FloatText)
    ensures |Items(Tallies(records), Finish(ft))| == |Tallies(records).keys|
    ensures forall j :: 0 <= j < |Tallies(records).keys| ==>
      CountOf(Items(Tallies(records), Finish(ft))[j]) == GroupSize(records, CountyOf)(Tallies(records).keys[j])
  {
    var d := Tallies(records);
    var items := Items(d, Finish(ft));
    forall j | 0 <= j < |d.keys| ensures CountOf(items[j]) == GroupSize(records, CountyOf)(d.keys[j]) {
      var k := d.keys[j];
      TalliesSpec(records, k);
      HospitalRowFields(k, d.entries[k], ft);
    }
  }

  /** The five counts of a county do not depend on the order of the
      records. */
  lemma CountsOrderFree(a: seq<Record>, b: seq<Record>, county: string)
    requires multiset(a) == multiset(b)
    ensures var ta, tb := Reference(RecordsOf(a, county)), Reference(RecordsOf(b, county));
      && ta.count == tb.count && ta.acute == tb.acute && ta.critical == tb.critical
      && ta.emergency == tb.emergency && ta.birthing == tb.birthing
  {
    var ga, gb := RecordsOf(a, county), RecordsOf(b, county);
    FilterPerm(a, b, InGroup(CountyOf, county));
    FilterPerm(ga, gb, IsAcute);
    FilterPerm(ga, gb, IsCritical);
    FilterPerm(ga, gb, HasEmergency);
    FilterPerm(ga, gb, IsBirthing);
  }
}
