/** The `access` command: a request names groups of the CMS table
    (`ACCESS_MEASURES`) and of the HRSA table (`HPSA_MEASURES`) together.
    The command splits the request between the two sources, fetches each
    source only when some of its groups are asked for, merges their rows
    by county with the HRSA fields written last, and writes one table with
    the CMS columns before the HRSA ones. */
module Access {
  import opened Results
  import opened Seqs
  import opened Table
  import opened Numbers
  import opened Sorting
  import opened Dicts
  import Catalog
  import Cms
  import Hrsa

  const COUNTY: string := "county"

  /** The keys of `ACCESS_MEASURES` and of `HPSA_MEASURES`, in table order
      (`AccessGroupNames` shows they are). */
  const CMS_GROUPS: seq<string> := [Cms.HOSPITAL_ACCESS]
  const HRSA_GROUPS: seq<string> := [Hrsa.PRIMARY_CARE, Hrsa.MENTAL_HEALTH]

  /** `ALL_ACCESS_GROUPS`: the group names of both tables. */
  predicate Known(g: string) {
    g in CMS_GROUPS || g in HRSA_GROUPS
  }

  function IsUnknown(g: string): bool {
    !Known(g)
  }

  function InCms(g: string): bool {
    g in CMS_GROUPS
  }

  function InHrsa(g: string): bool {
    g in HRSA_GROUPS
  }

  lemma AccessGroupNames()
    ensures Catalog.Names(Cms.ACCESS_MEASURES) == CMS_GROUPS
    ensures Catalog.Names(Hrsa.HPSA_MEASURES) == HRSA_GROUPS
  {
  }

  /** No group name belongs to both tables, and neither table has a group
      called `all`. */
  lemma NamesDisjoint(g: string)
    ensures !(InCms(g) && InHrsa(g))
    ensures !InCms(Catalog.ALL) && !InHrsa(Catalog.ALL)
  {
  }

  /** The groups to ask of each source. */
  datatype Plan = Plan(cms: seq<string>, hrsa: seq<string>)

  /** The request checks of `access_cmd`: no names at all is an error;
      `all` anywhere selects every group of both tables; otherwise every
      name must be an access group, and the names are split between the
      two sources, each keeping the request's order. */
  function PlanAccess(groups: seq<string>): (r: Result<Plan>)
    ensures |groups| == 0 ==> r == Err(NoAccessGroups)
    ensures |groups| > 0 && Catalog.ALL in groups ==> r == Ok(Plan(CMS_GROUPS, HRSA_GROUPS))
    ensures r.Err? && |groups| > 0 ==>
      && Catalog.ALL !in groups
      && r.error.UnknownAccessGroups?
      && |r.error.names| > 0
      && forall i :: 0 <= i < |r.error.names| ==> !Known(r.error.names[i])
    ensures r.Ok? ==>
      && (forall i :: 0 <= i < |r.value.cms| ==> r.value.cms[i] in CMS_GROUPS)
      && (forall i :: 0 <= i < |r.value.hrsa| ==> r.value.hrsa[i] in HRSA_GROUPS)
  {
    if |groups| == 0 then Err(NoAccessGroups)
    else if Catalog.ALL in groups then Ok(Plan(CMS_GROUPS, HRSA_GROUPS))
    else
      var unknown := Filter(groups, IsUnknown);
      if |unknown| > 0 then Err(UnknownAccessGroups(unknown))
      else Ok(Plan(Filter(groups, InCms), Filter(groups, InHrsa)))
  }

  /** A filter keeps nothing exactly when no element satisfies it. */
  lemma FilterNone<T(!new)>(s: seq<T>, p: T -> bool)
    ensures |Filter(s, p)| == 0 <==> forall i :: 0 <= i < |s| ==> !p(s[i])
  {
    if |Filter(s, p)| == 0 {
      forall i | 0 <= i < |s| ensures !p(s[i]) {
        FilterMember(s, p, s[i]);
      }
    } else {
      var x := Filter(s, p)[0];
      FilterMember(s, p, x);
      var i :| 0 <= i < |s| && s[i] == x;
    }
  }

  /** Without `all`, the request is refused exactly when it names a group
      of neither table, and the error lists every such name and no other. */
  lemma PlanUnknown(groups: seq<string>)
    requires |groups| > 0 && Catalog.ALL !in groups
    ensures PlanAccess(groups).Err? <==> exists i :: 0 <= i < |groups| && !Known(groups[i])
    ensures PlanAccess(groups).Err? ==>
      forall g :: g in PlanAccess(groups).error.names <==> g in groups && !Known(g)
  {
    FilterNone(groups, IsUnknown);
    forall g ensures g in Filter(groups, IsUnknown) <==> g in groups && !Known(g) {
      FilterMember(groups, IsUnknown, g);
    }
  }

  /** Without `all`, an accepted request is split without loss: each name
      goes to the source whose table has it, every occurrence lands in
      exactly one of the two lists, and each list keeps request order. */
  lemma PlanPartition(groups: seq<string>)
    requires Catalog.ALL !in groups && PlanAccess(groups).Ok?
    ensures PlanAccess(groups).value.cms == Filter(groups, InCms)
    ensures PlanAccess(groups).value.hrsa == Filter(groups, InHrsa)
    ensures forall g :: g in PlanAccess(groups).value.cms <==> g in groups && g in CMS_GROUPS
    ensures forall g :: g in PlanAccess(groups).value.hrsa <==> g in groups && g in HRSA_GROUPS
    ensures multiset(PlanAccess(groups).value.cms) + multiset(PlanAccess(groups).value.hrsa) == multiset(groups)
  {
    FilterNone(groups, IsUnknown);
    forall g ensures g in Filter(groups, InCms) <==> g in groups && InCms(g) {
      FilterMember(groups, InCms, g);
    }
    forall g ensures g in Filter(groups, InHrsa) <==> g in groups && InHrsa(g) {
      FilterMember(groups, InHrsa, g);
    }
    SplitCount(groups);
  }

  lemma {:induction false} SplitCount(groups: seq<string>)
    requires forall i :: 0 <= i < |groups| ==> Known(groups[i])
    ensures multiset(Filter(groups, InCms)) + multiset(Filter(groups, InHrsa)) == multiset(groups)
  {
    forall i | 0 <= i < |groups| ensures InCms(groups[i]) != InHrsa(groups[i]) {
      NamesDisjoint(groups[i]);
    }
    FilterSplit(groups, InCms, InHrsa);
  }

  /** The measures of both sources:
      `resolve_access_measures(cms_groups) if cms_groups else []` and the
      same for HRSA. */
  function PlanMeasures(plan: Plan): (r: Result<(seq<Catalog.Measure>, seq<Catalog.Measure>)>)
    ensures (forall i :: 0 <= i < |plan.cms| ==> plan.cms[i] in CMS_GROUPS) &&
            (forall i :: 0 <= i < |plan.hrsa| ==> plan.hrsa[i] in HRSA_GROUPS) ==>
      && r.Ok?
      && (|r.value.0| > 0 <==> |plan.cms| > 0)
      && (|r.value.1| > 0 <==> |plan.hrsa| > 0)
  {
    CmsResolvesWhen(plan.cms);
    HrsaResolvesWhen(plan.hrsa);
    var cm := if |plan.cms| > 0 then Cms.ResolveAccessMeasures(plan.cms) else Ok([]);
    var hm := if |plan.hrsa| > 0 then Hrsa.ResolveHpsaMeasures(plan.hrsa) else Ok([]);
    match cm
    case Err(e) => Err(e)
    case Ok(c) =>
      match hm
      case Err(e) => Err(e)
      case Ok(h) => Ok((c, h))
  }

  /** An accepted request always resolves, and a source has measures
      exactly when some of its groups were asked for. */
  lemma PlanResolves(groups: seq<string>)
    requires PlanAccess(groups).Ok?
    ensures PlanMeasures(PlanAccess(groups).value).Ok?
    ensures |PlanMeasures(PlanAccess(groups).value).value.0| > 0 <==> |PlanAccess(groups).value.cms| > 0
    ensures |PlanMeasures(PlanAccess(groups).value).value.1| > 0 <==> |PlanAccess(groups).value.hrsa| > 0
  {
    var p := PlanAccess(groups).value;
    if |p.cms| > 0 {
      CmsResolves(p.cms);
    }
    if |p.hrsa| > 0 {
      HrsaResolves(p.hrsa);
    }
  }

  lemma CmsResolvesWhen(gs: seq<string>)
    ensures |gs| > 0 && (forall i :: 0 <= i < |gs| ==> gs[i] in CMS_GROUPS) ==>
      Cms.ResolveAccessMeasures(gs).Ok? && |Cms.ResolveAccessMeasures(gs).value| > 0
  {
    if |gs| > 0 && forall i :: 0 <= i < |gs| ==> gs[i] in CMS_GROUPS {
      CmsResolves(gs);
    }
  }

  lemma HrsaResolvesWhen(gs: seq<string>)
    ensures |gs| > 0 && (forall i :: 0 <= i < |gs| ==> gs[i] in HRSA_GROUPS) ==>
      Hrsa.ResolveHpsaMeasures(gs).Ok? && |Hrsa.ResolveHpsaMeasures(gs).value| > 0
  {
    if |gs| > 0 && forall i :: 0 <= i < |gs| ==> gs[i] in HRSA_GROUPS {
      HrsaResolves(gs);
    }
  }

  lemma CmsResolves(gs: seq<string>)
    requires |gs| > 0 && forall i :: 0 <= i < |gs| ==> gs[i] in CMS_GROUPS
    ensures Cms.ResolveAccessMeasures(gs).Ok? && |Cms.ResolveAccessMeasures(gs).value| > 0
  {
    AccessGroupNames();
    NamesDisjoint(Catalog.ALL);
    assert Catalog.ALL !in gs;
    assert Catalog.Members(Cms.ACCESS_MEASURES, gs[0]) == Cms.ACCESS_MEASURES[0].members;
    Catalog.ResolveMember(Cms.ACCESS_MEASURES, gs, Cms.ACCESS_MEASURES[0].members[0]);
  }

  lemma HrsaResolves(gs: seq<string>)
    requires |gs| > 0 && forall i :: 0 <= i < |gs| ==> gs[i] in HRSA_GROUPS
    ensures Hrsa.ResolveHpsaMeasures(gs).Ok? && |Hrsa.ResolveHpsaMeasures(gs).value| > 0
  {
    AccessGroupNames();
    NamesDisjoint(Catalog.ALL);
    assert Catalog.ALL !in gs;
    var m := Catalog.Members(Hrsa.HPSA_MEASURES, gs[0]);
    assert |m| > 0 by {
      Catalog.LookupAt(Hrsa.HPSA_MEASURES, 0);
      Catalog.LookupAt(Hrsa.HPSA_MEASURES, 1);
    }
    Catalog.ResolveMember(Hrsa.HPSA_MEASURES, gs, m[0]);
  }

  /** The rows of each source: CMS rows from the hospital records, HRSA
      rows from the layers, each only when the source has measures. */
  function CmsRows(cm: seq<Catalog.Measure>, records: seq<Record>, ft: FloatText): (r: seq<Row>)
    ensures StrictlyAscending(r, RowKey(COUNTY))
    ensures |cm| == 0 ==> r == []
    ensures |cm| > 0 ==> forall k :: k in Map(r, RowKey(COUNTY)) <==>
      exists i :: 0 <= i < |records| && Cms.CountyOf(records[i]) == Some(k)
  {
    if |cm| > 0 then Cms.Aggregate(records, ft) else []
  }

  function HrsaRows(hm: seq<Catalog.Measure>, fetch: Hrsa.Fetch, fips: map<string, string>, ft: FloatText): (r: seq<Row>)
    ensures StrictlyAscending(r, RowKey(COUNTY))
    ensures |hm| == 0 ==> r == []
    ensures |hm| > 0 ==> forall k :: k in Map(r, RowKey(COUNTY)) <==>
      exists x :: Hrsa.InLayers(Hrsa.HPSA_LAYERS, Hrsa.Ids(hm), fetch, fips, ft)(x) && Get(x, COUNTY) == k
  {
    if |hm| > 0 then Hrsa.FetchShortage(hm, fetch, fips, ft) else []
  }

  /** The writer's columns: every CMS measure, then every HRSA measure. */
  function AccessColumns(cm: seq<Catalog.Measure>, hm: seq<Catalog.Measure>): (r: seq<Column>)
    ensures |r| == |cm| + |hm|
    ensures forall i :: 0 <= i < |cm| ==> r[i] == Column(cm[i].id, cm[i].heading)
    ensures forall i :: 0 <= i < |hm| ==> r[|cm| + i] == Column(hm[i].id, hm[i].heading)
  {
    Catalog.Columns(cm) + Catalog.Columns(hm)
  }

  /** The merge loop of `access_cmd` and its sort by county: CMS rows
      first, HRSA rows after them. */
  function MergedAccess(cm: seq<Catalog.Measure>, hm: seq<Catalog.Measure>, records: seq<Record>,
                        fetch: Hrsa.Fetch, fips: map<string, string>, ft: FloatText): (r: seq<Row>)
    ensures StrictlyAscending(r, RowKey(COUNTY))
    ensures forall k :: k in Map(r, RowKey(COUNTY)) <==>
      k in Map(CmsRows(cm, records, ft), RowKey(COUNTY)) || k in Map(HrsaRows(hm, fetch, fips, ft), RowKey(COUNTY))
  {
    MapConcat(CmsRows(cm, records, ft), HrsaRows(hm, fetch, fips, ft), RowKey(COUNTY));
    MergeBy(CmsRows(cm, records, ft) + HrsaRows(hm, fetch, fips, ft), COUNTY)
  }

  /** `_write_rows` after the filter and the sort: nothing when no row is
      left, otherwise a header of `County`, the CMS labels and the HRSA
      labels, then one line per row. */
  function AccessOutput(cm: seq<Catalog.Measure>, hm: seq<Catalog.Measure>, filter: Option<string>, sort: Option<string>,
                        records: seq<Record>, fetch: Hrsa.Fetch, fips: map<string, string>, ft: FloatText): (r: Result<Output>)
    ensures r.Err? ==> SortRequested(sort)
    ensures r.Ok? ==> r.value.count == |FilterRows(MergedAccess(cm, hm, records, fetch, fips, ft), COUNTY, filter)|
    ensures r.Ok? && r.value.count == 0 ==> r.value.lines == []
    ensures r.Ok? && r.value.count > 0 ==>
      && |r.value.lines| == r.value.count + 1
      && |r.value.lines[0]| == 1 + |cm| + |hm|
      && r.value.lines[0][0] == "County"
      && (forall i :: 0 <= i < |cm| ==> r.value.lines[0][1 + i] == cm[i].heading)
      && (forall i :: 0 <= i < |hm| ==> r.value.lines[0][1 + |cm| + i] == hm[i].heading)
  {
    WriteTable(MergedAccess(cm, hm, records, fetch, fips, ft), COUNTY, AccessColumns(cm, hm), filter, sort, true)
  }

  /** `access_cmd` from its arguments to the lines it writes. The hospital
      records and the HRSA layer fetch stand for the network. */
  function AccessCommand(groups: seq<string>, filter: Option<string>, sort: Option<string>,
                         records: seq<Record>, fetch: Hrsa.Fetch, fips: map<string, string>,
                         ft: FloatText): (r: Result<Output>)
    ensures |groups| == 0 ==> r == Err(NoAccessGroups)
    ensures PlanAccess(groups).Err? ==> r.Err? && r.error == PlanAccess(groups).error
  {
    match PlanAccess(groups)
    case Err(e) => Err(e)
    case Ok(plan) =>
      match PlanMeasures(plan)
      case Err(e) => Err(e)
      case Ok((cm, hm)) => AccessOutput(cm, hm, filter, sort, records, fetch, fips, ft)
  }

  /** The merged row of a county: its CMS row, overwritten field by field by
      its HRSA rows. A field the HRSA rows lack keeps its CMS value. */
  lemma HrsaWins(cmsRows: seq<Row>, hrsaRows: seq<Row>, k: string, f: string)
    ensures var m := MergedRow(cmsRows + hrsaRows, COUNTY, k);
      var h := Overlay(Group(hrsaRows, FieldKey(COUNTY), k));
      var c := MergedRow(cmsRows, COUNTY, k);
      && (f in m <==> f in h || f in c)
      && (f in h ==> m[f] == h[f])
      && (f !in h && f in c ==> m[f] == c[f])
  {
    MergedRowConcat(cmsRows, hrsaRows, COUNTY, k);
  }

  /** An accepted request resolves, and the command writes the table of
      the merged rows; a failure is then the sort's. */
  lemma AccessSpec(groups: seq<string>, filter: Option<string>, sort: Option<string>,
                   records: seq<Record>, fetch: Hrsa.Fetch, fips: map<string, string>, ft: FloatText)
    requires PlanAccess(groups).Ok?
    ensures PlanMeasures(PlanAccess(groups).value).Ok?
    ensures var ms := PlanMeasures(PlanAccess(groups).value).value;
      AccessCommand(groups, filter, sort, records, fetch, fips, ft) ==
      AccessOutput(ms.0, ms.1, filter, sort, records, fetch, fips, ft)
    ensures AccessCommand(groups, filter, sort, records, fetch, fips, ft).Err? ==> SortRequested(sort)
  {
    PlanResolves(groups);
  }

  /** The merged rows: one per county that either source reports, strictly
      ascending by county, each the union of that county's rows with the
      HRSA fields written last. */
  lemma MergedAccessSpec(cm: seq<Catalog.Measure>, hm: seq<Catalog.Measure>, records: seq<Record>,
                         fetch: Hrsa.Fetch, fips: map<string, string>, ft: FloatText)
    ensures var rows := CmsRows(cm, records, ft) + HrsaRows(hm, fetch, fips, ft);
      var merged := MergedAccess(cm, hm, records, fetch, fips, ft);
      && StrictlyAscending(merged, RowKey(COUNTY))
      && (forall k :: k in Map(merged, RowKey(COUNTY)) <==> exists i :: 0 <= i < |rows| && Get(rows[i], COUNTY) == k)
      && (forall i :: 0 <= i < |merged| ==>
            merged[i] == MergedRow(CmsRows(cm, records, ft), COUNTY, Get(merged[i], COUNTY)) +
                         Overlay(Group(HrsaRows(hm, fetch, fips, ft), FieldKey(COUNTY), Get(merged[i], COUNTY))))
  {
    var a, b := CmsRows(cm, records, ft), HrsaRows(hm, fetch, fips, ft);
    MergeBySpec(a + b, COUNTY);
    var merged := MergedAccess(cm, hm, records, fetch, fips, ft);
    forall i | 0 <= i < |merged|
      ensures merged[i] == MergedRow(a, COUNTY, Get(merged[i], COUNTY)) +
                           Overlay(Group(b, FieldKey(COUNTY), Get(merged[i], COUNTY)))
    {
      MergedRowConcat(a, b, COUNTY, Get(merged[i], COUNTY));
    }
  }

  /** Asking for `all` fetches both sources and writes the hospital columns
      before the shortage columns of both layers. */
  lemma AccessAll(groups: seq<string>)
    requires Catalog.ALL in groups
    ensures PlanAccess(groups) == Ok(Plan([Cms.HOSPITAL_ACCESS], [Hrsa.PRIMARY_CARE, Hrsa.MENTAL_HEALTH]))
    ensures PlanMeasures(PlanAccess(groups).value) ==
      Ok((Cms.ACCESS_MEASURES[0].members, Hrsa.HPSA_MEASURES[0].members + Hrsa.HPSA_MEASURES[1].members))
  {
    AccessGroupNames();
    var p := PlanAccess(groups).value;
    Cms.ResolveAccessSingle();
    Hrsa.HpsaAll([Catalog.ALL]);
    assert Catalog.ALL !in p.hrsa;
    assert Hrsa.ResolveHpsaMeasures(p.hrsa) == Catalog.ResolveEach(Hrsa.HPSA_MEASURES, Catalog.Names(Hrsa.HPSA_MEASURES))
      == Catalog.Resolve(Hrsa.HPSA_MEASURES, [Catalog.ALL]);
  }
}
