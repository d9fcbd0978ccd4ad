/** The static tables the commands select from: `TOPICS`,
    `PLACES_MEASURES`, `ACCESS_MEASURES` and `HPSA_MEASURES` are each an
    ordered dict from a group name to a list of members. Every selector
    (`resolve_variables`, `resolve_measures`, `resolve_access_measures`,
    `resolve_hpsa_measures`) runs the same loop over such a table: the name
    `all` stands for every group in table order, an unknown name is an
    error, and the members of the named groups are concatenated in request
    order. */
module Catalog {
  import opened Results
  import opened Seqs
  import Table

  /** One entry of a table: a group name and its members in order. */
  datatype Group<M> = Group(name: string, members: seq<M>)

  /** A measure of the CMS, HRSA or PLACES tables: the column id it fills,
      the label shown in the header, and a description. */
  datatype Measure = Measure(id: string, heading: string, description: string)

  const ALL: string := "all"

  /** The writer's columns for a list of measures: id and label, in order. */
  function Columns(ms: seq<Measure>): (r: seq<Table.Column>)
    ensures |r| == |ms|
    ensures forall i :: 0 <= i < |ms| ==> r[i] == Table.Column(ms[i].id, ms[i].heading)
  {
    Map(ms, (m: Measure) => Table.Column(m.id, m.heading))
  }

  function Names<M>(cat: seq<Group<M>>): (r: seq<string>)
    ensures |r| == |cat|
    ensures forall i :: 0 <= i < |cat| ==> r[i] == cat[i].name
  {
    Map(cat, (g: Group<M>) => g.name)
  }

  /** A dict literal: no group name twice. */
  predicate WellFormed<M>(cat: seq<Group<M>>) {
    Distinct(Names(cat))
  }

  /** `T.get(name)`: the members of the first group called `name`. */
  function Lookup<M>(cat: seq<Group<M>>, name: string): (r: Option<seq<M>>)
    ensures r.Some? <==> name in Names(cat)
  {
    if |cat| == 0 then None
    else if cat[0].name == name then Some(cat[0].members)
    else
      assert Names(cat) == [cat[0].name] + Names(cat[1..]);
      Lookup(cat[1..], name)
  }

  /** In a dict literal each group is found under its own name. */
  lemma {:induction false} LookupAt<M>(cat: seq<Group<M>>, i: int)
    requires WellFormed(cat) && 0 <= i < |cat|
    ensures Lookup(cat, cat[i].name) == Some(cat[i].members)
    decreases i
  {
    if i > 0 {
      assert cat[0].name == Names(cat)[0] != Names(cat)[i] == cat[i].name;
      assert WellFormed(cat[1..]) by {
        assert forall j :: 0 <= j < |cat| - 1 ==> Names(cat[1..])[j] == Names(cat)[j + 1];
      }
      LookupAt(cat[1..], i - 1);
    }
  }

  /** The members a known name stands for; nothing for an unknown one. */
  function Members<M>(cat: seq<Group<M>>, name: string): seq<M> {
    match Lookup(cat, name)
    case Some(ms) => ms
    case None => []
  }

  function MembersOf<M>(cat: seq<Group<M>>): string -> seq<M> {
    g => Members(cat, g)
  }

  /** `groups[k]` is the first name of `groups` that the table lacks. */
  predicate FirstUnknown<M>(cat: seq<Group<M>>, groups: seq<string>, k: int) {
    && 0 <= k < |groups|
    && groups[k] !in Names(cat)
    && (forall j :: 0 <= j < k ==> groups[j] in Names(cat))
  }

  /** The loop `for g in groups: if g not in T: raise ValueError;
      measures.extend(T[g])`. It fails exactly when some name is unknown,
      and then it names the first unknown one. */
  function ResolveEach<M>(cat: seq<Group<M>>, groups: seq<string>): (r: Result<seq<M>>)
    ensures r.Ok? <==> forall i :: 0 <= i < |groups| ==> groups[i] in Names(cat)
    ensures r.Err? ==>
      exists k :: FirstUnknown(cat, groups, k) && r.error == UnknownGroup(groups[k])
    decreases |groups|
  {
    if |groups| == 0 then Ok([])
    else
      var pre, g := groups[..|groups| - 1], groups[|groups| - 1];
      assert forall j :: 0 <= j < |pre| ==> pre[j] == groups[j];
      match ResolveEach(cat, pre)
      case Err(e) => Err(e)
      case Ok(ms) =>
        match Lookup(cat, g)
        case None => Err(UnknownGroup(g))
        case Some(gs) => Ok(ms + gs)
  }

  /** The selector: a request naming `all` anywhere is replaced by every
      group of the table, in table order. Then nothing is unknown;
      otherwise the request fails exactly when it names an unknown group,
      and the error names the first one. */
  function Resolve<M>(cat: seq<Group<M>>, groups: seq<string>): (r: Result<seq<M>>)
    ensures ALL in groups ==> r.Ok?
    ensures ALL !in groups ==> (r.Ok? <==> forall i :: 0 <= i < |groups| ==> groups[i] in Names(cat))
    ensures r.Err? ==> ALL !in groups
    ensures r.Err? ==> exists k :: FirstUnknown(cat, groups, k) && r.error == UnknownGroup(groups[k])
  {
    if ALL in groups then ResolveEach(cat, Names(cat)) else ResolveEach(cat, groups)
  }

  /** The resolved members are those of each named group, concatenated in
      request order. */
  lemma {:induction false} ResolveEachFlatten<M>(cat: seq<Group<M>>, groups: seq<string>)
    requires ResolveEach(cat, groups).Ok?
    ensures ResolveEach(cat, groups).value == Flatten(Map(groups, MembersOf(cat)))
    decreases |groups|
  {
    if |groups| > 0 {
      var pre := groups[..|groups| - 1];
      ResolveEachStep(cat, groups);
      ResolveEachFlatten(cat, pre);
      FlattenMapStep(groups, MembersOf(cat));
    }
  }

  /** One step of the loop: the last name's members go after the rest's. */
  lemma ResolveEachStep<M>(cat: seq<Group<M>>, groups: seq<string>)
    requires |groups| > 0 && ResolveEach(cat, groups).Ok?
    ensures ResolveEach(cat, groups[..|groups| - 1]).Ok?
    ensures ResolveEach(cat, groups).value ==
      ResolveEach(cat, groups[..|groups| - 1]).value + Members(cat, groups[|groups| - 1])
  {
  }

  /** Resolving two requests one after the other is resolving their
      concatenation; the first failure wins. */
  lemma {:induction false} ResolveEachConcat<M>(cat: seq<Group<M>>, a: seq<string>, b: seq<string>)
    ensures ResolveEach(cat, a + b) ==
      match ResolveEach(cat, a)
      case Err(e) => Err(e)
      case Ok(x) =>
        match ResolveEach(cat, b)
        case Err(e) => Err(e)
        case Ok(y) => Ok(x + y)
    decreases |b|
  {
    if |b| == 0 {
      assert a + b == a;
      if ResolveEach(cat, a).Ok? {
        assert ResolveEach(cat, a).value + [] == ResolveEach(cat, a).value;
      }
    } else {
      var b0 := b[..|b| - 1];
      assert (a + b)[..|a + b| - 1] == a + b0;
      ResolveEachConcat(cat, a, b0);
      if ResolveEach(cat, a).Ok? && ResolveEach(cat, b0).Ok? {
        var x, y := ResolveEach(cat, a).value, ResolveEach(cat, b0).value;
        if Lookup(cat, b[|b| - 1]).Some? {
          assert x + y + Lookup(cat, b[|b| - 1]).value == x + (y + Lookup(cat, b[|b| - 1]).value);
        }
      }
    }
  }

  function GroupMembers<M>(g: Group<M>): seq<M> {
    g.members
  }

  /** Every member of the table, group after group. */
  function AllMembers<M>(cat: seq<Group<M>>): seq<M> {
    Flatten(Map(cat, GroupMembers))
  }

  /** `write_access_csv`, `write_shortage_csv` and `write_places_csv`:
      the shared writer with one column per measure, headed by its label,
      after the column of the row's county (`keyField`). */
  function WriteMeasures(rows: seq<Table.Row>, keyField: string, measures: seq<Measure>, filter: Option<string>,
                         sort: Option<string>, header: bool): (r: Result<Table.Output>)
    ensures r.Ok? ==> r.value.count == |Table.FilterRows(rows, keyField, filter)|
    ensures r.Ok? && r.value.count == 0 ==> r.value.lines == []
    ensures r.Ok? && r.value.count > 0 ==> |r.value.lines| == r.value.count + (if header then 1 else 0)
    ensures r.Ok? && r.value.count > 0 && header ==>
      |r.value.lines[0]| == |measures| + 1 && r.value.lines[0][0] == "County" &&
      forall j :: 0 <= j < |measures| ==> r.value.lines[0][j + 1] == measures[j].heading
    ensures r.Ok? ==> forall i :: 0 <= i < |r.value.lines| ==> |r.value.lines[i]| == |measures| + 1
    ensures r.Err? ==> Table.SortRequested(sort)
  {
    Table.WriteTable(rows, keyField, Columns(measures), filter, sort, header)
  }

  /** `all` selects every member of the table, group by group, so the
      result is as long as all groups together. */
  lemma ResolveAll<M>(cat: seq<Group<M>>, groups: seq<string>)
    requires WellFormed(cat) && ALL in groups
    ensures Resolve(cat, groups) == Ok(AllMembers(cat))
    ensures |Resolve(cat, groups).value| == SumInt(Map(cat, GroupMembers), Length)
  {
    var names := Names(cat);
    assert ResolveEach(cat, names).Ok?;
    ResolveEachFlatten(cat, names);
    var f := MembersOf(cat);
    forall i | 0 <= i < |cat|
      ensures Map(names, f)[i] == Map(cat, GroupMembers)[i]
    {
      LookupAt(cat, i);
    }
    assert Map(names, f) == Map(cat, GroupMembers);
    FlattenLength(Map(cat, GroupMembers));
  }

  /** Naming one known group (other than `all`) selects exactly its list. */
  lemma ResolveSingle<M>(cat: seq<Group<M>>, name: string)
    requires name != ALL && name in Names(cat)
    ensures Resolve(cat, [name]) == Ok(Members(cat, name))
  {
    assert ALL !in [name];
    assert [name][..0] == [];
    assert ResolveEach(cat, [name][..0]) == Ok([]);
    assert [] + Members(cat, name) == Members(cat, name);
  }

  /** A member is selected exactly when it belongs to a requested group. */
  lemma ResolveMember<M>(cat: seq<Group<M>>, groups: seq<string>, m: M)
    requires ALL !in groups && Resolve(cat, groups).Ok?
    ensures m in Resolve(cat, groups).value <==> exists i :: 0 <= i < |groups| && m in Members(cat, groups[i])
  {
    var f := MembersOf(cat);
    ResolveEachFlatten(cat, groups);
    FlattenMember(Map(groups, f), m);
    if m in Resolve(cat, groups).value {
      var i :| 0 <= i < |groups| && m in Map(groups, f)[i];
      assert m in Members(cat, groups[i]);
    }
    if exists i :: 0 <= i < |groups| && m in Members(cat, groups[i]) {
      var i :| 0 <= i < |groups| && m in Members(cat, groups[i]);
      assert m in Map(groups, f)[i];
    }
  }
}
