/** Python's insertion-ordered `dict` with string keys, and the one loop
    shape every aggregator of the program shares: walk the records, compute
    each record's group key (or skip it), create the group's entry on first
    sight, and fold the record into it. */
module Dicts {
  import opened Results
  import opened Seqs

  /** A dict: its keys in insertion order, and what each key holds. */
  datatype Dict<V> = Dict(keys: seq<string>, entries: map<string, V>)

  ghost predicate Valid<V>(d: Dict<V>) {
    Distinct(d.keys) && (forall k :: k in d.entries <==> k in d.keys)
  }

  function Empty<V>(): (d: Dict<V>)
    ensures Valid(d) && d.keys == []
  {
    Dict([], map[])
  }

  /** `d[k] = v`: a new key goes to the end of the order, an existing key
      keeps its place. */
  function Put<V>(d: Dict<V>, k: string, v: V): (r: Dict<V>)
    requires Valid(d)
    ensures Valid(r)
    ensures r.entries == d.entries[k := v]
    ensures k in d.entries ==> r.keys == d.keys
    ensures k !in d.entries ==> r.keys == d.keys + [k]
  {
    if k in d.entries then Dict(d.keys, d.entries[k := v])
    else
      var r := Dict(d.keys + [k], d.entries[k := v]);
      assert forall i :: 0 <= i < |d.keys| ==> r.keys[i] == d.keys[i];
      r
  }

  /** `[f(k, d[k]) for k in d]`, in insertion order. */
  function Items<V, T>(d: Dict<V>, f: (string, V) -> T): (r: seq<T>)
    requires Valid(d)
    ensures |r| == |d.keys|
    ensures forall i :: 0 <= i < |d.keys| ==> r[i] == f(d.keys[i], d.entries[d.keys[i]])
  {
    seq(|d.keys|, i requires 0 <= i < |d.keys| => f(d.keys[i], d.entries[d.keys[i]]))
  }

  /** The loop `for r in rs: k = key(r); if k is None: continue;
      if k not in d: d[k] = init(k); d[k] = step(d[k], r)`. */
  function GroupFold<R, V>(rs: seq<R>, key: R -> Option<string>, init: string -> V, step: (V, R) -> V): (d: Dict<V>)
    ensures Valid(d)
    ensures |d.keys| <= |rs|
    ensures forall k :: k in d.entries <==> exists i :: 0 <= i < |rs| && key(rs[i]) == Some(k)
  {
    if |rs| == 0 then Empty()
    else
      var d := GroupFold(rs[..|rs| - 1], key, init, step);
      var r := rs[|rs| - 1];
      assert forall i :: 0 <= i < |rs| - 1 ==> rs[..|rs| - 1][i] == rs[i];
      match key(r)
      case None => d
      case Some(k) => Put(d, k, step(if k in d.entries then d.entries[k] else init(k), r))
  }

  /** Records without a key leave the dict empty. */
  lemma {:induction false} GroupFoldNone<R, V>(rs: seq<R>, key: R -> Option<string>, init: string -> V, step: (V, R) -> V)
    requires forall i :: 0 <= i < |rs| ==> key(rs[i]).None?
    ensures GroupFold(rs, key, init, step).keys == []
    decreases |rs|
  {
    if |rs| > 0 {
      var pre := rs[..|rs| - 1];
      assert forall i :: 0 <= i < |pre| ==> pre[i] == rs[i];
      GroupFoldNone(pre, key, init, step);
    }
  }

  /** The records of group `k`, in input order. */
  function Group<R(!new)>(rs: seq<R>, key: R -> Option<string>, k: string): seq<R> {
    Filter(rs, InGroup(key, k))
  }

  function InGroup<R>(key: R -> Option<string>, k: string): R -> bool {
    r => key(r) == Some(k)
  }

  /** A record is in group `k` exactly when it is a record of `rs` whose
      key is `k`. */
  lemma GroupMember<R(!new)>(rs: seq<R>, key: R -> Option<string>, k: string, x: R)
    ensures x in Group(rs, key, k) <==> x in rs && key(x) == Some(k)
  {
    FilterMember(rs, InGroup(key, k), x);
  }

  /** A group is non-empty exactly when some record has its key. */
  lemma GroupNonEmpty<R(!new)>(rs: seq<R>, key: R -> Option<string>, k: string)
    ensures |Group(rs, key, k)| > 0 <==> exists i :: 0 <= i < |rs| && key(rs[i]) == Some(k)
  {
    if exists i :: 0 <= i < |rs| && key(rs[i]) == Some(k) {
      var i :| 0 <= i < |rs| && key(rs[i]) == Some(k);
      GroupMember(rs, key, k, rs[i]);
    }
    if |Group(rs, key, k)| > 0 {
      var x := Group(rs, key, k)[0];
      GroupMember(rs, key, k, x);
      var i :| 0 <= i < |rs| && rs[i] == x;
    }
  }

  function GroupSize<R(!new)>(rs: seq<R>, key: R -> Option<string>): string -> int {
    k => |Group(rs, key, k)|
  }

  /** The records that have a group at all. */
  function Kept<R(!new)>(rs: seq<R>, key: R -> Option<string>): seq<R> {
    Filter(rs, HasKey(key))
  }

  function HasKey<R>(key: R -> Option<string>): R -> bool {
    r => key(r).Some?
  }

  /** `a` with every record of `rs` folded in, left to right. */
  function Fold<R, V>(rs: seq<R>, a: V, step: (V, R) -> V): V {
    if |rs| == 0 then a else step(Fold(rs[..|rs| - 1], a, step), rs[|rs| - 1])
  }

  lemma {:induction false} GroupFoldAt<R(!new), V>(rs: seq<R>, key: R -> Option<string>, init: string -> V, step: (V, R) -> V, k: string)
    ensures k in GroupFold(rs, key, init, step).entries <==> |Group(rs, key, k)| > 0
    ensures k in GroupFold(rs, key, init, step).entries ==>
      GroupFold(rs, key, init, step).entries[k] == Fold(Group(rs, key, k), init(k), step)
    decreases |rs|
  {
    if |rs| > 0 {
      var pre, r := rs[..|rs| - 1], rs[|rs| - 1];
      GroupFoldAt(pre, key, init, step, k);
      var gp, g := Group(pre, key, k), Group(rs, key, k);
      var d0, d := GroupFold(pre, key, init, step), GroupFold(rs, key, init, step);
      assert g == gp + (if key(r) == Some(k) then [r] else []);
      if key(r) == Some(k) {
        assert g[..|g| - 1] == gp;
        var prev := if k in d0.entries then d0.entries[k] else init(k);
        assert prev == Fold(gp, init(k), step);
        assert d.entries[k] == step(prev, r);
      } else {
        assert g == gp;
        assert d.entries == d0.entries || (key(r).Some? && d.entries == d0.entries[key(r).value := d.entries[key(r).value]]);
      }
    }
  }

  /** A reference reading of the loop: a key has an entry exactly when some
      record belongs to its group, and the entry is the fold of that group,
      in input order, starting from `init(k)`. */
  lemma GroupFoldSpec<R(!new), V>(rs: seq<R>, key: R -> Option<string>, init: string -> V, step: (V, R) -> V)
    ensures forall k :: k in GroupFold(rs, key, init, step).entries <==> |Group(rs, key, k)| > 0
    ensures forall k :: k in GroupFold(rs, key, init, step).entries ==>
      GroupFold(rs, key, init, step).entries[k] == Fold(Group(rs, key, k), init(k), step)
  {
    forall k
      ensures k in GroupFold(rs, key, init, step).entries <==> |Group(rs, key, k)| > 0
      ensures k in GroupFold(rs, key, init, step).entries ==>
        GroupFold(rs, key, init, step).entries[k] == Fold(Group(rs, key, k), init(k), step)
    {
      GroupFoldAt(rs, key, init, step, k);
    }
  }

  /** `acc.update(m)` as a value. */
  function Join<K, W>(acc: map<K, W>, m: map<K, W>): map<K, W> {
    acc + m
  }

  /** Python's `d.setdefault(k, base).update(row)` over a group: the union
      of its rows over `base`, later rows winning. */
  lemma {:induction false} FoldUpdate<K(!new), W>(g: seq<map<K, W>>, base: map<K, W>)
    ensures Fold(g, base, Join) == Overlay([base] + g)
    decreases |g|
  {
    if |g| > 0 {
      FoldUpdate(g[..|g| - 1], base);
      assert ([base] + g)[..|[base] + g| - 1] == [base] + g[..|g| - 1];
    }
  }

  lemma {:induction false} SumIntUpdate(s: seq<string>, f: string -> int, g: string -> int, x: string)
    requires Distinct(s)
    requires forall y :: y != x ==> f(y) == g(y)
    ensures SumInt(s, g) == SumInt(s, f) + (if x in s then g(x) - f(x) else 0)
    decreases |s|
  {
    if |s| > 0 {
      var pre := s[..|s| - 1];
      assert Distinct(pre);
      SumIntUpdate(pre, f, g, x);
      assert s == pre + [s[|s| - 1]];
      assert x in pre ==> s[|s| - 1] != x;
    }
  }

  /** The groups partition the kept records: their sizes, summed over the
      dict's keys, make up the number of records with a key. */
  lemma {:induction false} GroupSizesSum<R(!new), V>(rs: seq<R>, key: R -> Option<string>, init: string -> V, step: (V, R) -> V)
    ensures SumInt(GroupFold(rs, key, init, step).keys, GroupSize(rs, key)) == |Kept(rs, key)|
    decreases |rs|
  {
    if |rs| > 0 {
      var pre := rs[..|rs| - 1];
      GroupSizesSum(pre, key, init, step);
      GroupSizesStep(rs, key, init, step);
    }
  }

  /** Adding the last record adds one to the size of its group, and that
      group is in the dict from then on. */
  lemma GroupSizesStep<R(!new), V>(rs: seq<R>, key: R -> Option<string>, init: string -> V, step: (V, R) -> V)
    requires |rs| > 0
    ensures var pre := rs[..|rs| - 1];
      SumInt(GroupFold(rs, key, init, step).keys, GroupSize(rs, key)) ==
      SumInt(GroupFold(pre, key, init, step).keys, GroupSize(pre, key)) + (if key(rs[|rs| - 1]).Some? then 1 else 0)
  {
    var pre, r := rs[..|rs| - 1], rs[|rs| - 1];
    var d0 := GroupFold(pre, key, init, step);
    var d := GroupFold(rs, key, init, step);
    var f := GroupSize(pre, key);
    var g := GroupSize(rs, key);
    forall k ensures Group(rs, key, k) == Group(pre, key, k) + (if key(r) == Some(k) then [r] else []) {
      assert rs == pre + [r];
    }
    match key(r)
    case None =>
      SumIntUpdate(d.keys, f, g, "");
    case Some(k0) =>
      SumIntUpdate(d0.keys, f, g, k0);
      if k0 !in d0.entries {
        GroupFoldAt(pre, key, init, step, k0);
        SumIntConcat(d0.keys, [k0], g);
        assert SumInt([k0], g) == g(k0) by {
          assert [k0][..0] == [];
        }
      }
  }

  /** Merging records by key with `update`: each key's entry is the union
      of its group over `init(k)`, later records winning. */
  lemma UnionEntry<W(!new)>(rs: seq<map<string, W>>, key: map<string, W> -> Option<string>,
                      init: string -> map<string, W>, k: string)
    requires k in GroupFold(rs, key, init, Join).entries
    ensures GroupFold(rs, key, init, Join).entries[k] == Overlay([init(k)] + Group(rs, key, k))
  {
    GroupFoldAt(rs, key, init, Join, k);
    FoldUpdate(Group(rs, key, k), init(k));
  }
}
