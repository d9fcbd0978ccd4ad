/** Python's `sorted()` and `list.sort()` with a key: a stable sort. The
    model is an insertion sort parameterised by the "comes no later than"
    relation `le` the key induces, with its three promises proved: the
    result is a permutation of the input, it is ordered by `le`, and
    elements `le` cannot tell apart keep their input order. */
module Sorting {
  import opened Seqs
  import Text

  /** `le` orders every pair and is transitive: the shape of "key(a) <=
      key(b)" for any key into a totally ordered type. */
  ghost predicate TotalPreorder<T(!new)>(le: (T, T) -> bool) {
    && (forall a, b :: le(a, b) || le(b, a))
    && (forall a, b, c :: le(a, b) && le(b, c) ==> le(a, c))
  }

  predicate SortedBy<T>(s: seq<T>, le: (T, T) -> bool) {
    forall i, j :: 0 <= i < j < |s| ==> le(s[i], s[j])
  }

  /** The elements `le` cannot tell apart from `z`. */
  function EquivTo<T>(le: (T, T) -> bool, z: T): T -> bool {
    x => le(x, z) && le(z, x)
  }

  /** `x` placed before the first element of `s` it comes no later than. */
  function Insert<T>(x: T, s: seq<T>, le: (T, T) -> bool): (r: seq<T>)
    ensures |r| == |s| + 1
    ensures multiset(r) == multiset(s) + multiset{x}
  {
    if |s| == 0 then [x]
    else if le(x, s[0]) then [x] + s
    else
      assert s == [s[0]] + s[1..];
      [s[0]] + Insert(x, s[1..], le)
  }

  /** The stable sort of `s` by `le`. */
  function SortBy<T>(s: seq<T>, le: (T, T) -> bool): (r: seq<T>)
    ensures |r| == |s|
    ensures multiset(r) == multiset(s)
  {
    if |s| == 0 then []
    else
      assert s == [s[0]] + s[1..];
      Insert(s[0], SortBy(s[1..], le), le)
  }

  lemma {:induction false} InsertSorted<T(!new)>(x: T, s: seq<T>, le: (T, T) -> bool)
    requires TotalPreorder(le) && SortedBy(s, le)
    ensures SortedBy(Insert(x, s, le), le)
    decreases |s|
  {
    if |s| > 0 && !le(x, s[0]) {
      InsertSorted(x, s[1..], le);
      var r := Insert(x, s, le);
      var t := Insert(x, s[1..], le);
      assert r == [s[0]] + t;
      forall j | 0 < j < |r|
        ensures le(s[0], r[j])
      {
        assert r[j] in multiset(t);
        assert r[j] in multiset(s[1..]) + multiset{x};
        if r[j] != x {
          assert r[j] in s[1..];
        }
      }
    }
  }

  /** The result of `SortBy` is ordered by `le`. */
  lemma {:induction false} SortBySorted<T(!new)>(s: seq<T>, le: (T, T) -> bool)
    requires TotalPreorder(le)
    ensures SortedBy(SortBy(s, le), le)
    decreases |s|
  {
    if |s| > 0 {
      SortBySorted(s[1..], le);
      InsertSorted(s[0], SortBy(s[1..], le), le);
    }
  }

  /** Transitivity through the one element `z`: all that stability needs. */
  ghost predicate TransitiveAt<T(!new)>(le: (T, T) -> bool, z: T) {
    forall a, b :: le(a, z) && le(z, b) ==> le(a, b)
  }

  lemma FilterSingle<T(!new)>(x: T, p: T -> bool)
    ensures Filter([x], p) == if p(x) then [x] else []
  {
    assert [x][..0] == [];
  }

  lemma {:induction false} InsertStable<T(!new)>(x: T, s: seq<T>, le: (T, T) -> bool, z: T)
    requires TransitiveAt(le, z)
    ensures Filter(Insert(x, s, le), EquivTo(le, z)) == Filter([x], EquivTo(le, z)) + Filter(s, EquivTo(le, z))
    decreases |s|
  {
    if |s| == 0 {
      assert [x] + s == [x];
    } else if le(x, s[0]) {
      FilterConcat([x], s, EquivTo(le, z));
    } else {
      InsertStable(x, s[1..], le, z);
      InsertStablePast(x, s, le, z);
    }
  }

  /** The step of `InsertStable` where `x` moves past the head of `s`. */
  lemma InsertStablePast<T(!new)>(x: T, s: seq<T>, le: (T, T) -> bool, z: T)
    requires TransitiveAt(le, z) && |s| > 0 && !le(x, s[0])
    requires Filter(Insert(x, s[1..], le), EquivTo(le, z)) == Filter([x], EquivTo(le, z)) + Filter(s[1..], EquivTo(le, z))
    ensures Filter(Insert(x, s, le), EquivTo(le, z)) == Filter([x], EquivTo(le, z)) + Filter(s, EquivTo(le, z))
  {
    var p := EquivTo(le, z);
    var t := Insert(x, s[1..], le);
    InsertPast(x, s, le);
    FilterConcat([s[0]], t, p);
    HeadTail(s);
    FilterConcat([s[0]], s[1..], p);
    NotBothEquiv(x, s[0], le, z);
    SwapPast(Filter([x], p), Filter([s[0]], p), Filter(s[1..], p), Filter(t, p),
      Filter(Insert(x, s, le), p), Filter(s, p));
  }

  /** The list algebra of `InsertStablePast`, over the kept parts: `ins`
      is the head's part then the part kept from inserting past it, `rest`
      the head's part then the tail's. */
  lemma SwapPast<T>(fx: seq<T>, f0: seq<T>, ft: seq<T>, fi: seq<T>, ins: seq<T>, rest: seq<T>)
    requires fx == [] || f0 == []
    requires fi == fx + ft && ins == f0 + fi && rest == f0 + ft
    ensures ins == fx + rest
  {
    SwapEmpty(fx, f0, ft);
  }

  lemma InsertPast<T>(x: T, s: seq<T>, le: (T, T) -> bool)
    requires |s| > 0 && !le(x, s[0])
    ensures Insert(x, s, le) == [s[0]] + Insert(x, s[1..], le)
  {
  }

  lemma HeadTail<T>(s: seq<T>)
    requires |s| > 0
    ensures s == [s[0]] + s[1..]
  {
  }

  /** Two elements equivalent to `z`, where the first does not come before
      the second, cannot both be kept: at most one filter is non-empty. */
  lemma NotBothEquiv<T(!new)>(x: T, y: T, le: (T, T) -> bool, z: T)
    requires TransitiveAt(le, z) && !le(x, y)
    ensures Filter([x], EquivTo(le, z)) == [] || Filter([y], EquivTo(le, z)) == []
  {
    FilterSingle(x, EquivTo(le, z));
    FilterSingle(y, EquivTo(le, z));
  }

  /** Two lists of which one is empty can trade places in front of a third. */
  lemma SwapEmpty<T>(a: seq<T>, b: seq<T>, c: seq<T>)
    requires a == [] || b == []
    ensures b + (a + c) == a + (b + c)
  {
    if a == [] {
      assert a + c == c && a + (b + c) == b + c;
    } else {
      assert b + (a + c) == a + c && b + c == c;
    }
  }

  lemma {:induction false} SortByStableAt<T(!new)>(s: seq<T>, le: (T, T) -> bool, z: T)
    requires TransitiveAt(le, z)
    ensures Filter(SortBy(s, le), EquivTo(le, z)) == Filter(s, EquivTo(le, z))
    decreases |s|
  {
    if |s| > 0 {
      SortByStableAt(s[1..], le, z);
      InsertStable(s[0], SortBy(s[1..], le), le, z);
      assert s == [s[0]] + s[1..];
      FilterConcat([s[0]], s[1..], EquivTo(le, z));
    }
  }

  /** Stability: among elements `le` cannot tell apart, the result keeps
      the input order. */
  lemma SortByStable<T(!new)>(s: seq<T>, le: (T, T) -> bool, z: T)
    requires TotalPreorder(le)
    ensures Filter(SortBy(s, le), EquivTo(le, z)) == Filter(s, EquivTo(le, z))
  {
    SortByStableAt(s, le, z);
  }

  /** Ordering by a text key, as `sorted(..., key=lambda r: r[...])` does. */
  function ByKey<T>(key: T -> string): (T, T) -> bool {
    (a, b) => Text.StrLe(key(a), key(b))
  }

  lemma ByKeyTotal<T(!new)>(key: T -> string)
    ensures TotalPreorder(ByKey(key))
  {
    forall a, b ensures ByKey(key)(a, b) || ByKey(key)(b, a) {
      Text.StrLeTotal(key(a), key(b));
    }
    forall a, b, c | ByKey(key)(a, b) && ByKey(key)(b, c) ensures ByKey(key)(a, c) {
      Text.StrLeTrans(key(a), key(b), key(c));
    }
  }

  predicate StrictlyAscending<T>(s: seq<T>, key: T -> string) {
    forall i, j :: 0 <= i < j < |s| ==> Text.StrLt(key(s[i]), key(s[j]))
  }

  /** Sorting by a key that no two elements share yields keys in strictly
      ascending order. */
  lemma SortByKeyStrict<T(!new)>(s: seq<T>, key: T -> string)
    requires Distinct(Map(s, key))
    ensures StrictlyAscending(SortBy(s, ByKey(key)), key)
  {
    var r := SortBy(s, ByKey(key));
    ByKeyTotal(key);
    SortBySorted(s, ByKey(key));
    MapPerm(s, r, key);
    DistinctPerm(Map(s, key), Map(r, key));
    forall i, j | 0 <= i < j < |r| ensures Text.StrLt(key(r[i]), key(r[j])) {
      assert Map(r, key)[i] != Map(r, key)[j];
      assert ByKey(key)(r[i], r[j]);
    }
  }

  /** Two strictly ascending sequences with the same elements are equal:
      a key-ordered result is fixed by its set of elements alone. */
  lemma {:induction false} StrictlyAscendingUnique<T>(a: seq<T>, b: seq<T>, key: T -> string)
    requires StrictlyAscending(a, key) && StrictlyAscending(b, key)
    requires forall x :: x in a <==> x in b
    ensures a == b
    decreases |a|
  {
    if |a| > 0 {
      assert a[0] in b;
      assert |b| > 0;
      assert b[0] in a;
      var i :| 0 <= i < |a| && a[i] == b[0];
      var j :| 0 <= j < |b| && b[j] == a[0];
      assert Text.StrLe(key(a[0]), key(b[0])) by {
        if i > 0 {
          assert Text.StrLt(key(a[0]), key(a[i]));
        } else {
          Text.StrLeRefl(key(a[0]));
        }
      }
      assert Text.StrLe(key(b[0]), key(a[0])) by {
        if j > 0 {
          assert Text.StrLt(key(b[0]), key(b[j]));
        } else {
          Text.StrLeRefl(key(b[0]));
        }
      }
      Text.StrLeAntisym(key(a[0]), key(b[0]));
      assert i == 0;
      forall x ensures x in a[1..] <==> x in b[1..] {
        if x in a[1..] {
          var k :| 1 <= k < |a| && a[k] == x;
          assert x != a[0] && x in a;
          var m :| 0 <= m < |b| && b[m] == x;
          assert m != 0 && b[1..][m - 1] == x;
        }
        if x in b[1..] {
          var k :| 1 <= k < |b| && b[k] == x;
          assert x != b[0] && x in b;
          var m :| 0 <= m < |a| && a[m] == x;
          assert m != 0 && a[1..][m - 1] == x;
        }
      }
      StrictlyAscendingUnique(a[1..], b[1..], key);
      assert a == [a[0]] + a[1..] && b == [b[0]] + b[1..];
    } else {
      forall x ensures x !in multiset(b) {
        assert x !in a;
      }
      assert multiset(b) == multiset{};
    }
  }
}
