/** Generic facts about sequences used across the model: filtering and
    counting, sums, mapping, concatenation, distinctness, and the overlay of
    a sequence of maps (Python's repeated `dict.update`). */
module Seqs {

  /** The elements of `s` that satisfy `p`, in their order. */
  function Filter<T(!new)>(s: seq<T>, p: T -> bool): (r: seq<T>)
    ensures |r| <= |s|
    ensures forall i :: 0 <= i < |r| ==> p(r[i])
  {
    if |s| == 0 then []
    else
      var init, last := s[..|s| - 1], s[|s| - 1];
      assert s == init + [last];
      Filter(init, p) + (if p(last) then [last] else [])
  }

  lemma {:induction false} FilterConcat<T(!new)>(a: seq<T>, b: seq<T>, p: T -> bool)
    ensures Filter(a + b, p) == Filter(a, p) + Filter(b, p)
    decreases |b|
  {
    if |b| == 0 {
      assert a + b == a;
    } else {
      assert (a + b)[..|a + b| - 1] == a + b[..|b| - 1];
      FilterConcat(a, b[..|b| - 1], p);
    }
  }

  /** Filtering keeps every occurrence of the elements that satisfy `p` and
      drops every other. */
  lemma {:induction false} FilterMultiset<T(!new)>(s: seq<T>, p: T -> bool)
    ensures forall x :: multiset(Filter(s, p))[x] == if p(x) then multiset(s)[x] else 0
    decreases |s|
  {
    if |s| > 0 {
      FilterMultiset(s[..|s| - 1], p);
      assert s == s[..|s| - 1] + [s[|s| - 1]];
    }
  }

  /** When exactly one of two conditions holds of each element, the two
      filters share out the elements between them. */
  lemma {:induction false} FilterSplit<T(!new)>(s: seq<T>, p: T -> bool, q: T -> bool)
    requires forall i :: 0 <= i < |s| ==> p(s[i]) != q(s[i])
    ensures multiset(Filter(s, p)) + multiset(Filter(s, q)) == multiset(s)
    decreases |s|
  {
    if |s| > 0 {
      var init := s[..|s| - 1];
      assert forall i :: 0 <= i < |init| ==> init[i] == s[i];
      FilterSplit(init, p, q);
      FilterSplitStep(s, p, q);
    }
  }

  lemma {:induction false} FilterSplitStep<T(!new)>(s: seq<T>, p: T -> bool, q: T -> bool)
    requires |s| > 0 && p(s[|s| - 1]) != q(s[|s| - 1])
    requires multiset(Filter(s[..|s| - 1], p)) + multiset(Filter(s[..|s| - 1], q)) == multiset(s[..|s| - 1])
    ensures multiset(Filter(s, p)) + multiset(Filter(s, q)) == multiset(s)
  {
    var init, last := s[..|s| - 1], s[|s| - 1];
    var a, b := Filter(init, p), Filter(init, q);
    MultisetLast(s);
    if p(last) {
      assert Filter(s, p) == a + [last];
      assert Filter(s, q) == b;
      assert multiset(a + [last]) == multiset(a) + multiset{last};
    } else {
      assert Filter(s, p) == a;
      assert Filter(s, q) == b + [last];
      assert multiset(b + [last]) == multiset(b) + multiset{last};
    }
  }

  lemma MultisetLast<T>(s: seq<T>)
    requires |s| > 0
    ensures multiset(s) == multiset(s[..|s| - 1]) + multiset{s[|s| - 1]}
  {
    assert s == s[..|s| - 1] + [s[|s| - 1]];
  }

  /** Filtering commutes with permutation: it sees only the multiset. */
  lemma FilterPerm<T(!new)>(a: seq<T>, b: seq<T>, p: T -> bool)
    requires multiset(a) == multiset(b)
    ensures multiset(Filter(a, p)) == multiset(Filter(b, p))
    ensures |Filter(a, p)| == |Filter(b, p)|
  {
    var fa, fb := Filter(a, p), Filter(b, p);
    FilterMultiset(a, p);
    FilterMultiset(b, p);
    assert forall x :: multiset(fa)[x] == multiset(fb)[x];
    assert multiset(fa) == multiset(fb);
    assert |fa| == |multiset(fa)| == |multiset(fb)| == |fb|;
  }

  /** Elements satisfying one of two exclusive conditions are counted once. */
  lemma {:induction false} FilterDisjoint<T(!new)>(s: seq<T>, p: T -> bool, q: T -> bool)
    requires forall x :: !(p(x) && q(x))
    ensures |Filter(s, p)| + |Filter(s, q)| <= |s|
  {
    if |s| > 0 {
      FilterDisjoint(s[..|s| - 1], p, q);
    }
  }

  function Map<T, U>(s: seq<T>, f: T -> U): (r: seq<U>)
    ensures |r| == |s|
    ensures forall i :: 0 <= i < |s| ==> r[i] == f(s[i])
  {
    seq(|s|, i requires 0 <= i < |s| => f(s[i]))
  }

  lemma MapConcat<T, U>(a: seq<T>, b: seq<T>, f: T -> U)
    ensures Map(a + b, f) == Map(a, f) + Map(b, f)
  {
    assert forall i :: 0 <= i < |a| + |b| ==> Map(a + b, f)[i] == (Map(a, f) + Map(b, f))[i];
  }

  function SumInt<T>(s: seq<T>, f: T -> int): int {
    if |s| == 0 then 0 else SumInt(s[..|s| - 1], f) + f(s[|s| - 1])
  }

  function SumReal<T>(s: seq<T>, f: T -> real): real {
    if |s| == 0 then 0.0 else SumReal(s[..|s| - 1], f) + f(s[|s| - 1])
  }

  lemma {:induction false} SumIntConcat<T>(a: seq<T>, b: seq<T>, f: T -> int)
    ensures SumInt(a + b, f) == SumInt(a, f) + SumInt(b, f)
    decreases |b|
  {
    if |b| > 0 {
      assert (a + b)[..|a + b| - 1] == a + b[..|b| - 1];
      SumIntConcat(a, b[..|b| - 1], f);
    } else {
      assert a + b == a;
    }
  }

  lemma {:induction false} SumRealConcat<T>(a: seq<T>, b: seq<T>, f: T -> real)
    ensures SumReal(a + b, f) == SumReal(a, f) + SumReal(b, f)
    decreases |b|
  {
    if |b| > 0 {
      assert (a + b)[..|a + b| - 1] == a + b[..|b| - 1];
      SumRealConcat(a, b[..|b| - 1], f);
    } else {
      assert a + b == a;
    }
  }

  /** The last element of `a` sits somewhere in any permutation `b` of `a`;
      removing it from both leaves permutations of each other. */
  lemma PermLast<T>(a: seq<T>, b: seq<T>) returns (i: nat)
    requires multiset(a) == multiset(b) && |a| > 0
    ensures i < |b| && b[i] == a[|a| - 1]
    ensures multiset(a[..|a| - 1]) == multiset(b[..i] + b[i + 1..])
  {
    var x := a[|a| - 1];
    assert a == a[..|a| - 1] + [x];
    assert multiset(a) == multiset(a[..|a| - 1]) + multiset{x};
    assert x in multiset(b);
    i :| 0 <= i < |b| && b[i] == x;
    assert b == b[..i] + [x] + b[i + 1..];
    assert multiset(b) == multiset(b[..i]) + multiset{x} + multiset(b[i + 1..]);
    assert multiset(b[..i] + b[i + 1..]) == multiset(b[..i]) + multiset(b[i + 1..]);
    var rest := b[..i] + b[i + 1..];
    assert forall y :: multiset(a[..|a| - 1])[y] == multiset(rest)[y] by {
      forall y ensures multiset(a[..|a| - 1])[y] == multiset(rest)[y] {
        assert multiset(a)[y] == multiset(a[..|a| - 1])[y] + multiset{x}[y];
        assert multiset(b)[y] == multiset(rest)[y] + multiset{x}[y];
      }
    }
  }

  /** Two sums agree when their summands agree position by position. */
  lemma {:induction false} SumIntPointwise<T, U>(s: seq<T>, f: T -> int, t: seq<U>, g: U -> int)
    requires |s| == |t|
    requires forall i :: 0 <= i < |s| ==> f(s[i]) == g(t[i])
    ensures SumInt(s, f) == SumInt(t, g)
    decreases |s|
  {
    if |s| > 0 {
      SumIntPointwise(s[..|s| - 1], f, t[..|t| - 1], g);
    }
  }

  /** Sums do not depend on the order of the summands. */
  lemma {:induction false} SumIntPerm<T>(a: seq<T>, b: seq<T>, f: T -> int)
    requires multiset(a) == multiset(b)
    ensures SumInt(a, f) == SumInt(b, f)
    decreases |a|
  {
    if |a| == 0 {
      assert |b| == |multiset(b)| == 0;
    } else {
      var i := PermLast(a, b);
      var rest := b[..i] + b[i + 1..];
      SumIntPerm(a[..|a| - 1], rest, f);
      assert b == b[..i] + ([b[i]] + b[i + 1..]);
      SumIntConcat(b[..i], [b[i]] + b[i + 1..], f);
      SumIntConcat([b[i]], b[i + 1..], f);
      SumIntConcat(b[..i], b[i + 1..], f);
      assert SumInt([b[i]], f) == f(b[i]) by {
        assert [b[i]][..0] == [];
      }
    }
  }

  lemma {:induction false} SumRealPerm<T>(a: seq<T>, b: seq<T>, f: T -> real)
    requires multiset(a) == multiset(b)
    ensures SumReal(a, f) == SumReal(b, f)
    decreases |a|
  {
    if |a| == 0 {
      assert |b| == |multiset(b)| == 0;
    } else {
      var i := PermLast(a, b);
      var rest := b[..i] + b[i + 1..];
      SumRealPerm(a[..|a| - 1], rest, f);
      assert b == b[..i] + ([b[i]] + b[i + 1..]);
      SumRealConcat(b[..i], [b[i]] + b[i + 1..], f);
      SumRealConcat([b[i]], b[i + 1..], f);
      SumRealConcat(b[..i], b[i + 1..], f);
      assert SumReal([b[i]], f) == f(b[i]) by {
        assert [b[i]][..0] == [];
      }
    }
  }

  /** Mapping a permutation gives a permutation of the images. */
  lemma {:induction false} MapPerm<T, U>(a: seq<T>, b: seq<T>, f: T -> U)
    requires multiset(a) == multiset(b)
    ensures multiset(Map(a, f)) == multiset(Map(b, f))
    decreases |a|
  {
    if |a| > 0 {
      var i := PermLast(a, b);
      var rest := b[..i] + b[i + 1..];
      MapPerm(a[..|a| - 1], rest, f);
      assert Map(a, f) == Map(a[..|a| - 1], f) + [f(a[|a| - 1])];
      assert Map(b, f) == Map(b[..i], f) + [f(b[i])] + Map(b[i + 1..], f);
      assert Map(rest, f) == Map(b[..i], f) + Map(b[i + 1..], f);
    }
  }

  predicate Distinct<T(==)>(s: seq<T>) {
    forall i, j :: 0 <= i < j < |s| ==> s[i] != s[j]
  }

  /** A sequence has no repeated element exactly when its multiset has no
      element twice. */
  lemma DistinctMultiset<T>(s: seq<T>)
    ensures Distinct(s) <==> forall x :: multiset(s)[x] <= 1
  {
    if Distinct(s) {
      DistinctOnce(s);
    }
    if !Distinct(s) {
      var i, j :| 0 <= i < j < |s| && s[i] == s[j];
      RepeatTwice(s, i, j);
    }
  }

  lemma {:induction false} DistinctOnce<T>(s: seq<T>)
    requires Distinct(s)
    ensures forall x :: multiset(s)[x] <= 1
    decreases |s|
  {
    if |s| > 0 {
      var init, last := s[..|s| - 1], s[|s| - 1];
      assert s == init + [last];
      assert Distinct(init);
      DistinctOnce(init);
      forall k | 0 <= k < |init|
        ensures init[k] != last
      {
        assert init[k] == s[k];
      }
      assert last !in init;
      assert multiset(s) == multiset(init) + multiset{last};
    }
  }

  lemma RepeatTwice<T>(s: seq<T>, i: int, j: int)
    requires 0 <= i < j < |s| && s[i] == s[j]
    ensures multiset(s)[s[i]] >= 2
  {
    var pre := s[..j];
    assert s == pre + [s[j]] + s[j + 1..];
    assert s[i] == pre[i];
    assert multiset(s) == multiset(pre) + multiset{s[j]} + multiset(s[j + 1..]);
  }

  /** A permutation of a sequence without repetitions has none either. */
  lemma DistinctPerm<T>(a: seq<T>, b: seq<T>)
    requires multiset(a) == multiset(b) && Distinct(a)
    ensures Distinct(b)
  {
    DistinctMultiset(a);
    DistinctMultiset(b);
  }

  /** The last position in `ms` whose map has key `k`, or -1 if none has. */
  function LastWith<K, V>(ms: seq<map<K, V>>, k: K): (r: int)
    ensures -1 <= r < |ms|
    ensures r >= 0 ==> k in ms[r]
    ensures r == -1 ==> forall j :: 0 <= j < |ms| ==> k !in ms[j]
    ensures forall j :: r < j < |ms| ==> k !in ms[j]
  {
    if |ms| == 0 then -1
    else if k in ms[|ms| - 1] then |ms| - 1
    else
      var r := LastWith(ms[..|ms| - 1], k);
      assert forall j :: 0 <= j < |ms| - 1 ==> ms[..|ms| - 1][j] == ms[j];
      r
  }

  /** The map built by applying `dict.update` with each map of `ms` in turn:
      it has the keys of all of them, and each key holds the value from the
      last map that has it. */
  function Overlay<K(!new), V>(ms: seq<map<K, V>>): (r: map<K, V>)
    ensures forall k :: k in r <==> LastWith(ms, k) >= 0
    ensures forall k :: k in r ==> r[k] == ms[LastWith(ms, k)][k]
  {
    if |ms| == 0 then map[]
    else
      var before := Overlay(ms[..|ms| - 1]);
      assert forall j :: 0 <= j < |ms| - 1 ==> ms[..|ms| - 1][j] == ms[j];
      before + ms[|ms| - 1]
  }
  /** A key is in the overlay exactly when some map has it. */
  lemma OverlayHas<K(!new), V>(ms: seq<map<K, V>>, k: K)
    ensures k in Overlay(ms) <==> exists j :: 0 <= j < |ms| && k in ms[j]
  {
    if exists j :: 0 <= j < |ms| && k in ms[j] {
      var j :| 0 <= j < |ms| && k in ms[j];
      assert LastWith(ms, k) >= j;
    }
  }

  /** The last map that has a key gives its value. */
  lemma OverlayLast<K(!new), V>(ms: seq<map<K, V>>, k: K, j: int)
    requires 0 <= j < |ms| && k in ms[j]
    requires forall l :: j < l < |ms| ==> k !in ms[l]
    ensures k in Overlay(ms) && Overlay(ms)[k] == ms[j][k]
  {
    assert LastWith(ms, k) == j;
  }

  /** Updating with two runs of maps is updating with the first run and
      then with the overlay of the second. */
  lemma {:induction false} OverlayConcat<K(!new), V>(a: seq<map<K, V>>, b: seq<map<K, V>>)
    ensures Overlay(a + b) == Overlay(a) + Overlay(b)
    decreases |b|
  {
    if |b| == 0 {
      assert a + b == a;
      assert Overlay(a) + map[] == Overlay(a);
    } else {
      var b0, z := b[..|b| - 1], b[|b| - 1];
      var ab := a + b;
      assert ab[..|ab| - 1] == a + b0;
      assert ab[|ab| - 1] == z;
      OverlayConcat(a, b0);
      OverlayStep(ab);
      OverlayStep(b);
      MapUnionAssoc(Overlay(a), Overlay(b0), z);
    }
  }

  /** `OverlayConcat` with a first map in front. */
  lemma OverlayAfterFirst<K(!new), V>(x: map<K, V>, a: seq<map<K, V>>, b: seq<map<K, V>>)
    ensures Overlay([x] + (a + b)) == Overlay([x] + a) + Overlay(b)
  {
    ConsAssoc(x, a, b);
    OverlayConcat([x] + a, b);
  }

  lemma ConsAssoc<T>(x: T, a: seq<T>, b: seq<T>)
    ensures [x] + (a + b) == ([x] + a) + b
  {
  }

  lemma OverlayStep<K(!new), V>(ms: seq<map<K, V>>)
    requires |ms| > 0
    ensures Overlay(ms) == Overlay(ms[..|ms| - 1]) + ms[|ms| - 1]
  {
  }

  lemma MapUnionAssoc<K, V>(x: map<K, V>, y: map<K, V>, z: map<K, V>)
    ensures x + y + z == x + (y + z)
  {
  }

  /** Starting the updates from an empty map changes nothing. */
  lemma {:induction false} OverlayEmptyFirst<K(!new), V>(ms: seq<map<K, V>>)
    ensures Overlay([map[]] + ms) == Overlay(ms)
    decreases |ms|
  {
    var a := [map[]] + ms;
    if |ms| > 0 {
      OverlayEmptyFirst(ms[..|ms| - 1]);
      assert a[..|a| - 1] == [map[]] + ms[..|ms| - 1];
      assert a[|a| - 1] == ms[|ms| - 1];
      assert Overlay(a) == Overlay(a[..|a| - 1]) + a[|a| - 1];
      assert Overlay(ms) == Overlay(ms[..|ms| - 1]) + ms[|ms| - 1];
    } else {
      assert Overlay(a) == Overlay(a[..0]) + map[];
    }
  }

  /** The concatenation of the sequences of `ss`, in order. */
  function Flatten<T>(ss: seq<seq<T>>): seq<T> {
    if |ss| == 0 then [] else Flatten(ss[..|ss| - 1]) + ss[|ss| - 1]
  }

  /** Flattening the images of a sequence, one element at a time. */
  lemma FlattenMapStep<T, U>(s: seq<T>, f: T -> seq<U>)
    requires |s| > 0
    ensures Flatten(Map(s, f)) == Flatten(Map(s[..|s| - 1], f)) + f(s[|s| - 1])
  {
    var ms := Map(s, f);
    assert ms[..|s| - 1] == Map(s[..|s| - 1], f);
  }

  lemma {:induction false} FlattenConcat<T>(a: seq<seq<T>>, b: seq<seq<T>>)
    ensures Flatten(a + b) == Flatten(a) + Flatten(b)
    decreases |b|
  {
    if |b| == 0 {
      assert a + b == a;
    } else {
      var b0, z := b[..|b| - 1], b[|b| - 1];
      var ab := a + b;
      assert ab[..|ab| - 1] == a + b0;
      assert ab[|ab| - 1] == z;
      FlattenConcat(a, b0);
      AppendAssoc(Flatten(a), Flatten(b0), z);
    }
  }

  lemma AppendAssoc<T>(x: seq<T>, y: seq<T>, z: seq<T>)
    ensures (x + y) + z == x + (y + z)
  {
  }

  /** A slice of a suffix is the slice of the whole, shifted. */
  lemma SliceOfDrop<T>(s: seq<T>, n: nat, a: nat, b: nat)
    requires n <= |s| && a <= b <= |s| - n
    ensures s[n..][a..b] == s[n + a..n + b]
  {
  }

  function Length<T>(s: seq<T>): int {
    |s|
  }

  /** A flattened sequence is as long as its parts together. */
  lemma {:induction false} FlattenLength<T>(ss: seq<seq<T>>)
    ensures |Flatten(ss)| == SumInt(ss, Length)
    decreases |ss|
  {
    if |ss| > 0 {
      FlattenLength(ss[..|ss| - 1]);
    }
  }

  lemma FlattenMembers<T>(ss: seq<seq<T>>)
    ensures forall x :: x in Flatten(ss) <==> exists i :: 0 <= i < |ss| && x in ss[i]
  {
    forall x ensures x in Flatten(ss) <==> exists i :: 0 <= i < |ss| && x in ss[i] {
      FlattenMember(ss, x);
    }
  }

  /** An element of a flattened sequence comes from one of its parts, and
      every element of every part is in it. */
  lemma {:induction false} FlattenMember<T>(ss: seq<seq<T>>, x: T)
    ensures x in Flatten(ss) <==> exists i :: 0 <= i < |ss| && x in ss[i]
    decreases |ss|
  {
    if |ss| > 0 {
      var pre := ss[..|ss| - 1];
      FlattenMember(pre, x);
      assert forall i :: 0 <= i < |pre| ==> pre[i] == ss[i];
      if x in Flatten(pre) {
        var i :| 0 <= i < |pre| && x in pre[i];
        assert x in ss[i];
      }
    }
  }

  /** Filtering twice keeps what both conditions keep. */
  lemma {:induction false} FilterFilter<T(!new)>(s: seq<T>, p: T -> bool, q: T -> bool)
    ensures Filter(Filter(s, p), q) == Filter(s, x => p(x) && q(x))
    decreases |s|
  {
    if |s| > 0 {
      var pre, last := s[..|s| - 1], s[|s| - 1];
      FilterFilter(pre, p, q);
      FilterConcat(Filter(pre, p), if p(last) then [last] else [], q);
      assert Filter([last], q) == if q(last) then [last] else [] by {
        assert [last][..0] == [];
      }
      assert Filter([], q) == [];
    }
  }

  /** Conditions that agree on every element select the same elements. */
  lemma {:induction false} FilterExt<T(!new)>(s: seq<T>, p: T -> bool, q: T -> bool)
    requires forall x :: p(x) == q(x)
    ensures Filter(s, p) == Filter(s, q)
    decreases |s|
  {
    if |s| > 0 {
      FilterExt(s[..|s| - 1], p, q);
    }
  }

  /** What `Filter` keeps is a member of the input that satisfies `p`, and
      every such member is kept. */
  lemma FilterMember<T(!new)>(s: seq<T>, p: T -> bool, x: T)
    ensures x in Filter(s, p) <==> x in s && p(x)
  {
    FilterMultiset(s, p);
    assert x in Filter(s, p) <==> x in multiset(Filter(s, p));
    assert x in s <==> x in multiset(s);
  }

  /** Some element of `s` is related to `x` by `f`. */
  ghost predicate SomeAt<T, X>(s: seq<T>, f: (T, X) -> bool, x: X) {
    exists i :: 0 <= i < |s| && f(s[i], x)
  }

  lemma SomeAtLast<T, X>(s: seq<T>, f: (T, X) -> bool)
    requires |s| > 0
    ensures forall x :: SomeAt(s, f, x) <==> SomeAt(s[..|s| - 1], f, x) || f(s[|s| - 1], x)
  {
    var pre := s[..|s| - 1];
    forall x ensures SomeAt(s, f, x) <==> SomeAt(pre, f, x) || f(s[|s| - 1], x) {
      if SomeAt(s, f, x) {
        var i :| 0 <= i < |s| && f(s[i], x);
        if i < |pre| {
          assert pre[i] == s[i];
        }
      }
      if SomeAt(pre, f, x) {
        var i :| 0 <= i < |pre| && f(pre[i], x);
        assert pre[i] == s[i];
      }
    }
  }
}
