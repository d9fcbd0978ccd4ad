/** Character classes and string operations the program takes from Python's
    `str` type and `re` module: whitespace, case mapping, stripping, prefix,
    suffix and substring tests, and Python's ordering of strings. */
module Text {

  /** The characters `str.isspace()` accepts, which are also the characters
      the regular-expression class `\s` matches in a text pattern. */
  predicate IsSpace(c: char) {
    || ('\t' <= c <= '\r')
    || ('\U{1C}' <= c <= ' ')
    || c == '\U{85}' || c == '\U{A0}' || c == '\U{1680}'
    || ('\U{2000}' <= c <= '\U{200A}')
    || c == '\U{2028}' || c == '\U{2029}' || c == '\U{202F}'
    || c == '\U{205F}' || c == '\U{3000}'
  }

  predicate IsUpper(c: char) { 'A' <= c <= 'Z' }

  predicate IsLower(c: char) { 'a' <= c <= 'z' }

  /** A cased character, in the ASCII range this model covers. */
  predicate IsLetter(c: char) { IsUpper(c) || IsLower(c) }

  predicate IsDigit(c: char) { '0' <= c <= '9' }

  /** The regular-expression class `\w`, restricted to ASCII. */
  predicate IsWordChar(c: char) { IsLetter(c) || IsDigit(c) || c == '_' }

  function LowerChar(c: char): (r: char)
    ensures IsUpper(c) ==> IsLower(r)
    ensures !IsUpper(c) ==> r == c
  {
    if IsUpper(c) then (c as int + 32) as char else c
  }

  function UpperChar(c: char): (r: char)
    ensures IsLower(c) ==> IsUpper(r)
    ensures !IsLower(c) ==> r == c
  {
    if IsLower(c) then (c as int - 32) as char else c
  }

  /** `str.lower()` */
  function Lower(s: string): (r: string)
    ensures |r| == |s|
  {
    seq(|s|, i requires 0 <= i < |s| => LowerChar(s[i]))
  }

  /** `str.upper()` */
  function Upper(s: string): (r: string)
    ensures |r| == |s|
  {
    seq(|s|, i requires 0 <= i < |s| => UpperChar(s[i]))
  }

  /** `str.title()`: a cased character is upper-cased when the character
      before it is not cased, and lower-cased otherwise. */
  function Title(s: string): (r: string)
    ensures |r| == |s|
  {
    TitleAfter(s, false)
  }

  function TitleAfter(s: string, prevCased: bool): (r: string)
    ensures |r| == |s|
  {
    if |s| == 0 then ""
    else
      var c := if prevCased then LowerChar(s[0]) else UpperChar(s[0]);
      [c] + TitleAfter(s[1..], IsLetter(s[0]))
  }

  function StripStart(s: string): (r: string)
    ensures |r| <= |s| && r == s[|s| - |r|..]
    ensures forall k :: 0 <= k < |s| - |r| ==> IsSpace(s[k])
    ensures |r| > 0 ==> !IsSpace(r[0])
  {
    if |s| > 0 && IsSpace(s[0]) then StripStart(s[1..]) else s
  }

  function StripEnd(s: string): (r: string)
    ensures |r| <= |s| && r == s[..|r|]
    ensures forall k :: |r| <= k < |s| ==> IsSpace(s[k])
    ensures |r| > 0 ==> !IsSpace(r[|r| - 1])
  {
    if |s| > 0 && IsSpace(s[|s| - 1]) then StripEnd(s[..|s| - 1]) else s
  }

  /** `str.strip()`: the text between the leading and trailing whitespace.
      It is empty exactly when the whole input is whitespace. */
  function Strip(s: string): (r: string)
    ensures |r| > 0 ==> !IsSpace(r[0]) && !IsSpace(r[|r| - 1])
    ensures r == [] <==> forall k :: 0 <= k < |s| ==> IsSpace(s[k])
  {
    var t := StripStart(s);
    var r := StripEnd(t);
    assert |r| > 0 ==> r[0] == t[0];
    assert r == [] ==> t == [];
    r
  }

  /** `t` is `s` without its leading and trailing whitespace: it sits in
      `s` at some offset, with only whitespace before and after it, and
      neither starts nor ends with whitespace itself. */
  ghost predicate Trimmed(s: string, t: string) {
    |t| > 0 && !IsSpace(t[0]) && !IsSpace(t[|t| - 1]) && exists a :: TrimmedAt(s, a, t)
  }

  ghost predicate TrimmedAt(s: string, a: int, t: string) {
    && 0 <= a && a + |t| <= |s| && s[a..a + |t|] == t
    && (forall k :: 0 <= k < a ==> IsSpace(s[k]))
    && (forall k :: a + |t| <= k < |s| ==> IsSpace(s[k]))
  }

  /** A non-blank text strips to its trimmed middle. */
  lemma StripTrimmed(s: string)
    requires Strip(s) != []
    ensures Trimmed(s, Strip(s))
  {
    var t := StripStart(s);
    var r := Strip(s);
    var a := |s| - |t|;
    assert r == t[..|r|];
    assert s[a..a + |r|] == r;
    forall k | a + |r| <= k < |s| ensures IsSpace(s[k]) {
      assert s[k] == t[k - a];
    }
    assert TrimmedAt(s, a, r);
  }

  /** The stripped text, title-cased, starts and ends with a non-space. */
  lemma StripTitled(s: string)
    requires Strip(s) != []
    ensures Trimmed(s, Strip(s))
    ensures var t := Title(Strip(s)); |t| > 0 && !IsSpace(t[0]) && !IsSpace(t[|t| - 1])
  {
    StripTrimmed(s);
    TitleEnds(Strip(s));
  }

  /** Title-casing keeps a text that starts and ends with a non-space
      starting and ending with one. */
  lemma TitleEnds(s: string)
    requires |s| > 0 && !IsSpace(s[0]) && !IsSpace(s[|s| - 1])
    ensures |Title(s)| > 0 && !IsSpace(Title(s)[0]) && !IsSpace(Title(s)[|Title(s)| - 1])
  {
    TitleSpaces(s);
  }

  /** Title-casing moves no whitespace: it changes letters only. */
  lemma TitleSpaces(s: string)
    ensures forall k :: 0 <= k < |s| ==> (IsSpace(Title(s)[k]) <==> IsSpace(s[k]))
  {
    forall k | 0 <= k < |s| ensures IsSpace(Title(s)[k]) <==> IsSpace(s[k]) {
      TitleAfterAt(s, false, k);
    }
  }

  lemma {:induction false} TitleAfterAt(s: string, prevCased: bool, k: int)
    requires 0 <= k < |s|
    ensures TitleAfter(s, prevCased)[k] == UpperChar(s[k]) || TitleAfter(s, prevCased)[k] == LowerChar(s[k])
    decreases |s|
  {
    if k > 0 {
      TitleAfterAt(s[1..], IsLetter(s[0]), k - 1);
    }
  }

  predicate StartsWith(s: string, p: string) {
    |p| <= |s| && s[..|p|] == p
  }

  predicate EndsWith(s: string, p: string) {
    |p| <= |s| && s[|s| - |p|..] == p
  }

  /** Python's `p in s` on strings. */
  predicate Contains(s: string, p: string)
    decreases |s|
  {
    StartsWith(s, p) || (|s| > 0 && Contains(s[1..], p))
  }

  predicate OccursAt(s: string, p: string, i: int) {
    0 <= i <= |s| - |p| && s[i..i + |p|] == p
  }

  /** `p in s` holds exactly when `p` occurs at some position of `s`. */
  lemma {:induction false} ContainsAt(s: string, p: string)
    ensures Contains(s, p) <==> exists i :: OccursAt(s, p, i)
    decreases |s|
  {
    if StartsWith(s, p) {
      assert OccursAt(s, p, 0);
    } else if |s| > 0 {
      ContainsAt(s[1..], p);
      if Contains(s[1..], p) {
        var i :| OccursAt(s[1..], p, i);
        assert s[i + 1..i + 1 + |p|] == s[1..][i..i + |p|];
        assert OccursAt(s, p, i + 1);
      }
      if exists i :: OccursAt(s, p, i) {
        var i :| OccursAt(s, p, i);
        assert i != 0;
        assert s[1..][i - 1..i - 1 + |p|] == s[i..i + |p|];
        assert OccursAt(s[1..], p, i - 1);
      }
    }
  }

  /** The number of (possibly overlapping) places where `p` occurs in `s`,
      counted by where each occurrence ends. */
  function Occurrences(s: string, p: string): nat {
    if |s| == 0 then 0
    else Occurrences(s[..|s| - 1], p) + (if |p| > 0 && EndsWith(s, p) then 1 else 0)
  }

  lemma DropLastJoin(a: string, b: string)
    requires |b| > 0
    ensures (a + b)[..|a + b| - 1] == a + b[..|b| - 1]
  {
  }

  lemma SplitAt(s: string, i: nat, j: nat)
    requires i <= j <= |s|
    ensures s[i..] == s[i..j] + s[j..]
  {
  }

  lemma SplitThree(s: string, i: nat, j: nat)
    requires i <= j <= |s|
    ensures s == s[..i] + (s[i..j] + s[j..])
  {
  }

  /** An occurrence of `p` that ends in `b` ends in `a + b` too. */
  lemma EndsWithJoin(a: string, b: string, p: string)
    requires |p| <= |b|
    ensures EndsWith(a + b, p) == EndsWith(b, p)
  {
    assert (a + b)[|a + b| - |p|..] == b[|b| - |p|..];
  }

  /** Joining two strings keeps every occurrence of either part. */
  lemma {:induction false} OccurrencesJoinLower(a: string, b: string, p: string)
    requires |p| > 0
    ensures Occurrences(a, p) + Occurrences(b, p) <= Occurrences(a + b, p)
    decreases |b|
  {
    if |b| == 0 {
      assert a + b == a;
    } else {
      var b0 := b[..|b| - 1];
      DropLastJoin(a, b);
      OccurrencesJoinLower(a, b0, p);
      var e1 := if EndsWith(a + b, p) then 1 else 0;
      var e2 := if EndsWith(b, p) then 1 else 0;
      assert Occurrences(a + b, p) == Occurrences(a + b0, p) + e1;
      assert Occurrences(b, p) == Occurrences(b0, p) + e2;
      if |p| <= |b| {
        EndsWithJoin(a, b, p);
      }
      assert e2 <= e1;
    }
  }

  /** Joining two strings adds at most `|p| - 1` occurrences of `p`, the
      ones that straddle the join. */
  lemma {:induction false} OccurrencesJoinUpper(a: string, b: string, p: string)
    requires |p| > 0
    ensures Occurrences(a + b, p) <= Occurrences(a, p) + Occurrences(b, p) + (if |b| < |p| then |b| else |p| - 1)
    decreases |b|
  {
    if |b| == 0 {
      assert a + b == a;
    } else {
      var b0 := b[..|b| - 1];
      DropLastJoin(a, b);
      OccurrencesJoinUpper(a, b0, p);
      var e1 := if EndsWith(a + b, p) then 1 else 0;
      var e2 := if EndsWith(b, p) then 1 else 0;
      assert Occurrences(a + b, p) == Occurrences(a + b0, p) + e1;
      assert Occurrences(b, p) == Occurrences(b0, p) + e2;
      if |p| <= |b| {
        EndsWithJoin(a, b, p);
        assert e1 == e2;
      }
    }
  }

  lemma OccurrencesJoin(a: string, b: string, p: string)
    requires |p| > 0
    ensures Occurrences(a, p) + Occurrences(b, p) <= Occurrences(a + b, p)
    ensures Occurrences(a + b, p) <= Occurrences(a, p) + Occurrences(b, p) + (if |b| < |p| then |b| else |p| - 1)
  {
    OccurrencesJoinLower(a, b, p);
    OccurrencesJoinUpper(a, b, p);
  }

  lemma {:induction false} OccurrencesShort(s: string, p: string)
    requires |s| < |p|
    ensures Occurrences(s, p) == 0
    decreases |s|
  {
    if |s| > 0 {
      OccurrencesShort(s[..|s| - 1], p);
    }
  }

  /** A string that starts with `p` holds at least one occurrence of it. */
  lemma OccurrencesStart(s: string, p: string)
    requires |p| > 0 && StartsWith(s, p)
    ensures Occurrences(s, p) >= 1
  {
    var rest := s[|p|..];
    assert s == p + rest;
    OccurrencesJoinLower(p, rest, p);
    OccurrencesSelf(p);
  }

  lemma OccurrencesSelf(p: string)
    requires |p| > 0
    ensures Occurrences(p, p) >= 1
  {
    assert EndsWith(p, p);
  }

  /** Python's ordering of strings: lexicographic by code point, a proper
      prefix before the longer string. */
  predicate StrLe(a: string, b: string) {
    |a| == 0 || (|b| > 0 && (a[0] < b[0] || (a[0] == b[0] && StrLe(a[1..], b[1..]))))
  }

  predicate StrLt(a: string, b: string) {
    StrLe(a, b) && a != b
  }

  lemma StrLeRefl(a: string)
    ensures StrLe(a, a)
  {
  }

  lemma StrLeTotal(a: string, b: string)
    ensures StrLe(a, b) || StrLe(b, a)
  {
  }

  lemma StrLeAntisym(a: string, b: string)
    requires StrLe(a, b) && StrLe(b, a)
    ensures a == b
  {
    if |a| > 0 && |b| > 0 {
      StrLeAntisym(a[1..], b[1..]);
      assert a == [a[0]] + a[1..];
      assert b == [b[0]] + b[1..];
    }
  }

  lemma StrLeTrans(a: string, b: string, c: string)
    requires StrLe(a, b) && StrLe(b, c)
    ensures StrLe(a, c)
  {
    if |a| > 0 && |b| > 0 && |c| > 0 && a[0] == b[0] == c[0] {
      StrLeTrans(a[1..], b[1..], c[1..]);
    }
  }
}
