/** County-name normalisation: `clean_county_name`, three rewrites applied
    in order.

      1. `str.replace(", Michigan", "")`;
      2. `re.sub(r"\s+County$", "", ...)`, where Python's `$` matches at the
         end of the text and also just before a final newline;
      3. `re.sub(r"\bSt\.\s+", "Saint ", ...)`, where `\b` asks that the
         character before `S` is not a word character and `\s+` takes the
         whole run of whitespace.

    Each rewrite is modelled as the scan Python performs, so the edge cases
    (one-pass replacement, the newline before `$`, the word boundary) are
    those of the program. */
module CountyName {
  import opened Text

  const STATE_SUFFIX: string := ", Michigan"
  const COUNTY_WORD: string := "County"
  const SAINT_ABBREV: string := "St."
  const SAINT: string := "Saint "

  lemma OccursAtShift(s: string, p: string)
    requires |s| > 0
    ensures forall i :: 1 <= i ==> (OccursAt(s, p, i) <==> OccursAt(s[1..], p, i - 1))
  {
    forall i | 1 <= i
      ensures OccursAt(s, p, i) <==> OccursAt(s[1..], p, i - 1)
    {
      if i <= |s| - |p| {
        var a, b := s[i..i + |p|], s[1..][i - 1..i - 1 + |p|];
        assert forall k :: 0 <= k < |p| ==> a[k] == b[k];
      }
    }
  }

  /** The first position where `p` occurs in `s`, or -1 when it does not. */
  function FindFirst(s: string, p: string): (r: int)
    ensures -1 <= r <= |s|
    ensures r >= 0 ==> OccursAt(s, p, r)
    ensures forall i :: 0 <= i && (r < 0 || i < r) ==> !OccursAt(s, p, i)
    decreases |s|
  {
    if StartsWith(s, p) then 0
    else if |s| == 0 then -1
    else
      OccursAtShift(s, p);
      var r := FindFirst(s[1..], p);
      if r < 0 then -1 else r + 1
  }

  /** Rewrite 1, `s.replace(", Michigan", "")`: every occurrence found
      scanning left to right is removed, and scanning resumes after it, on
      the original text (so the removal is a single pass). */
  function RemoveState(s: string): (r: string)
    ensures |r| + 10 * StateRemovals(s) == |s|
    ensures StateRemovals(s) == 0 ==> r == s
    decreases |s|
  {
    var i := FindFirst(s, STATE_SUFFIX);
    if i < 0 then s
    else
      var parts := StateSplit(s, i);
      parts.0 + RemoveState(parts.1)
  }

  /** The text before and after an occurrence of `, Michigan` at `i`. */
  function StateSplit(s: string, i: int): (r: (string, string))
    requires OccursAt(s, STATE_SUFFIX, i)
    ensures |r.0| + 10 + |r.1| == |s|
    ensures s == r.0 + STATE_SUFFIX + r.1
  {
    (s[..i], s[i + 10..])
  }

  /** How many occurrences rewrite 1 removes. */
  function StateRemovals(s: string): nat
    decreases |s|
  {
    var i := FindFirst(s, STATE_SUFFIX);
    if i < 0 then 0 else 1 + StateRemovals(StateSplit(s, i).1)
  }

  /** Rewrite 1 removes nothing exactly when `, Michigan` does not occur. */
  lemma NoStateRemovals(s: string)
    ensures StateRemovals(s) == 0 <==> forall i :: 0 <= i ==> !OccursAt(s, STATE_SUFFIX, i)
  {
    var i := FindFirst(s, STATE_SUFFIX);
    if i >= 0 {
      assert OccursAt(s, STATE_SUFFIX, i);
    }
  }

  /** The start of the whitespace run that ends just before `end`. */
  function RunStart(s: string, end: nat): (i: nat)
    requires end <= |s|
    ensures i <= end
    ensures forall k :: i <= k < end ==> IsSpace(s[k])
    ensures i == 0 || !IsSpace(s[i - 1])
  {
    if end > 0 && IsSpace(s[end - 1]) then RunStart(s, end - 1) else end
  }

  /** The end of the whitespace run that starts at `start`. */
  function RunEnd(s: string, start: nat): (j: nat)
    requires start <= |s|
    ensures start <= j <= |s|
    ensures forall k :: start <= k < j ==> IsSpace(s[k])
    ensures j == |s| || !IsSpace(s[j])
    decreases |s| - start
  {
    if start < |s| && IsSpace(s[start]) then RunEnd(s, start + 1) else start
  }

  /** Where the `County` that `$` can anchor starts: at the very end of the
      text, or just before a final newline; -1 when there is none. */
  function AnchoredCounty(s: string): (c: int)
    ensures c == -1 || (0 <= c && OccursAt(s, COUNTY_WORD, c))
    ensures c >= 0 ==> c + 6 == |s| || (c + 7 == |s| && s[|s| - 1] == '\n')
    ensures c == -1 ==> !EndsWith(s, COUNTY_WORD)
  {
    if EndsWith(s, COUNTY_WORD) then |s| - 6
    else if |s| >= 7 && s[|s| - 1] == '\n' && s[|s| - 7..|s| - 1] == COUNTY_WORD then |s| - 7
    else -1
  }

  /** `\s+County$` matches somewhere in `s`. */
  predicate HasCountySuffix(s: string) {
    var c := AnchoredCounty(s);
    c > 0 && IsSpace(s[c - 1])
  }

  /** Rewrite 2: the match of `\s+County$` (whitespace run, `County`) is cut
      out; a final newline after it stays. The pattern can match only once. */
  function StripCountySuffix(s: string): (r: string)
    ensures |r| <= |s|
    ensures !HasCountySuffix(s) ==> r == s
    ensures HasCountySuffix(s) ==> |r| < |s| - 6
  {
    if HasCountySuffix(s) then
      var c := AnchoredCounty(s);
      s[..RunStart(s, c)] + s[c + 6..]
    else s
  }

  /** `\bSt\.\s+` matches at `i`: the character before is not a word
      character, then `St.`, then at least one whitespace character. */
  predicate SaintAt(s: string, i: nat) {
    && i + 4 <= |s|
    && s[i..i + 3] == SAINT_ABBREV
    && IsSpace(s[i + 3])
    && (i == 0 || !IsWordChar(s[i - 1]))
  }

  /** Rewrite 3 from position `i` on: each match (with its whole whitespace
      run) becomes `Saint `; every other character is copied. */
  function SpellSaintFrom(s: string, i: nat): (r: string)
    requires i <= |s|
    ensures (forall k :: i <= k < |s| ==> !SaintAt(s, k)) ==> r == s[i..]
    decreases |s| - i
  {
    if i == |s| then ""
    else if SaintAt(s, i) then SAINT + SpellSaintFrom(s, RunEnd(s, i + 3))
    else
      var r := [s[i]] + SpellSaintFrom(s, i + 1);
      assert s[i..] == [s[i]] + s[i + 1..];
      r
  }

  /** Rewrite 3 over the whole text: a text without a match is kept, and
      each match grows the text by at most two characters. */
  function SpellSaint(s: string): (r: string)
    ensures (forall k :: 0 <= k < |s| ==> !SaintAt(s, k)) ==> r == s
    ensures |r| <= |s| + 2 * Occurrences(s, SAINT_ABBREV)
  {
    SpellSaintLength(s, 0);
    assert s[0..] == s;
    SpellSaintFrom(s, 0)
  }

  /** `clean_county_name`: the cleaned name is longer than the input by at
      most two characters per `St.` in the input. */
  function Clean(s: string): (r: string)
    ensures |r| <= |s| + 2 * Occurrences(s, SAINT_ABBREV)
  {
    var a := RemoveState(s);
    var b := StripCountySuffix(a);
    SaintsAfterRemoveState(s);
    SaintsAfterStrip(a);
    SpellSaint(b)
  }

  /** Scanning stops at the first place `p` starts when nothing before it
      can start `p`. */
  lemma {:induction false} FindFirstAfter(a: string, b: string, p: string)
    requires |p| > 0 && p[0] !in a && StartsWith(b, p)
    ensures FindFirst(a + b, p) == |a|
    decreases |a|
  {
    if |a| > 0 {
      assert (a + b)[1..] == a[1..] + b;
      assert !StartsWith(a + b, p) by {
        assert (a + b)[0] == a[0];
      }
      FindFirstAfter(a[1..], b, p);
    } else {
      assert a + b == b;
    }
  }

  lemma FindFirstAbsent(s: string, p: string)
    requires |p| > 0 && p[0] !in s
    ensures FindFirst(s, p) == -1
  {
    assert forall j :: 0 <= j <= |s| - |p| ==> s[j..j + |p|][0] == s[j];
  }

  /** Text without a comma passes rewrite 1 unchanged. */
  lemma RemoveStateNoComma(s: string)
    requires ',' !in s
    ensures RemoveState(s) == s
  {
    FindFirstAbsent(s, STATE_SUFFIX);
  }

  /** Rewrite 1 on comma-free text followed by `, Michigan`. */
  lemma RemoveStateAfter(a: string, b: string)
    requires ',' !in a
    ensures RemoveState(a + STATE_SUFFIX + b) == a + RemoveState(b)
  {
    var s := a + STATE_SUFFIX + b;
    assert s == a + (STATE_SUFFIX + b);
    FindFirstAfter(a, STATE_SUFFIX + b, STATE_SUFFIX);
    assert s[..|a|] == a;
    assert s[|a| + 10..] == b;
  }

  /** Text without a full stop has no `St.` for rewrite 3 to expand. */
  lemma SpellSaintNoDot(s: string, i: nat)
    requires i <= |s| && '.' !in s[i..]
    ensures SpellSaintFrom(s, i) == s[i..]
  {
    forall k | i <= k < |s|
      ensures !SaintAt(s, k)
    {
      if k + 4 <= |s| {
        assert s[k + 2] == s[i..][k + 2 - i];
        assert s[k..k + 3][2] == s[k + 2];
      }
    }
  }

  predicate AllSpace(ws: string) {
    forall k :: 0 <= k < |ws| ==> IsSpace(ws[k])
  }

  /** The run start found from `end` is the `a`/`ws` boundary when `ws` is
      a whitespace run ending at `end` and `a` does not end in whitespace. */
  lemma RunStartAt(s: string, a: string, ws: string)
    requires |a| + |ws| <= |s| && s[..|a|] == a && s[|a|..|a| + |ws|] == ws
    requires AllSpace(ws) && (|a| == 0 || !IsSpace(a[|a| - 1]))
    ensures RunStart(s, |a| + |ws|) == |a|
  {
    RunFacts(s, a, ws);
    RunBoundary(s, |a|, |a| + |ws|, RunStart(s, |a| + |ws|));
  }

  /** The text has the name's last character just before `|a|` and
      whitespace from `|a|` up to the end of `ws`. */
  lemma RunFacts(s: string, a: string, ws: string)
    requires |a| + |ws| <= |s| && s[..|a|] == a && s[|a|..|a| + |ws|] == ws
    requires AllSpace(ws) && (|a| == 0 || !IsSpace(a[|a| - 1]))
    ensures |a| == 0 || !IsSpace(s[|a| - 1])
    ensures forall k :: |a| <= k < |a| + |ws| ==> IsSpace(s[k])
  {
    if |a| > 0 {
      assert s[|a| - 1] == s[..|a|][|a| - 1];
    }
    forall k | |a| <= k < |a| + |ws|
      ensures IsSpace(s[k])
    {
      assert s[k] == s[|a|..|a| + |ws|][k - |a|];
    }
  }

  /** Any `i` with the run start's properties is the boundary `b` before
      a whitespace run that reaches `e`. */
  lemma RunBoundary(s: string, b: nat, e: nat, i: nat)
    requires b <= e <= |s| && (b == 0 || !IsSpace(s[b - 1]))
    requires forall k :: b <= k < e ==> IsSpace(s[k])
    requires i <= e && (forall k :: i <= k < e ==> IsSpace(s[k]))
    requires i == 0 || !IsSpace(s[i - 1])
    ensures i == b
  {
  }

  /** Rewrite 2 on a name, whitespace and `County` at the end. */
  lemma StripCountyAtEnd(a: string, ws: string)
    requires |ws| > 0 && AllSpace(ws) && (|a| == 0 || !IsSpace(a[|a| - 1]))
    ensures StripCountySuffix(a + ws + COUNTY_WORD) == a
  {
    var s := a + ws + COUNTY_WORD;
    assert s[|s| - 6..] == COUNTY_WORD;
    assert s[|a| + |ws| - 1] == ws[|ws| - 1];
    RunStartAt(s, a, ws);
    assert s[..|a|] == a;
  }

  /** Rewrite 2 on a name, whitespace, `County` and a final newline. */
  lemma StripCountyBeforeNewline(a: string, ws: string)
    requires |ws| > 0 && AllSpace(ws) && (|a| == 0 || !IsSpace(a[|a| - 1]))
    ensures StripCountySuffix(a + ws + COUNTY_WORD + "\n") == a + "\n"
  {
    var s := a + ws + COUNTY_WORD + "\n";
    var c := |a| + |ws|;
    assert s[c..c + 6] == COUNTY_WORD;
    assert s[|s| - 1] == '\n';
    assert s[c - 1] == ws[|ws| - 1];
    RunStartAt(s, a, ws);
    StripBeforeNewlineAt(s, |a|, c);
    assert s[..|a|] == a;
  }

  /** Rewrite 2 on text ending in whitespace, `County` at `c` and a
      newline, where the whitespace run starts at `j`. */
  lemma StripBeforeNewlineAt(s: string, j: nat, c: nat)
    requires 0 < c && c + 7 == |s| && s[c..c + 6] == COUNTY_WORD && s[|s| - 1] == '\n'
    requires IsSpace(s[c - 1]) && j <= c && RunStart(s, c) == j
    ensures StripCountySuffix(s) == s[..j] + "\n"
  {
    assert s[|s| - 7..|s| - 1] == COUNTY_WORD;
    assert s[|s| - 6..][5] == '\n';
    assert AnchoredCounty(s) == c;
    assert s[c + 6..] == "\n";
  }

  /** Text that neither ends in `County` nor ends in a newline has no
      suffix for rewrite 2. */
  lemma NoCountySuffix(s: string)
    requires |s| > 0 && s[|s| - 1] != 'y' && s[|s| - 1] != '\n'
    ensures StripCountySuffix(s) == s
  {
    assert |s| >= 6 ==> s[|s| - 6..][5] == s[|s| - 1];
  }

  /** Rewrite 3 on a leading `St.`, whitespace, and text without a full
      stop that does not start with whitespace. */
  lemma SpellSaintLeading(ws: string, rest: string)
    requires |ws| > 0 && AllSpace(ws)
    requires '.' !in rest && (|rest| == 0 || !IsSpace(rest[0]))
    ensures SpellSaint(SAINT_ABBREV + ws + rest) == SAINT + rest
  {
    var s := SAINT_ABBREV + ws + rest;
    assert s[0..3] == SAINT_ABBREV;
    assert s[3] == ws[0];
    assert SaintAt(s, 0);
    var j := 3 + |ws|;
    assert forall k :: 3 <= k < j ==> s[k] == ws[k - 3];
    assert j < |s| ==> s[j] == rest[0];
    assert RunEnd(s, 3) == j by {
      RunEndUnique(s, 3, j);
    }
    assert s[j..] == rest;
    SpellSaintNoDot(s, j);
  }

  lemma RunEndUnique(s: string, start: nat, j: nat)
    requires start <= j <= |s|
    requires forall k :: start <= k < j ==> IsSpace(s[k])
    requires j == |s| || !IsSpace(s[j])
    ensures RunEnd(s, start) == j
    decreases j - start
  {
    if start < j {
      RunEndUnique(s, start + 1, j);
    }
  }

  /** Text without a full stop passes rewrite 3 unchanged. */
  lemma SpellSaintNone(s: string)
    requires '.' !in s
    ensures SpellSaint(s) == s
  {
    SpellSaintNoDot(s, 0);
    assert s[0..] == s;
  }

  /** Rewrite 1 on a census name: the state suffix at the end goes. */
  lemma RemoveStateCensus(t: string)
    requires ',' !in t
    ensures RemoveState(t + STATE_SUFFIX) == t
  {
    assert t + STATE_SUFFIX == t + STATE_SUFFIX + "";
    RemoveStateAfter(t, "");
    RemoveStateNoComma("");
  }

  /** Rewrite 2 on a name, one space and `County`. */
  lemma StripCountySpace(a: string)
    requires |a| > 0 && !IsSpace(a[|a| - 1])
    ensures StripCountySuffix(a + " County") == a
  {
    assert AllSpace(" ");
    assert a + " County" == a + " " + COUNTY_WORD;
    StripCountyAtEnd(a, " ");
  }

  /** A county name without a comma, a full stop or trailing whitespace,
      as the census writes it: `"Washtenaw County, Michigan"` cleans to
      `"Washtenaw"`. */
  lemma CleanCensusName(a: string)
    requires ',' !in a && '.' !in a
    requires |a| > 0 && !IsSpace(a[|a| - 1])
    ensures Clean(a + " County, Michigan") == a
  {
    assert a + " County, Michigan" == (a + " County") + STATE_SUFFIX;
    assert ',' !in a + " County";
    RemoveStateCensus(a + " County");
    StripCountySpace(a);
    SpellSaintNone(a);
  }

  /** The same name without the state: `"Some County"` cleans to
      `"Some"`. */
  lemma CleanCountyName(a: string)
    requires ',' !in a && '.' !in a
    requires |a| > 0 && !IsSpace(a[|a| - 1])
    ensures Clean(a + " County") == a
  {
    assert ',' !in a + " County";
    RemoveStateNoComma(a + " County");
    StripCountySpace(a);
    SpellSaintNone(a);
  }

  /** A bare name is already clean: `"Washtenaw"` stays `"Washtenaw"`. */
  lemma CleanBareName(a: string)
    requires ',' !in a && '.' !in a
    requires |a| > 0 && a[|a| - 1] != 'y' && a[|a| - 1] != '\n'
    ensures Clean(a) == a
  {
    assert RemoveState(a) == a by {
      RemoveStateNoComma(a);
    }
    assert StripCountySuffix(a) == a by {
      NoCountySuffix(a);
    }
    SpellSaintNone(a);
  }

  /** Rewrite 3 on a leading `St. `. */
  lemma SpellSaintSpace(b: string)
    requires '.' !in b && |b| > 0 && !IsSpace(b[0])
    ensures SpellSaint("St. " + b) == "Saint " + b
  {
    assert AllSpace(" ");
    assert "St. " + b == SAINT_ABBREV + " " + b;
    SpellSaintLeading(" ", b);
  }

  /** A census name spelled with `St.`: `"St. Clair County, Michigan"`
      cleans to `"Saint Clair"`. */
  lemma CleanCensusSaintName(b: string)
    requires ',' !in b && '.' !in b
    requires |b| > 0 && !IsSpace(b[0]) && !IsSpace(b[|b| - 1])
    ensures Clean("St. " + b + " County, Michigan") == "Saint " + b
  {
    var a := "St. " + b;
    var c := a + " County";
    assert "St. " + b + " County, Michigan" == c + STATE_SUFFIX;
    assert ',' !in c;
    RemoveStateCensus(c);
    assert a[|a| - 1] == b[|b| - 1];
    StripCountySpace(a);
    SpellSaintSpace(b);
    CleanVia(c + STATE_SUFFIX, c, a, "Saint " + b);
  }

  /** The three rewrites, given what each one yields. */
  lemma CleanVia(s: string, x: string, y: string, z: string)
    requires RemoveState(s) == x && StripCountySuffix(x) == y && SpellSaint(y) == z
    ensures Clean(s) == z
  {
  }

  /** A bare name spelled with `St.`: `"St. Joseph"` cleans to
      `"Saint Joseph"`. */
  lemma CleanBareSaintName(b: string)
    requires ',' !in b && '.' !in b
    requires |b| > 0 && !IsSpace(b[0]) && b[|b| - 1] != 'y' && b[|b| - 1] != '\n'
    ensures Clean("St. " + b) == "Saint " + b
  {
    var a := "St. " + b;
    assert ',' !in a;
    RemoveStateNoComma(a);
    assert a[|a| - 1] == b[|b| - 1];
    NoCountySuffix(a);
    SpellSaintSpace(b);
  }

  /** The suffix is removed once: `"Kent County County"` keeps one
      `County`. */
  lemma CleanCountyOnce(a: string)
    requires ',' !in a && '.' !in a
    requires |a| > 0 && !IsSpace(a[|a| - 1])
    ensures Clean(a + " County County") == a + " County"
  {
    var t := a + " County";
    RemoveStateCounties(a);
    assert t[|t| - 1] == 'y';
    StripCountySpace(t);
    assert '.' !in t;
    SpellSaintNone(t);
  }

  lemma RemoveStateCounties(a: string)
    requires ',' !in a
    ensures RemoveState(a + " County County") == (a + " County") + " County"
  {
    var s := (a + " County") + " County";
    assert a + " County County" == s;
    assert ',' !in s;
    RemoveStateNoComma(s);
  }

  /** Python's `$` also matches before a final newline, so the suffix goes
      and the newline stays: `"Kent County\n"` becomes `"Kent\n"`. */
  lemma CleanCountyBeforeNewline(a: string)
    requires ',' !in a && '.' !in a
    requires |a| > 0 && !IsSpace(a[|a| - 1])
    ensures Clean(a + " County\n") == a + "\n"
  {
    var s := a + " " + COUNTY_WORD + "\n";
    assert a + " County\n" == s;
    assert ',' !in s;
    RemoveStateNoComma(s);
    assert AllSpace(" ");
    StripCountyBeforeNewline(a, " ");
    assert '.' !in a + "\n";
    SpellSaintNone(a + "\n");
  }

  /** A name holding none of the three patterns is returned unchanged. */
  lemma CleanUnchanged(s: string)
    requires forall i :: 0 <= i ==> !OccursAt(s, STATE_SUFFIX, i)
    requires !HasCountySuffix(s)
    requires forall k :: 0 <= k < |s| ==> !SaintAt(s, k)
    ensures Clean(s) == s
  {
    assert s[0..] == s;
  }

  /** What rewrite 2 removes: a whitespace run that does not continue to
      the left, then the anchored `County`; the text before it and a final
      newline after it are kept. */
  lemma StripCountySuffixShape(s: string)
    requires HasCountySuffix(s)
    ensures var r := StripCountySuffix(s);
            var c := AnchoredCounty(s);
            var tail := s[c + 6..];
            var kept := |r| - |tail|;
            && (tail == "" || tail == "\n")
            && 0 <= kept < c
            && r == s[..kept] + tail
            && (forall k :: kept <= k < c ==> IsSpace(s[k]))
            && (kept == 0 || !IsSpace(s[kept - 1]))
  {
    var c := AnchoredCounty(s);
    var j := RunStart(s, c);
    var tail := s[c + 6..];
    AnchoredTail(s);
    assert StripCountySuffix(s) == s[..j] + tail;
    assert |StripCountySuffix(s)| - |tail| == j;
  }

  /** After the anchored `County` there is nothing or a single newline. */
  lemma AnchoredTail(s: string)
    requires AnchoredCounty(s) >= 0
    ensures s[AnchoredCounty(s) + 6..] == "" || s[AnchoredCounty(s) + 6..] == "\n"
  {
    var c := AnchoredCounty(s);
    if c + 6 < |s| {
      assert s[c + 6..] == [s[|s| - 1]];
    }
  }

  /** Every `County` other than the anchored one survives rewrite 2, at the
      same position. */
  lemma CountyElsewhereKept(s: string)
    ensures forall i :: OccursAt(s, COUNTY_WORD, i) && i != AnchoredCounty(s) ==>
      OccursAt(StripCountySuffix(s), COUNTY_WORD, i)
  {
    forall i | OccursAt(s, COUNTY_WORD, i) && i != AnchoredCounty(s)
      ensures OccursAt(StripCountySuffix(s), COUNTY_WORD, i)
    {
      CountyKeptAt(s, i);
    }
  }

  /** Two different occurrences of `County` do not overlap: its first
      letter appears nowhere else in it. */
  lemma CountyApart(s: string, i: int, c: int)
    requires OccursAt(s, COUNTY_WORD, i) && OccursAt(s, COUNTY_WORD, c) && i != c
    ensures i + 6 <= c || c + 6 <= i
  {
    forall k | i < k < i + 6
      ensures s[k] != 'C'
    {
      assert s[k] == s[i..i + 6][k - i];
    }
    forall k | c < k < c + 6
      ensures s[k] != 'C'
    {
      assert s[k] == s[c..c + 6][k - c];
    }
    assert s[i] == s[i..i + 6][0];
    assert s[c] == s[c..c + 6][0];
  }

  lemma CountyKeptAt(s: string, i: int)
    requires OccursAt(s, COUNTY_WORD, i) && i != AnchoredCounty(s)
    ensures OccursAt(StripCountySuffix(s), COUNTY_WORD, i)
  {
    if HasCountySuffix(s) {
      var c := AnchoredCounty(s);
      var j := RunStart(s, c);
      var r := StripCountySuffix(s);
      assert r == s[..j] + s[c + 6..];
      CountyApart(s, i, c);
      assert s[i + 5] == s[i..i + 6][5];
      assert i + 6 <= j;
      assert r[i..i + 6] == s[i..i + 6];
    }
  }

  /** Rewrite 1 can create at most two `St.` at each place it joins text. */
  lemma {:induction false} SaintsAfterRemoveState(s: string)
    ensures Occurrences(RemoveState(s), SAINT_ABBREV) <= Occurrences(s, SAINT_ABBREV) + 2 * StateRemovals(s)
    decreases |s|
  {
    var i := FindFirst(s, STATE_SUFFIX);
    if i >= 0 {
      var pre, rest := RemovalStep(s);
      SaintsAfterRemoveState(rest);
      SaintsAcrossRemoval(pre, rest, RemoveState(rest), StateRemovals(rest));
    }
  }

  /** The first removal of rewrite 1, as a split of the text around it. */
  lemma RemovalStep(s: string) returns (pre: string, rest: string)
    requires FindFirst(s, STATE_SUFFIX) >= 0
    ensures s == pre + (STATE_SUFFIX + rest) && |rest| < |s|
    ensures RemoveState(s) == pre + RemoveState(rest)
    ensures StateRemovals(s) == 1 + StateRemovals(rest)
  {
    var i := FindFirst(s, STATE_SUFFIX);
    pre, rest := StateSplit(s, i).0, StateSplit(s, i).1;
    assert pre + STATE_SUFFIX + rest == pre + (STATE_SUFFIX + rest);
  }

  /** One removal step: if the rest of the text gained at most `2 * n`
      `St.`, the text with the suffix cut out gained at most `2 * (n + 1)`. */
  lemma SaintsAcrossRemoval(pre: string, rest: string, r: string, n: int)
    requires Occurrences(r, SAINT_ABBREV) <= Occurrences(rest, SAINT_ABBREV) + 2 * n
    ensures Occurrences(pre + r, SAINT_ABBREV) <= Occurrences(pre + (STATE_SUFFIX + rest), SAINT_ABBREV) + 2 * (n + 1)
  {
    OccurrencesJoinUpper(pre, r, SAINT_ABBREV);
    OccurrencesJoinLower(pre, STATE_SUFFIX + rest, SAINT_ABBREV);
    OccurrencesJoinLower(STATE_SUFFIX, rest, SAINT_ABBREV);
  }

  /** A final newline adds no `St.`. */
  lemma SaintsNewline(x: string)
    ensures Occurrences(x + "\n", SAINT_ABBREV) == Occurrences(x, SAINT_ABBREV)
  {
    var y := x + "\n";
    assert y[..|y| - 1] == x;
    assert |y| >= 3 ==> y[|y| - 3..][2] == y[|y| - 1] == '\n';
    assert !EndsWith(y, SAINT_ABBREV);
  }

  /** Rewrite 2 only cuts text, so it creates no `St.`. */
  lemma SaintsAfterStrip(s: string)
    ensures Occurrences(StripCountySuffix(s), SAINT_ABBREV) <= Occurrences(s, SAINT_ABBREV)
  {
    if HasCountySuffix(s) {
      var x, rest := StripShape(s);
      OccurrencesJoin(x, rest, SAINT_ABBREV);
      SaintsNewline(x);
    }
  }

  /** Rewrite 2 keeps a prefix of the text, and at most a final newline
      after it. */
  lemma StripShape(s: string) returns (x: string, rest: string)
    requires HasCountySuffix(s)
    ensures s == x + rest
    ensures StripCountySuffix(s) == x || StripCountySuffix(s) == x + "\n"
  {
    var c := AnchoredCounty(s);
    var j := RunStart(s, c);
    x, rest := s[..j], s[j..];
    if c + 6 < |s| {
      assert s[c + 6..] == "\n";
    }
  }

  /** Each expansion of rewrite 3 consumes a `St.` and at least one
      whitespace character and writes six characters, so it grows the text
      by at most two per `St.`. */
  lemma {:induction false} SpellSaintLength(s: string, i: nat)
    requires i <= |s|
    ensures |SpellSaintFrom(s, i)| <= |s| - i + 2 * Occurrences(s[i..], SAINT_ABBREV)
    decreases |s| - i, 1
  {
    if i < |s| {
      if SaintAt(s, i) {
        SpellSaintLengthMatch(s, i);
      } else {
        SpellSaintLengthCopy(s, i);
      }
    }
  }

  lemma {:induction false} SpellSaintLengthMatch(s: string, i: nat)
    requires i < |s| && SaintAt(s, i)
    ensures |SpellSaintFrom(s, i)| <= |s| - i + 2 * Occurrences(s[i..], SAINT_ABBREV)
    decreases |s| - i, 0
  {
    var j := RunEnd(s, i + 3);
    SpellSaintLength(s, j);
    SplitAt(s, i, j);
    OccurrencesJoin(s[i..j], s[j..], SAINT_ABBREV);
    assert s[i..j][..3] == SAINT_ABBREV;
    OccurrencesStart(s[i..j], SAINT_ABBREV);
    assert SpellSaintFrom(s, i) == SAINT + SpellSaintFrom(s, j);
  }

  lemma {:induction false} SpellSaintLengthCopy(s: string, i: nat)
    requires i < |s| && !SaintAt(s, i)
    ensures |SpellSaintFrom(s, i)| <= |s| - i + 2 * Occurrences(s[i..], SAINT_ABBREV)
    decreases |s| - i, 0
  {
    SpellSaintLength(s, i + 1);
    SplitAt(s, i, i + 1);
    assert s[i..i + 1] == [s[i]];
    OccurrencesJoin([s[i]], s[i + 1..], SAINT_ABBREV);
    assert SpellSaintFrom(s, i) == [s[i]] + SpellSaintFrom(s, i + 1);
  }

  lemma {:induction false} NoOccurrences(s: string, p: string)
    requires |p| > 0
    requires forall i :: 0 <= i ==> !OccursAt(s, p, i)
    ensures Occurrences(s, p) == 0
    decreases |s|
  {
    if |s| > 0 {
      var pre := s[..|s| - 1];
      forall i | 0 <= i
        ensures !OccursAt(pre, p, i)
      {
        assert !OccursAt(s, p, i);
        if i <= |pre| - |p| {
          assert s[i..i + |p|] == pre[i..i + |p|];
        }
      }
      NoOccurrences(pre, p);
      assert !OccursAt(s, p, |s| - |p|);
    }
  }

  /** Without a `St.` in the input, the output is never longer: rewrites 1
      and 2 only delete, and rewrite 3 can only grow text around a `St.`. */
  lemma CleanNotLonger(s: string)
    requires forall i :: 0 <= i ==> !OccursAt(s, SAINT_ABBREV, i)
    ensures |Clean(s)| <= |s|
  {
    NoOccurrences(s, SAINT_ABBREV);
  }
}
