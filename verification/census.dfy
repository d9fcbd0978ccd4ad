/** The American Community Survey side of the program: choosing variables
    by topic, cutting the variable codes into calls the Census API accepts,
    merging the calls' rows per county, tagging rows with their year,
    formatting estimates, and writing the `query` table. A fetched row is a
    `Table.Row` of texts. A JSON `null` in a value column is an absent key:
    `format_value` and the sort key read both alike. A `null` name is read
    as `""`, where the program raises. */
module Census {
  import opened Results
  import opened Seqs
  import opened Text
  import opened Numbers
  import opened Sorting
  import opened Dicts
  import opened Table
  import Catalog
  import CountyName

  /** A census variable: its API code, the label shown in the header, and
      its format kind (`number`, `dollar`, `percent` or `decimal`). */
  datatype Variable = Variable(code: string, heading: string, format: string)

  /** The API allows 50 fields a call and `NAME` takes one. */
  const MAX_VARS_PER_CALL: nat := 49

  /** The texts the Census API uses for a withheld estimate. */
  const SUPPRESSED: set<string> := {"-666666666", "-666666666.0", "null", "-", "None"}

  // ---------------------------------------------------------------------
  // Formatting an estimate

  /** A withheld estimate: JSON `null`, or one of the withheld texts. */
  predicate Suppressed(value: Option<string>) {
    value.None? || value.value in SUPPRESSED
  }

  /** A present, not withheld estimate whose text `float()` reads as `x`. */
  predicate ReadsAs(value: Option<string>, x: real) {
    !Suppressed(value) && ParseNumber(value.value) == Some(x)
  }

  /** `str(int(num))` for a whole number: digits (and a sign) only, and
      `float()` reads it back as the same number. */
  function WholeText(x: real): (r: string)
    requires IsWhole(x)
    ensures ParseNumber(r) == Some(x)
    ensures '.' !in r
  {
    var n := Truncate(x);
    TruncateWhole(x);
    IntToStringIsNumber(n);
    IntToStringDigits(n);
    IntToString(n)
  }

  lemma IntToStringDigits(i: int)
    ensures forall k :: 0 <= k < |IntToString(i)| ==> IntToString(i)[k] == '-' || IsDigit(IntToString(i)[k])
  {
    if i < 0 {
      var t := NatToString(-i);
      assert IntToString(i) == "-" + t;
      assert forall k :: 1 <= k < |IntToString(i)| ==> IntToString(i)[k] == t[k - 1];
    }
  }

  /** `format_value`: a withheld estimate is blank, text that is not a
      number is kept as it is, `decimal` gets one decimal place, and every
      other kind shows a whole number without a fractional part. */
  function FormatValue(value: Option<string>, fmt: string, ft: FloatText): (r: string)
    ensures Suppressed(value) ==> r == ""
    ensures !Suppressed(value) && ParseNumber(value.value).None? ==> r == value.value
    ensures !Suppressed(value) && NegativeZero(value.value) && fmt == "decimal" ==> r == "-0.0"
    ensures forall x :: ReadsAs(value, x) && fmt == "decimal" && !NegativeZero(value.value) ==> r == ft.fixed1(x)
    ensures forall x :: ReadsAs(value, x) && fmt != "decimal" && IsWhole(x) ==> ParseNumber(r) == Some(x) && '.' !in r
    ensures forall x :: ReadsAs(value, x) && fmt != "decimal" && !IsWhole(x) ==> r == ft.repr(x)
  {
    if Suppressed(value) then ""
    else
      match ParseNumber(value.value)
      case None => value.value
      case Some(x) =>
        if fmt == "decimal" then (if NegativeZero(value.value) then "-0.0" else ft.fixed1(x))
        else if IsWhole(x) then WholeText(x)
        else ft.repr(x)
  }

  /** A negative zero keeps its sign under `decimal` and is the whole
      number 0 under every other kind: `"-0.0"` gives `"-0.0"` and `"0"`. */
  lemma SignedZero(t: string, fmt: string, ft: FloatText)
    requires !Suppressed(Some(t)) && NegativeZero(t)
    ensures fmt == "decimal" ==> FormatValue(Some(t), fmt, ft) == "-0.0"
    ensures fmt != "decimal" ==> FormatValue(Some(t), fmt, ft) == "0"
  {
    if fmt != "decimal" {
      assert IntToString(0) == "0";
      FormatWhole(Some(t), fmt, ft, 0);
    }
  }

  /** The first `.` after a run of digits is right after the run. */
  lemma {:induction false} FirstDotAfterDigits(s: string, t: string)
    requires AllDigits(s)
    ensures FirstDot(s + t) == |s| + FirstDot(t)
    decreases |s|
  {
    if |s| > 0 {
      assert (s + t)[1..] == s[1..] + t;
      FirstDotAfterDigits(s[1..], t);
    } else {
      assert s + t == t;
    }
  }

  /** `float()` reads the text of a whole number followed by `.0` as that
      number, as the API sends `"45678.0"`. */
  lemma WholeDotZero(n: nat)
    ensures ParseNumber(NatToString(n) + ".0") == Some(n as real)
  {
    var s := NatToString(n);
    var t := s + ".0";
    FirstDotAfterDigits(s, ".0");
    assert FirstDot(".0") == 0;
    assert t[..|s|] == s;
    assert t[|s| + 1..] == "0";
    assert DigitsValue("0") == 0 by {
      assert "0"[..0] == "";
    }
    assert Text.IsDigit(t[0]);
  }

  /** No withheld text starts with a digit. */
  lemma DigitNotSuppressed(s: string)
    requires |s| > 0 && IsDigit(s[0])
    ensures s !in SUPPRESSED
  {
    assert forall w :: w in SUPPRESSED ==> |w| > 0 && !IsDigit(w[0]);
  }

  /** A whole number, for every kind but `decimal`, is written as the
      integer's text. */
  lemma FormatWhole(value: Option<string>, fmt: string, ft: FloatText, n: int)
    requires ReadsAs(value, n as real) && fmt != "decimal"
    ensures FormatValue(value, fmt, ft) == IntToString(n)
  {
    assert Truncate(n as real) == n;
  }

  /** For every kind but `decimal`, an integer the API writes as `str()`
      writes it, bare or with `.0`, comes out as that text: `"12345"`
      stays `"12345"` and `"45678.0"` becomes `"45678"`. */
  lemma FormatCanonical(s: string, fmt: string, ft: FloatText)
    requires Canonical(s) && fmt != "decimal"
    ensures FormatValue(Some(s), fmt, ft) == s
    ensures FormatValue(Some(s + ".0"), fmt, ft) == s
  {
    var n := DigitsValue(s);
    NatToStringOfDigits(s);
    WholeDotZero(n);
    IntToStringIsNumber(n);
    DigitNotSuppressed(s);
    DigitNotSuppressed(s + ".0");
    FormatWhole(Some(s), fmt, ft, n);
    FormatWhole(Some(s + ".0"), fmt, ft, n);
  }

  lemma FormatWholeExamples(ft: FloatText)
    ensures FormatValue(Some("45678.0"), "number", ft) == "45678"
    ensures FormatValue(Some("12345"), "number", ft) == "12345"
    ensures FormatValue(Some("12345"), "dollar", ft) == "12345"
  {
    assert Canonical("45678") by {
      CanonicalFive('4', '5', '6', '7', '8');
    }
    assert Canonical("12345") by {
      CanonicalFive('1', '2', '3', '4', '5');
    }
    FormatCanonical("45678", "number", ft);
    assert "45678" + ".0" == "45678.0";
    FormatCanonical("12345", "number", ft);
    FormatCanonical("12345", "dollar", ft);
  }

  lemma CanonicalFive(a: char, b: char, c: char, d: char, e: char)
    requires '1' <= a <= '9' && IsDigit(b) && IsDigit(c) && IsDigit(d) && IsDigit(e)
    ensures Canonical([a, b, c, d, e])
  {
  }

  /** Every withheld text, and `None`, is blank whatever the format. */
  lemma FormatSuppressedExamples(fmt: string, ft: FloatText)
    ensures FormatValue(None, fmt, ft) == ""
    ensures FormatValue(Some("-666666666"), fmt, ft) == ""
    ensures FormatValue(Some("-666666666.0"), fmt, ft) == ""
    ensures FormatValue(Some("null"), fmt, ft) == ""
    ensures FormatValue(Some("-"), fmt, ft) == ""
    ensures FormatValue(Some("None"), fmt, ft) == ""
  {
  }

  // ---------------------------------------------------------------------
  // Choosing variables

  /** `resolve_variables`: raw codes given with `--variable` are taken as
      they are, each its own label and formatted as a `number`; otherwise
      the topics are looked up in the topic table. */
  function ResolveVariables(topics: seq<Catalog.Group<Variable>>, names: seq<string>, raw: seq<string>)
    : (r: Result<seq<Variable>>)
    ensures |raw| > 0 ==> r.Ok? && |r.value| == |raw|
    ensures |raw| > 0 ==> forall i :: 0 <= i < |raw| ==> r.value[i] == Variable(raw[i], raw[i], "number")
    ensures |raw| == 0 ==> (r.Err? <==> Catalog.ALL !in names && exists k :: Catalog.FirstUnknown(topics, names, k))
    ensures |raw| == 0 && r.Err? ==> exists k :: Catalog.FirstUnknown(topics, names, k) && r.error == UnknownGroup(names[k])
  {
    if |raw| > 0 then Ok(Map(raw, RawVariable))
    else Catalog.Resolve(topics, names)
  }

  function RawVariable(code: string): Variable {
    Variable(code, code, "number")
  }

  /** With no raw codes, `all` selects every variable of every topic, as
      many as all topics hold together. */
  lemma ResolveVariablesAll(topics: seq<Catalog.Group<Variable>>, names: seq<string>)
    requires Catalog.WellFormed(topics) && Catalog.ALL in names
    ensures ResolveVariables(topics, names, []).Ok?
    ensures |ResolveVariables(topics, names, []).value| ==
      SumInt(Map(topics, Catalog.GroupMembers), Length)
  {
    Catalog.ResolveAll(topics, names);
  }

  /** With no raw codes, one known topic selects exactly its variables. */
  lemma ResolveVariablesSingle(topics: seq<Catalog.Group<Variable>>, name: string)
    requires name != Catalog.ALL && name in Catalog.Names(topics)
    ensures ResolveVariables(topics, [name], []) == Ok(Catalog.Members(topics, name))
  {
    Catalog.ResolveSingle(topics, name);
  }

  // ---------------------------------------------------------------------
  // Cutting the codes into calls

  /** `[codes[i:i + 49] for i in range(0, len(codes), 49)]` */
  function Chunks(codes: seq<string>): (r: seq<seq<string>>)
    ensures forall i :: 0 <= i < |r| ==> 0 < |r[i]| <= MAX_VARS_PER_CALL
    decreases |codes|
  {
    if |codes| == 0 then []
    else if |codes| <= MAX_VARS_PER_CALL then [codes]
    else [codes[..MAX_VARS_PER_CALL]] + Chunks(codes[MAX_VARS_PER_CALL..])
  }

  function Min(a: int, b: int): int {
    if a <= b then a else b
  }

  /** The chunks are the consecutive 49-wide slices of the codes, the last
      one possibly shorter: chunk `i` starts at code `49 * i`. */
  lemma {:induction false} ChunksSlices(codes: seq<string>)
    ensures |Chunks(codes)| == (|codes| + MAX_VARS_PER_CALL - 1) / MAX_VARS_PER_CALL
    ensures forall i :: 0 <= i < |Chunks(codes)| ==>
      Chunks(codes)[i] == codes[MAX_VARS_PER_CALL * i..Min(MAX_VARS_PER_CALL * i + MAX_VARS_PER_CALL, |codes|)]
    decreases |codes|
  {
    if |codes| > MAX_VARS_PER_CALL {
      var rest := codes[MAX_VARS_PER_CALL..];
      ChunksSlices(rest);
      var r := Chunks(codes);
      forall i | 1 <= i < |r|
        ensures r[i] == codes[MAX_VARS_PER_CALL * i..Min(MAX_VARS_PER_CALL * i + MAX_VARS_PER_CALL, |codes|)]
      {
        assert r[i] == Chunks(rest)[i - 1];
        var j := MAX_VARS_PER_CALL * (i - 1);
        assert MAX_VARS_PER_CALL * i == MAX_VARS_PER_CALL + j;
        var e := Min(j + MAX_VARS_PER_CALL, |rest|);
        assert e + MAX_VARS_PER_CALL == Min(MAX_VARS_PER_CALL * i + MAX_VARS_PER_CALL, |codes|);
        assert Chunks(rest)[i - 1] == rest[j..e];
        SliceOfDrop(codes, MAX_VARS_PER_CALL, j, e);
      }
    }
  }

  /** Putting the chunks back together gives the codes, in order. */
  lemma {:induction false} ChunksFlatten(codes: seq<string>)
    ensures Flatten(Chunks(codes)) == codes
    decreases |codes|
  {
    if 0 < |codes| <= MAX_VARS_PER_CALL {
      assert Flatten([codes]) == Flatten([codes][..0]) + codes;
    } else if |codes| > MAX_VARS_PER_CALL {
      var head, rest := codes[..MAX_VARS_PER_CALL], codes[MAX_VARS_PER_CALL..];
      ChunksFlatten(rest);
      FlattenConcat([head], Chunks(rest));
      assert Flatten([head]) == Flatten([head][..0]) + head;
      assert codes == head + rest;
    }
  }

  // ---------------------------------------------------------------------
  // Fetching one year

  /** `_fetch_acs_batch(codes, year, key)`: the rows the API returns for a
      year and a list of codes, one dict per county. */
  type Fetch = (int, seq<string>) -> seq<Row>

  function Codes(vars: seq<Variable>): seq<string> {
    Map(vars, (v: Variable) => v.code)
  }

  function CallFor(fetch: Fetch, year: int): seq<string> -> seq<Row> {
    codes => fetch(year, codes)
  }

  /** Every row the calls return, call after call: no codes take no call,
      and up to 49 codes take a single call. */
  function BatchRows(codes: seq<string>, year: int, fetch: Fetch): (r: seq<Row>)
    ensures |codes| == 0 ==> r == []
    ensures 0 < |codes| <= MAX_VARS_PER_CALL ==> r == fetch(year, codes)
  {
    var calls := Map(Chunks(codes), CallFor(fetch, year));
    if 0 < |codes| <= MAX_VARS_PER_CALL then
      assert Flatten(calls) == Flatten(calls[..0]) + calls[0];
      Flatten(calls)
    else Flatten(calls)
  }

  /** A row is among the batch rows exactly when the call for some chunk
      returned it. */
  lemma BatchRowsFrom(codes: seq<string>, year: int, fetch: Fetch)
    ensures forall row :: row in BatchRows(codes, year, fetch) <==>
      exists i :: 0 <= i < |Chunks(codes)| && row in fetch(year, Chunks(codes)[i])
  {
    var calls := Map(Chunks(codes), CallFor(fetch, year));
    assert BatchRows(codes, year, fetch) == Flatten(calls);
    FlattenMembers(calls);
  }

  /** `row["state"] + row["county"]`, or nothing when either is missing
      (Python raises `KeyError` there). */
  function AcsKey(row: Row): Option<string> {
    if "state" in row && "county" in row then Some(Get(row, "state") + Get(row, "county")) else None
  }

  function NoRow(k: string): Row {
    map[]
  }

  /** The position of the first row without a county key, or -1. */
  function FirstUnkeyed(rows: seq<Row>): (k: int)
    ensures -1 <= k < |rows|
    ensures k >= 0 ==> AcsKey(rows[k]).None?
    ensures forall j :: 0 <= j < |rows| && (k < 0 || j < k) ==> AcsKey(rows[j]).Some?
  {
    if |rows| == 0 then -1
    else if AcsKey(rows[0]).None? then 0
    else
      var k := FirstUnkeyed(rows[1..]);
      assert forall j :: 1 <= j < |rows| ==> rows[1..][j - 1] == rows[j];
      if k < 0 then -1 else k + 1
  }

  /** The dict `merged` after the loop: one entry per county key. */
  function AcsMerged(rows: seq<Row>): (d: Dict<Row>)
    ensures Valid(d) && |d.keys| <= |rows|
    ensures forall k :: k in d.entries <==> exists i :: 0 <= i < |rows| && AcsKey(rows[i]) == Some(k)
  {
    GroupFold(rows, AcsKey, NoRow, Join)
  }

  /** `fetch_acs_data`: up to 49 codes take one call whose rows are the
      answer; more are fetched chunk by chunk and the rows merged per
      county, in the order counties were first seen. */
  function FetchAcs(vars: seq<Variable>, year: int, fetch: Fetch): (r: Result<seq<Row>>)
    ensures |vars| <= MAX_VARS_PER_CALL ==> r == Ok(fetch(year, Codes(vars)))
    ensures r.Err? <==>
      |vars| > MAX_VARS_PER_CALL && exists row :: row in BatchRows(Codes(vars), year, fetch) && AcsKey(row).None?
    ensures r.Err? ==> r.error == MissingField("state") || r.error == MissingField("county")
  {
    var codes := Codes(vars);
    if |codes| <= MAX_VARS_PER_CALL then Ok(fetch(year, codes))
    else
      var rows := BatchRows(codes, year, fetch);
      var k := FirstUnkeyed(rows);
      if k >= 0 then Err(MissingField(if "state" !in rows[k] then "state" else "county"))
      else Ok(Items(AcsMerged(rows), Second))
  }

  /** The multi-call merge yields exactly one row per county key seen, and
      each is the union of that county's rows from every call, a later
      call's value winning a clash. */
  lemma FetchAcsMerge(vars: seq<Variable>, year: int, fetch: Fetch)
    requires |vars| > MAX_VARS_PER_CALL && FetchAcs(vars, year, fetch).Ok?
    ensures var rows := BatchRows(Codes(vars), year, fetch);
      var keys := AcsMerged(rows).keys;
      && |FetchAcs(vars, year, fetch).value| == |keys|
      && Distinct(keys)
      && (forall k :: k in keys <==> exists row :: row in rows && AcsKey(row) == Some(k))
      && (forall j :: 0 <= j < |keys| ==>
            FetchAcs(vars, year, fetch).value[j] == Overlay(Group(rows, AcsKey, keys[j])))
  {
    var rows := BatchRows(Codes(vars), year, fetch);
    var d := AcsMerged(rows);
    forall k ensures k in d.keys <==> exists row :: row in rows && AcsKey(row) == Some(k) {
      GroupFoldAt(rows, AcsKey, NoRow, Join, k);
      GroupMember(rows, AcsKey, k, if |Group(rows, AcsKey, k)| > 0 then Group(rows, AcsKey, k)[0] else map[]);
      if exists row :: row in rows && AcsKey(row) == Some(k) {
        var row :| row in rows && AcsKey(row) == Some(k);
        GroupMember(rows, AcsKey, k, row);
      }
    }
    forall j | 0 <= j < |d.keys|
      ensures FetchAcs(vars, year, fetch).value[j] == Overlay(Group(rows, AcsKey, d.keys[j]))
    {
      UnionEntry(rows, AcsKey, NoRow, d.keys[j]);
      OverlayEmptyFirst(Group(rows, AcsKey, d.keys[j]));
    }
  }

  // ---------------------------------------------------------------------
  // Several years

  /** Every row with `row["year"] = str(year)` set. */
  function Tag(rows: seq<Row>, year: int): (r: seq<Row>)
    ensures |r| == |rows|
    ensures forall i :: 0 <= i < |rows| ==> r[i] == rows[i]["year" := Str(IntToString(year))]
  {
    seq(|rows|, i requires 0 <= i < |rows| => rows[i]["year" := Str(IntToString(year))])
  }

  /** The row carries a `year` that `int()` reads as one of `years`. */
  predicate HasYearIn(row: Row, years: seq<int>) {
    "year" in row && ParseInt(Get(row, "year")).Some? && ParseInt(Get(row, "year")).value in years
  }

  lemma TagYears(rows: seq<Row>, y: int, years: seq<int>)
    requires y in years
    ensures forall row :: row in Tag(rows, y) ==> HasYearIn(row, years)
  {
    forall row | row in Tag(rows, y) ensures HasYearIn(row, years) {
      var i :| 0 <= i < |rows| && Tag(rows, y)[i] == row;
      assert Get(row, "year") == IntToString(y);
    }
  }

  /** `fetch_multi_year`: each year's rows, tagged with the year, one year
      after the other. The first year whose fetch fails ends the run. */
  function FetchMultiYear(vars: seq<Variable>, years: seq<int>, fetch: Fetch): (r: Result<seq<Row>>)
    ensures r.Ok? <==> forall i :: 0 <= i < |years| ==> FetchAcs(vars, years[i], fetch).Ok?
    ensures r.Ok? ==> forall row :: row in r.value ==> HasYearIn(row, years)
    decreases |years|
  {
    if |years| == 0 then Ok([])
    else
      var pre, y := years[..|years| - 1], years[|years| - 1];
      assert years == pre + [y];
      AllFetchedAppend(vars, pre, y, years, fetch);
      match FetchMultiYear(vars, pre, fetch)
      case Err(e) => Err(e)
      case Ok(acc) =>
        match FetchAcs(vars, y, fetch)
        case Err(e) => Err(e)
        case Ok(rows) =>
          TaggedAppend(acc, rows, pre, y, years);
          Ok(acc + Tag(rows, y))
  }

  /** Every year of `pre + [y]` fetches exactly when every year of `pre`
      and `y` do. */
  lemma AllFetchedAppend(vars: seq<Variable>, pre: seq<int>, y: int, years: seq<int>, fetch: Fetch)
    requires years == pre + [y]
    ensures (forall i :: 0 <= i < |years| ==> FetchAcs(vars, years[i], fetch).Ok?) <==>
      (forall i :: 0 <= i < |pre| ==> FetchAcs(vars, pre[i], fetch).Ok?) && FetchAcs(vars, y, fetch).Ok?
  {
    assert years[|pre|] == y;
    assert forall i :: 0 <= i < |pre| ==> pre[i] == years[i];
  }

  /** Rows tagged with earlier years, then rows tagged with the last year,
      all carry one of the years. */
  lemma TaggedAppend(acc: seq<Row>, rows: seq<Row>, pre: seq<int>, y: int, years: seq<int>)
    requires years == pre + [y]
    requires forall row :: row in acc ==> HasYearIn(row, pre)
    ensures forall row :: row in acc + Tag(rows, y) ==> HasYearIn(row, years)
  {
    TagYears(rows, y, years);
    YearsAppend(acc, Tag(rows, y), pre, y, years);
  }

  /** Rows tagged with earlier years, then rows tagged with any year, all
      carry one of the years. */
  lemma YearsAppend(acc: seq<Row>, tagged: seq<Row>, pre: seq<int>, y: int, years: seq<int>)
    requires years == pre + [y]
    requires forall row :: row in acc ==> HasYearIn(row, pre)
    requires forall row :: row in tagged ==> HasYearIn(row, years)
    ensures forall row :: row in acc + tagged ==> HasYearIn(row, years)
  {
    forall row | row in acc + tagged ensures HasYearIn(row, years) {
      if row in acc {
        assert ParseInt(Get(row, "year")).value in pre;
      }
    }
  }

  /** Two fetch outcomes in sequence: their rows concatenated, or the
      earlier failure. */
  function Then(x: Result<seq<Row>>, y: Result<seq<Row>>): Result<seq<Row>> {
    match x
    case Err(e) => Err(e)
    case Ok(xs) =>
      match y
      case Err(e) => Err(e)
      case Ok(ys) => Ok(xs + ys)
  }

  function TagResult(r: Result<seq<Row>>, year: int): Result<seq<Row>> {
    match r
    case Err(e) => Err(e)
    case Ok(rows) => Ok(Tag(rows, year))
  }

  lemma ThenAssoc(x: Result<seq<Row>>, y: Result<seq<Row>>, z: Result<seq<Row>>)
    ensures Then(Then(x, y), z) == Then(x, Then(y, z))
  {
    if x.Ok? && y.Ok? && z.Ok? {
      assert x.value + y.value + z.value == x.value + (y.value + z.value);
    }
  }

  /** One turn of the year loop. */
  lemma FetchMultiYearStep(vars: seq<Variable>, years: seq<int>, fetch: Fetch)
    requires |years| > 0
    ensures FetchMultiYear(vars, years, fetch) ==
      Then(FetchMultiYear(vars, years[..|years| - 1], fetch), TagResult(FetchAcs(vars, years[|years| - 1], fetch), years[|years| - 1]))
  {
  }

  /** Fetching two runs of years is fetching each and concatenating, in
      year order; the earlier failure wins. */
  lemma {:induction false} FetchMultiYearConcat(vars: seq<Variable>, a: seq<int>, b: seq<int>, fetch: Fetch)
    ensures FetchMultiYear(vars, a + b, fetch) == Then(FetchMultiYear(vars, a, fetch), FetchMultiYear(vars, b, fetch))
    decreases |b|
  {
    if |b| == 0 {
      assert a + b == a;
      if FetchMultiYear(vars, a, fetch).Ok? {
        assert FetchMultiYear(vars, a, fetch).value + [] == FetchMultiYear(vars, a, fetch).value;
      }
    } else {
      var b0, y := b[..|b| - 1], b[|b| - 1];
      var t := TagResult(FetchAcs(vars, y, fetch), y);
      assert (a + b)[..|a + b| - 1] == a + b0 && (a + b)[|a + b| - 1] == y;
      FetchMultiYearStep(vars, a + b, fetch);
      FetchMultiYearConcat(vars, a, b0, fetch);
      ThenAssoc(FetchMultiYear(vars, a, fetch), FetchMultiYear(vars, b0, fetch), t);
      FetchMultiYearStep(vars, b, fetch);
    }
  }

  /** One year gives that year's rows, each tagged with it. */
  lemma FetchOneYear(vars: seq<Variable>, year: int, fetch: Fetch)
    requires FetchAcs(vars, year, fetch).Ok?
    ensures FetchMultiYear(vars, [year], fetch) == Ok(Tag(FetchAcs(vars, year, fetch).value, year))
  {
    assert [year][..0] == [];
    assert [] + Tag(FetchAcs(vars, year, fetch).value, year) == Tag(FetchAcs(vars, year, fetch).value, year);
  }

  // ---------------------------------------------------------------------
  // Writing the `query` table

  function Columns(vars: seq<Variable>): (r: seq<Column>)
    ensures |r| == |vars|
  {
    Map(vars, (v: Variable) => Column(v.code, v.heading))
  }

  /** The default order: by `(row.get("NAME", ""), row.get("year", ""))`,
      compared as Python compares tuples of strings. */
  predicate NameYearLe(a: Row, b: Row) {
    || StrLt(Get(a, "NAME"), Get(b, "NAME"))
    || (Get(a, "NAME") == Get(b, "NAME") && StrLe(Get(a, "year"), Get(b, "year")))
  }

  function ByNameYear(): (Row, Row) -> bool {
    (a: Row, b: Row) => NameYearLe(a, b)
  }

  lemma NameYearTotal()
    ensures TotalPreorder(ByNameYear())
  {
    forall a: Row, b: Row ensures NameYearLe(a, b) || NameYearLe(b, a) {
      StrLeTotal(Get(a, "NAME"), Get(b, "NAME"));
      StrLeTotal(Get(a, "year"), Get(b, "year"));
    }
    forall a: Row, b: Row, c: Row | NameYearLe(a, b) && NameYearLe(b, c) ensures NameYearLe(a, c) {
      var na, nb, nc := Get(a, "NAME"), Get(b, "NAME"), Get(c, "NAME");
      if na != nc {
        StrLeRefl(na);
        StrLeRefl(nb);
        StrLeTrans(na, nb, nc);
      } else if na != nb {
        StrLeAntisym(na, nb);
      } else {
        StrLeTrans(Get(a, "year"), Get(b, "year"), Get(c, "year"));
      }
    }
  }

  /** The rows `write_csv` writes, in the order it writes them: those the
      `--county` filter keeps on `NAME`, sorted by `--sort` descending, or
      else by name and year. */
  function Ordered(rows: seq<Row>, vars: seq<Variable>, filter: Option<string>, sort: Option<string>)
    : (r: Result<seq<Row>>)
    ensures r.Err? ==> SortRequested(sort) && |FilterRows(rows, "NAME", filter)| > 0
    ensures r.Ok? ==> |r.value| == |FilterRows(rows, "NAME", filter)|
    ensures r.Ok? ==> multiset(r.value) == multiset(FilterRows(rows, "NAME", filter))
    ensures r.Ok? && !SortRequested(sort) ==> SortedBy(r.value, ByNameYear())
    ensures r.Ok? && SortRequested(sort) ==> KeysDescending(r.value, SortColumn(Columns(vars), sort.value))
  {
    var kept := FilterRows(rows, "NAME", filter);
    if SortRequested(sort) then SortDesc(kept, SortColumn(Columns(vars), sort.value))
    else
      NameYearTotal();
      SortBySorted(kept, ByNameYear());
      Ok(SortBy(kept, ByNameYear()))
  }

  /** Without `--sort`, rows with the same name and year keep their input
      order (Python's sort is stable). */
  lemma OrderedStable(rows: seq<Row>, vars: seq<Variable>, filter: Option<string>, sort: Option<string>, z: Row)
    requires !SortRequested(sort)
    ensures Ordered(rows, vars, filter, sort).Ok?
    ensures Filter(Ordered(rows, vars, filter, sort).value, EquivTo(ByNameYear(), z)) ==
      Filter(FilterRows(rows, "NAME", filter), EquivTo(ByNameYear(), z))
  {
    NameYearTotal();
    SortByStable(FilterRows(rows, "NAME", filter), ByNameYear(), z);
  }

  /** `["Year"]` when years are shown, then `"County"` and the labels. */
  function CsvHeader(vars: seq<Variable>, showYear: bool): (r: seq<string>)
    ensures |r| == |vars| + 1 + (if showYear then 1 else 0)
  {
    (if showYear then ["Year"] else []) + ["County"] + Headings(Columns(vars))
  }

  /** `row.get(code)`: the cell, or `None`. */
  function Cell(row: Row, code: string): Option<string> {
    if code in row then Some(Get(row, code)) else None
  }

  function Formatted(row: Row, vars: seq<Variable>, ft: FloatText): (r: seq<string>)
    ensures |r| == |vars|
    ensures forall j :: 0 <= j < |vars| ==> r[j] == FormatValue(Cell(row, vars[j].code), vars[j].format, ft)
  {
    seq(|vars|, j requires 0 <= j < |vars| => FormatValue(Cell(row, vars[j].code), vars[j].format, ft))
  }

  /** One data line: the year when shown, the cleaned county name, then
      each variable's formatted estimate. */
  function CsvLine(row: Row, vars: seq<Variable>, showYear: bool, ft: FloatText): (r: seq<string>)
    ensures |r| == |vars| + 1 + (if showYear then 1 else 0)
    ensures showYear ==> r[0] == Get(row, "year")
    ensures r[if showYear then 1 else 0] == CountyName.Clean(Get(row, "NAME"))
  {
    (if showYear then [Get(row, "year")] else []) + [CountyName.Clean(Get(row, "NAME"))] + Formatted(row, vars, ft)
  }

  function CsvLines(rows: seq<Row>, vars: seq<Variable>, showYear: bool, ft: FloatText): (r: seq<seq<string>>)
    ensures |r| == |rows|
    ensures forall i :: 0 <= i < |rows| ==> r[i] == CsvLine(rows[i], vars, showYear, ft)
  {
    seq(|rows|, i requires 0 <= i < |rows| => CsvLine(rows[i], vars, showYear, ft))
  }

  /** `write_csv`: nothing and a count of 0 when the filter leaves no row;
      otherwise the header when asked, one line per kept row, and the
      number of kept rows. */
  function WriteCsv(rows: seq<Row>, vars: seq<Variable>, showYear: bool, filter: Option<string>,
                    sort: Option<string>, header: bool, ft: FloatText): (r: Result<Output>)
    ensures r.Err? ==> SortRequested(sort) && |FilterRows(rows, "NAME", filter)| > 0
    ensures r.Ok? ==> r.value.count == |FilterRows(rows, "NAME", filter)|
    ensures r.Ok? && r.value.count == 0 ==> r.value.lines == []
    ensures r.Ok? && r.value.count > 0 ==>
      |r.value.lines| == r.value.count + (if header then 1 else 0) &&
      (header ==> r.value.lines[0] == CsvHeader(vars, showYear))
    ensures r.Ok? ==> forall i :: 0 <= i < |r.value.lines| ==>
      |r.value.lines[i]| == |vars| + 1 + (if showYear then 1 else 0)
  {
    var kept := FilterRows(rows, "NAME", filter);
    if |kept| == 0 then Ok(Output([], 0))
    else
      match Ordered(rows, vars, filter, sort)
      case Err(e) => Err(e)
      case Ok(s) => Ok(Emit(CsvHeader(vars, showYear), CsvLines(s, vars, showYear, ft), header))
  }

  /** The data lines are the kept rows, each once, in the order `Ordered`
      promises: by name and year without `--sort`, by the sort column's
      number, largest first, with it. */
  lemma WriteCsvOrder(rows: seq<Row>, vars: seq<Variable>, showYear: bool, filter: Option<string>,
                      sort: Option<string>, header: bool, ft: FloatText)
    requires WriteCsv(rows, vars, showYear, filter, sort, header, ft).Ok?
    ensures exists s :: CsvOrder(rows, vars, showYear, filter, sort, header, ft, s)
  {
    var kept := FilterRows(rows, "NAME", filter);
    var s := Ordered(rows, vars, filter, sort).value;
    if |kept| == 0 {
      assert s == [] by {
        assert |multiset(s)| == 0;
      }
    }
    assert CsvOrder(rows, vars, showYear, filter, sort, header, ft, s);
  }

  predicate CsvOrder(rows: seq<Row>, vars: seq<Variable>, showYear: bool, filter: Option<string>,
                     sort: Option<string>, header: bool, ft: FloatText, s: seq<Row>)
    requires WriteCsv(rows, vars, showYear, filter, sort, header, ft).Ok?
  {
    && multiset(s) == multiset(FilterRows(rows, "NAME", filter))
    && DataLines(WriteCsv(rows, vars, showYear, filter, sort, header, ft).value, header) == CsvLines(s, vars, showYear, ft)
    && (!SortRequested(sort) ==> SortedBy(s, ByNameYear()))
    && (SortRequested(sort) ==> KeysDescending(s, SortColumn(Columns(vars), sort.value)))
  }
}
