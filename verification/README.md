# acs_cli_mi record-reshaping core, in Dafny

`acs_cli_mi` is a command-line tool that pulls Michigan county data from
four public sources and writes it out as CSV:

- the Census American Community Survey (ACS);
- the CMS hospital list;
- the HRSA health-professional shortage areas (HPSA);
- the CDC PLACES health measures.

Under its HTTP and command-line glue sits a layer of pure record reshaping.
This project models that layer as immutable data and pure functions, and
proves what it computes:

- **County-name normalisation** (`CountyName`): `clean_county_name` and its
  three regular-expression rewrites.
  - The Python whitespace class `\s` and the `$` anchor are written out
    explicitly.
  - The `$` anchor also matches before a final newline.
- **Selector resolution** (`Catalog`, plus the per-source modules): the one
  loop behind `resolve_variables`, `resolve_measures`,
  `resolve_access_measures` and `resolve_hpsa_measures`.
  - `all` expands to every group in table order.
  - An unknown name is an error naming the first one.
  - The members of the named groups are concatenated in request order.
- **Census batching** (`Census`):
  - `format_value` and the `SUPPRESSED` set;
  - cutting a code list into chunks of at most 49, and merging the chunks'
    rows by `state + county`;
  - `fetch_multi_year` year tagging;
  - `write_csv`.
- **Per-county aggregation**:
  - `Cms` models `_aggregate_hospitals_by_county` and `fetch_access_data`.
  - `Hrsa` models `_aggregate_hpsa_by_county` and the layer merge of
    `fetch_shortage_data`.
  - Both are proved against a reference reading: a county's counts are the
    numbers of its records of each kind, its scores and ratings are those
    that parse, and its population is their sum.
- **Long-to-wide pivot** (`Places`): `_pivot_rows`, and the PLACES measure
  table.
- **Cross-source merge and the row emitter** (`Table`, `Access`):
  - the `setdefault(...).update(row)` merge by county, where later sources win;
  - the case-insensitive substring filter;
  - the label-to-id sort column and the stable descending sort;
  - the header-plus-rows writer shared by `write_access_csv`,
    `write_shortage_csv`, `write_places_csv` and the `access` command.

Supporting modules:

- `Results` holds `Option`, `Result` and the error kinds.
- `Text` covers character classes, ASCII case mapping, `strip` and string order.
- `Numbers` covers a decimal parser for the subset of `float()` and `int()`
  literals, integer printing, truncation, max and mean.
- `Seqs` covers map, filter, flatten, sums and dict overlays.
- `Sorting` is a stable insertion sort with its sortedness, permutation and
  stability lemmas.
- `Dicts` models an insertion-ordered Python `dict` and the group-by loop
  (`GroupFold`) that every roll-up in the program uses.

Design choices:

- **Rows** are `map<string, Value>`, where a `Value` is a string or a Python
  int.
- **Fetch calls** are oracle parameters: a function from request to rows.
- **Float rendering** is a parameter `ft: FloatText`. It bundles
  `str(float)`, `round(x, 1)`, `f"{x:.1f}"` and the pivot's
  `round(x / 100, 4)`. Contracts therefore say which rendering a cell gets,
  not its digits.
- **Write outcomes**:
  - A write is `Ok(Output(lines, count))`.
  - It is `Err(NotNumeric(text))` when the requested descending sort meets
    a value `float()` would reject.
  - The sort key of a missing or empty cell is 0, as in
    `float(r.get(id, 0) or 0)`.

## Model

| member | source | states |
|---|---|---|
| CountyName.RemoveState | src/acs_cli/__init__.py:6 | each removal of `", Michigan"` shortens the name by exactly 10 characters; with no occurrence the name is unchanged |
| CountyName.NoStateRemovals | src/acs_cli/__init__.py:6 | the `", Michigan"` rule removes nothing exactly when the name does not contain `", Michigan"` |
| CountyName.RemoveStateAfter | src/acs_cli/__init__.py:6 | after a prefix without a comma, the first `", Michigan"` is removed and the prefix kept, and the rule carries on over the rest of the text |
| CountyName.RemoveStateCensus | src/acs_cli/__init__.py:6 | a Census `NAME` ending in `", Michigan"` loses exactly that suffix |
| CountyName.AnchoredCounty | src/acs_cli/__init__.py:7 | the `County` that `\s+County$` can match is the one at the very end, or the one just before a final newline; otherwise none |
| CountyName.StripCountySuffix | src/acs_cli/__init__.py:7 | a name without the anchored suffix is unchanged; a name with it loses the word and at least one whitespace character |
| CountyName.StripCountySuffixShape | src/acs_cli/__init__.py:7 | the removal deletes exactly the maximal whitespace run before the anchored `County` together with the word, and keeps any final newline |
| CountyName.StripCountyAtEnd | src/acs_cli/__init__.py:7 | a name, then whitespace, then `County` becomes the bare name |
| CountyName.StripCountyBeforeNewline | src/acs_cli/__init__.py:7 | the suffix is also removed before a final newline, and the newline stays |
| CountyName.NoCountySuffix | src/acs_cli/__init__.py:7 | a name ending in neither `y` nor a newline is left alone by the suffix rule |
| CountyName.CountyElsewhereKept | src/acs_cli/__init__.py:7 | every occurrence of `County` other than the anchored one survives at the same position |
| CountyName.CountyKeptAt | src/acs_cli/__init__.py:7 | a single non-anchored `County` survives the suffix rule |
| CountyName.CleanCountyOnce | src/acs_cli/__init__.py:7 | `"X County County"` loses only the last `County`: the suffix is removed once |
| CountyName.SpellSaintFrom | src/acs_cli/__init__.py:8 | with no word-initial `St.` followed by whitespace at or after the position, the text is copied unchanged |
| CountyName.SpellSaintLeading | src/acs_cli/__init__.py:8 | `St.` plus any whitespace run at the start becomes `Saint ` followed by the rest |
| CountyName.SpellSaintNone | src/acs_cli/__init__.py:8 | a name with no `.` is unchanged by the `St.` rule |
| CountyName.SpellSaint | src/acs_cli/__init__.py:8 | a name with no word-initial `St.` followed by whitespace is unchanged; each match grows the name by at most two characters |
| CountyName.CleanCensusName | src/acs_cli/__init__.py:4-9 | `"Washtenaw County, Michigan"` and every name of that shape becomes the bare county name |
| CountyName.CleanCountyName | src/acs_cli/__init__.py:4-9 | `"Some County"` and every name of that shape becomes `"Some"` |
| CountyName.CleanBareName | src/acs_cli/__init__.py:4-9 | a bare name such as `"Washtenaw"` comes back unchanged |
| CountyName.CleanCensusSaintName | src/acs_cli/__init__.py:4-9 | `"St. Clair County, Michigan"` and every name of that shape becomes `"Saint Clair"` |
| CountyName.CleanBareSaintName | src/acs_cli/__init__.py:4-9 | `"St. Joseph"` and every name of that shape becomes `"Saint Joseph"` |
| CountyName.CleanCountyBeforeNewline | src/acs_cli/__init__.py:4-9 | `"X County\n"` becomes `"X\n"`, because `$` matches before a final newline |
| CountyName.CleanUnchanged | src/acs_cli/__init__.py:4-9 | a name with no `", Michigan"`, no anchored suffix and no word-initial `St.` plus whitespace is returned unchanged |
| CountyName.Clean | src/acs_cli/__init__.py:4-9 | the result is at most two characters longer than the input for each `St.` in it |
| CountyName.CleanNotLonger | src/acs_cli/__init__.py:6-7 | without `St.` the result is never longer than the input |
| Numbers.NegativeZeroText | src/acs_cli/census_api/client.py:126 | a `-` before an unsigned text that `float()` reads as zero gives a negative zero |
| Numbers.ParseNumber | src/acs_cli/cms_api/client.py:133-137 | the part of `float()` modelled: a number is read only from non-empty text, and its sign is that of the leading character |
| Numbers.ParseInt | src/acs_cli/hrsa_api/client.py:180-183 | text that `int()` reads as an integer is also read by `float()` as that same number |
| Numbers.IntToString | src/acs_cli/hrsa_api/client.py:190 | `str()` of an integer is the canonical decimal digits of its magnitude (no leading zero unless it is 0), after a `-` when negative, and `int()` reads it back as the integer |
| Numbers.IntToStringIsNumber | src/acs_cli/census_api/client.py:127-133 | `str()` of an integer is read by `float()` as that integer |
| Numbers.NatToStringOfDigits | src/acs_cli/census_api/client.py:133 | canonical digit text survives `str(int(s))` unchanged |
| Numbers.Truncate | src/acs_cli/hrsa_api/client.py:181 | `int()` of a float rounds toward zero: the result is within 1 of the input, on the zero side |
| Numbers.TruncateWhole | src/acs_cli/census_api/client.py:133 | on a whole number `int()` loses nothing, so `num == int(num)` holds |
| Numbers.MaxOf | src/acs_cli/hrsa_api/client.py:187 | `max(scores)` is one of the scores and no score exceeds it |
| Numbers.MeanBetween | src/acs_cli/cms_api/client.py:141 | the mean of a non-empty list lies between its least and its greatest element |
| Numbers.MeanText | src/acs_cli/cms_api/client.py:141 | an empty list gives `""`; otherwise the cell is the one-decimal rendering of a value between the least and the greatest element |
| Census.FormatValue | src/acs_cli/census_api/client.py:123-133 | suppressed values give `""`; text that is not a number comes back unchanged; `decimal` gives the `.1f` rendering, which is `"-0.0"` for a text that reads as a negative zero; other formats give whole numbers without a fraction that parse back to the same value, and `str(float)` otherwise; the number is the exact decimal value of the text, which is what `float()` reads whenever a double holds that value |
| Census.FormatWhole | src/acs_cli/census_api/client.py:131-133 | a value whose exact decimal value is the integer n renders as the decimal text of n for non-decimal formats; this is the program's output when a double holds n, as every integer up to 2^53 in magnitude is held |
| Census.SignedZero | src/acs_cli/census_api/client.py:126-133 | a text that `float()` reads as a negative zero renders as `"-0.0"` under `decimal` and as `"0"` under every other kind |
| Census.FormatCanonical | src/acs_cli/census_api/client.py:131-133 | a canonical integer text `s`, and `s + ".0"`, both render as `s` when read exactly, which agrees with the program for every `s` up to 2^53 |
| Census.FormatWholeExamples | src/acs_cli/census_api/client.py:131-133 | `"45678.0"` renders as `"45678"`, and `"12345"` as `"12345"` under `number` and `dollar` |
| Census.FormatSuppressedExamples | src/acs_cli/census_api/client.py:123-125 | every member of `SUPPRESSED`, and a missing value, renders as `""` under any format |
| Census.ResolveVariables | src/acs_cli/census_api/client.py:136-151 | non-empty raw codes give `Variable(code, code, "number")` in input order; otherwise it fails exactly when `all` is absent and a topic is unknown, naming the first unknown one |
| Census.ResolveVariablesAll | src/acs_cli/census_api/client.py:142-144 | `all` yields every topic's variables: as many as all topics together |
| Census.ResolveVariablesSingle | src/acs_cli/census_api/client.py:146-151 | one known topic yields exactly its variable list |
| Census.Chunks | src/acs_cli/census_api/client.py:98 | every chunk is non-empty and holds at most 49 codes |
| Census.ChunksSlices | src/acs_cli/census_api/client.py:98 | there are ceil(n/49) chunks, and chunk i is the slice `codes[49*i : 49*i+49]` |
| Census.ChunksFlatten | src/acs_cli/census_api/client.py:98 | the chunks concatenated in order give back the code list |
| Census.BatchRows | src/acs_cli/census_api/client.py:95-101 | no codes give no rows, and up to 49 codes take one call whose rows are the answer |
| Census.BatchRowsFrom | src/acs_cli/census_api/client.py:98-101 | a row is among the batch rows exactly when the call for some chunk returned it |
| Census.AcsMerged | src/acs_cli/census_api/client.py:99-107 | the merge dict is well formed, has at most one entry per row, and has an entry exactly for each `state+county` key some row carries |
| Census.FetchAcs | src/acs_cli/census_api/client.py:92-108 | at most 49 codes take one batch call; larger lists fail exactly when some batch row lacks `state` or `county` |
| Census.FetchAcsMerge | src/acs_cli/census_api/client.py:99-108 | the merged output has one row per distinct `state+county` key among the batch rows; each row is the union of that key's rows in order, where a later chunk wins a clash |
| Census.Tag | src/acs_cli/census_api/client.py:114-116 | each row gets `year` set to the decimal text of its year, and nothing else changes |
| Census.TagYears | src/acs_cli/census_api/client.py:114-116 | every tagged row carries one of the requested years |
| Census.FetchMultiYear | src/acs_cli/census_api/client.py:111-118 | succeeds exactly when every year's fetch succeeds; every row carries one of the requested years |
| Census.FetchMultiYearConcat | src/acs_cli/census_api/client.py:111-118 | fetching years `a + b` gives the rows for `a` followed by the rows for `b`; the first failure wins |
| Census.FetchOneYear | src/acs_cli/census_api/client.py:111-118 | one year gives that year's rows, tagged with it |
| Census.NameYearTotal | src/acs_cli/census_api/client.py:183 | the `(NAME, year)` order is a total preorder |
| Census.Ordered | src/acs_cli/census_api/client.py:164-183 | the kept rows are a permutation of the filtered rows; without a sort column they ascend by `(NAME, year)`, with one they descend by its key; an error only comes from a requested sort |
| Census.OrderedStable | src/acs_cli/census_api/client.py:182-183 | the default sort is stable: rows with equal `(NAME, year)` keep their input order |
| Census.CsvHeader | src/acs_cli/census_api/client.py:186-191 | the header has one cell per variable, plus `County`, plus `Year` when years are shown |
| Census.Formatted | src/acs_cli/census_api/client.py:201-202 | cell j is `format_value` of the row's value for variable j |
| Census.CsvLine | src/acs_cli/census_api/client.py:197-203 | a data row has the same width as the header; it starts with the year when shown, then the cleaned county name |
| Census.CsvLines | src/acs_cli/census_api/client.py:196-204 | one data row per kept row, in order |
| Census.WriteCsv | src/acs_cli/census_api/client.py:154-206 | the count is the number of rows the filter keeps; with none, nothing is written; otherwise there is the header (if asked) and one line per row, every line of the header's width |
| Census.WriteCsvOrder | src/acs_cli/census_api/client.py:172-205 | the data lines are the lines of a permutation of the kept rows that ascends by `(NAME, year)` or descends by the sort key |
| Table.Get | src/acs_cli/cms_api/client.py:189 | `row.get(field, "")`: a missing field reads as empty, a string field as itself |
| Table.FilterRows | src/acs_cli/census_api/client.py:165-167 | every kept row passes the filter, and there are at most as many as before |
| Table.FilterRowsSpec | src/acs_cli/census_api/client.py:165-167 | a row is kept exactly when its field contains the filter, case-insensitively, and as often as it occurs; an empty filter keeps everything |
| Table.FilterIgnoresCase | src/acs_cli/cli.py:326-328 | upper-casing the filter does not change which rows are kept |
| Table.FirstHeading | src/acs_cli/census_api/client.py:174-179 | finds the first column whose label equals the sort name case-insensitively, or reports none |
| Table.SortColumn | src/acs_cli/places_api/client.py:185-192 | the sort id is the first case-insensitively matching label's id, and otherwise the literal sort name |
| Table.SortKey | src/acs_cli/census_api/client.py:181 | the key fails only on a present string that does not parse as a number, and then names that text |
| Table.SortKeyIntText | src/acs_cli/cms_api/client.py:179 | a Python int cell and its decimal text sort alike |
| Table.DescTotal | src/acs_cli/places_api/client.py:193 | the descending order on a column is a total preorder |
| Table.FirstBadKey | src/acs_cli/places_api/client.py:193 | finds the first row whose sort key fails, or reports none |
| Table.SortedKeys | src/acs_cli/places_api/client.py:193 | when every key parses, the sorted rows descend by key |
| Table.SortDesc | src/acs_cli/places_api/client.py:193 | fails exactly when some key fails, naming the first; otherwise the result is a permutation of the rows, descending by key |
| Table.SortDescStable | src/acs_cli/places_api/client.py:193 | rows with equal keys keep their relative order |
| Table.Headings | src/acs_cli/cli.py:341 | the column labels, in order |
| Table.Header | src/acs_cli/cms_api/client.py:178-180 | `["County"]` followed by every column label, in order |
| Table.Line | src/acs_cli/cms_api/client.py:182-186 | the key field, then each column's value or `""` |
| Table.Lines | src/acs_cli/cms_api/client.py:182-187 | one line per row, in order |
| Table.Emit | src/acs_cli/cms_api/client.py:178-193 | the header is written when asked, and followed by exactly the given data lines; the count is their number |
| Table.WriteTable | src/acs_cli/cms_api/client.py:158-193 | the count is the number of rows the filter keeps; with none, nothing is written, not even the header; otherwise there is the header (if asked) and one line per row, every line of the header's width |
| Table.WriteTableRows | src/acs_cli/hrsa_api/client.py:227-254 | the data lines are a permutation of the kept rows' lines, and exactly those lines in order when no sort is requested |
| Table.Merged | src/acs_cli/cli.py:311-317 | the merge dict is well formed: no key twice |
| Table.MergedRowKey | src/acs_cli/cli.py:313-317 | a merged row carries its own county |
| Table.MergedEntries | src/acs_cli/cli.py:311-317 | the dict has an entry exactly for each county some row names; the entry is `{"county": k}` updated by that county's rows in order |
| Table.MergeBy | src/acs_cli/cli.py:311-319 | the output is strictly ascending by the field, and names exactly the keys the input rows name |
| Table.MergedRowConcat | src/acs_cli/cli.py:311-317 | merging sources `a` then `b` is the merge of `a` updated by `b`'s rows for the county, so later sources win |
| Table.MergeBySpec | src/acs_cli/cli.py:311-319 | the output has unique counties in ascending order, exactly those some row names, each row its merged entry |
| Table.MergeByKeys | src/acs_cli/cli.py:311-319 | the merged output names exactly the counties the input rows name, once each, in ascending order, each row its merged entry |
| Table.SortedItemsSpec | src/acs_cli/cms_api/client.py:143 | sorting a dict's values by county gives each entry once, in strictly ascending county order |
| Table.SortedItems | src/acs_cli/cms_api/client.py:143 | the sorted values are a permutation of the dict's values, one per key, ordered by the field; strictly ascending when each value carries its own key |
| Table.KeysOfMembers | src/acs_cli/hrsa_api/client.py:209-213 | when the rows are exactly those some condition admits, a key is among their keys exactly when an admitted row carries it |
| Dicts.Put | src/acs_cli/cms_api/client.py:107-116 | a new key goes at the end of the insertion order; an existing key keeps its place |
| Dicts.Items | src/acs_cli/cms_api/client.py:139-141 | `by_county.values()` yields one item per key, in insertion order |
| Dicts.GroupFold | src/acs_cli/cms_api/client.py:99-116 | the group-by dict is well formed, has at most one entry per record, and has an entry exactly for the keys some record has |
| Dicts.GroupFoldSpec | src/acs_cli/cms_api/client.py:99-137 | the group-by loop has an entry exactly for the keys some record has, and each entry is the fold of that key's records in order |
| Dicts.GroupFoldNone | src/acs_cli/hrsa_api/client.py:156-158 | records that are all skipped leave the dict empty |
| Dicts.GroupSizesSum | src/acs_cli/cms_api/client.py:119 | the group sizes add up to the number of records not skipped |
| Sorting.SortBy | src/acs_cli/census_api/client.py:181-183 | the sorted list is a permutation of its input |
| Sorting.SortBySorted | src/acs_cli/census_api/client.py:181-183 | under a total preorder the result is sorted |
| Sorting.SortByStable | src/acs_cli/census_api/client.py:181-183 | Python's sort is stable: equal elements keep their order |
| Sorting.SortByKeyStrict | src/acs_cli/cms_api/client.py:143 | sorting values with distinct keys by key gives strictly ascending keys |
| Sorting.StrictlyAscendingUnique | src/acs_cli/cli.py:319 | two strictly ascending lists with the same elements are equal |
| Catalog.Lookup | src/acs_cli/census_api/client.py:147-150 | a group is found exactly when its name is in the table |
| Catalog.LookupAt | src/acs_cli/places_api/client.py:27-71 | in a table without duplicate names, each group is found under its own name |
| Catalog.ResolveEach | src/acs_cli/census_api/client.py:146-150 | fails exactly when some name is unknown, and then names the first unknown one |
| Catalog.Resolve | src/acs_cli/census_api/client.py:143-151 | a request naming `all` never fails; otherwise it succeeds exactly when every name is known, and a failure names the first unknown one |
| Catalog.ResolveEachFlatten | src/acs_cli/census_api/client.py:146-150 | the result is the named groups' members, concatenated in request order |
| Catalog.ResolveEachConcat | src/acs_cli/census_api/client.py:146-150 | resolving `a + b` is resolving `a` then `b`; the first failure wins |
| Catalog.ResolveAll | src/acs_cli/places_api/client.py:88-89 | `all` anywhere selects every member of the table, group by group, as many as all groups together |
| Catalog.ResolveSingle | src/acs_cli/places_api/client.py:91-96 | one known group selects exactly its list |
| Catalog.ResolveMember | src/acs_cli/places_api/client.py:91-96 | a member is selected exactly when it belongs to a requested group |
| Catalog.WriteMeasures | src/acs_cli/places_api/client.py:170-205 | the writer shared with `write_access_csv` and `write_shortage_csv`: count equals the filtered rows; nothing is written when none remain; the header is `County` then the labels in order; every line has one cell per measure plus the county |
| Cms.ResolveAccessMeasures | src/acs_cli/cms_api/client.py:47-58 | `all` returns every measure; otherwise it succeeds exactly when every name is `hospital_access`, and an error names the first unknown group |
| Cms.AccessAll | src/acs_cli/cms_api/client.py:50-51 | `all` resolves to the single group's six measures |
| Cms.ResolveAccessSingle | src/acs_cli/cms_api/client.py:23-32 | `hospital_access` resolves to its six measures |
| Cms.CountyOf | src/acs_cli/cms_api/client.py:102-105 | a record is skipped exactly when its `countyparish` is blank or whitespace only; otherwise its key is the stripped, title-cased name |
| Cms.Tallies | src/acs_cli/cms_api/client.py:99-137 | the tally dict is well formed, has at most one entry per record, and has an entry exactly for each county some kept record names |
| Cms.HospitalRow | src/acs_cli/cms_api/client.py:107-119 | a row carries its county, its hospital count and an integer cell for every count column of the hospital measures |
| Cms.Aggregate | src/acs_cli/cms_api/client.py:97-143 | at most one row per record, strictly ascending by county, and exactly one row for each county some kept record names |
| Cms.TallyFold | src/acs_cli/cms_api/client.py:118-137 | the loop over a county's records computes the reference tally: the count, the per-kind counts, and the ratings that parse, in order |
| Cms.TalliesSpec | src/acs_cli/cms_api/client.py:99-137 | a county has an entry exactly when some kept record names it, and the entry is the reference tally of its records |
| Cms.AggregateSpec | src/acs_cli/cms_api/client.py:97-143 | one row per county some record names, in strictly ascending county order, each built from that county's reference tally |
| Cms.FinishKeyed | src/acs_cli/cms_api/client.py:139-143 | each finished row carries its dict key as `county` |
| Cms.HospitalRowFields | src/acs_cli/cms_api/client.py:107-119 | a row carries its county and its hospital count |
| Cms.RowBounds | src/acs_cli/cms_api/client.py:121-131 | acute care plus critical access (exclusive by the `elif`), emergency services, and birthing friendly are each at most the hospital count |
| Cms.NoRatings | src/acs_cli/cms_api/client.py:133-137 | when none of a county's records has a rating that parses, its rating list is empty |
| Cms.NoRatingBlank | src/acs_cli/cms_api/client.py:139-141 | `avg_hospital_rating` is `""` when no rating parsed |
| Cms.CountsSum | src/acs_cli/cms_api/client.py:119 | the hospital counts over all rows add up to the number of kept records |
| Cms.ItemCounts | src/acs_cli/cms_api/client.py:119 | each county's hospital count is the number of its kept records |
| Cms.CountsOrderFree | src/acs_cli/cms_api/client.py:118-131 | the integer counts do not depend on the order of the input records |
| Hrsa.FipsExamples | src/acs_cli/hrsa_api/client.py:27-56 | the FIPS table maps `26163` to Wayne and `26125` to Oakland |
| Hrsa.ResolveHpsaMeasures | src/acs_cli/hrsa_api/client.py:97-108 | `all` returns all 8 measures; otherwise it succeeds exactly when every name is one of the two groups, and an error names the first unknown group |
| Hrsa.HpsaAll | src/acs_cli/hrsa_api/client.py:100-101 | `all` selects both groups' measures, primary care first |
| Hrsa.ResolveHpsaSingle | src/acs_cli/hrsa_api/client.py:69-82 | a single group selects exactly its four measures |
| Hrsa.StrOf | src/acs_cli/hrsa_api/client.py:155 | `str()` of a JSON scalar: a string is itself, an integer is text that `int()` reads back, a float its `str()`, `null` is `None` |
| Hrsa.CountyIn | src/acs_cli/hrsa_api/client.py:155-158 | a feature has a county exactly when its FIPS text maps to a non-empty name, and that name is a value of the table |
| Hrsa.ScoreList | src/acs_cli/hrsa_api/client.py:171-176 | a missing or null score contributes nothing, and any score contributes at most one value |
| Hrsa.PopOf | src/acs_cli/hrsa_api/client.py:178-183 | a missing or null population adds 0 |
| Hrsa.ShortageFold | src/acs_cli/hrsa_api/client.py:166-183 | the loop over a county's features computes the designation count, the scores that parse, and the population sum |
| Hrsa.ShortagesSpec | src/acs_cli/hrsa_api/client.py:152-183 | a county has an entry exactly when some feature's FIPS maps to it, and the entry is the reference reading of those features |
| Hrsa.Shortages | src/acs_cli/hrsa_api/client.py:151-183 | the dict is well formed, has at most one entry per feature, and has an entry exactly for each county some feature's FIPS maps to |
| Hrsa.MaxText | src/acs_cli/hrsa_api/client.py:187 | no score gives `""`; otherwise the cell renders one of the scores that no other score exceeds |
| Hrsa.PopText | src/acs_cli/hrsa_api/client.py:190 | the cell is `""` exactly when the sum is 0, and otherwise the canonical decimal text of the sum (with `-` when negative), which `int()` reads back |
| Hrsa.Aggregate | src/acs_cli/hrsa_api/client.py:149-192 | at most one row per feature, strictly ascending by county, and exactly one row for each county some feature maps to |
| Hrsa.ShortageRowFields | src/acs_cli/hrsa_api/client.py:185-190 | a row carries its county and its designation count |
| Hrsa.FinishKeyed | src/acs_cli/hrsa_api/client.py:185-192 | each finished row carries its dict key as `county` |
| Hrsa.AggregateSpec | src/acs_cli/hrsa_api/client.py:149-192 | one row per county some feature maps to, in strictly ascending county order, each built from that county's features |
| Hrsa.UnknownFipsDropped | src/acs_cli/hrsa_api/client.py:154-158 | a feature whose FIPS is not in the table changes nothing |
| Hrsa.NoKnownFipsEmpty | src/acs_cli/hrsa_api/client.py:154-158 | features with only unknown FIPS give no rows |
| Hrsa.PopTextSpec | src/acs_cli/hrsa_api/client.py:190 | the population cell is `""` exactly when the sum is 0, and otherwise the canonical decimal text of the sum, which `int()` reads back |
| Hrsa.ScoreCells | src/acs_cli/hrsa_api/client.py:187-188 | with no score, max and average are `""`; otherwise the max cell renders a parsed score that is at least every other |
| Hrsa.ShortageOrderFree | src/acs_cli/hrsa_api/client.py:166-183 | the count and the population sum do not depend on feature order |
| Hrsa.CountsSum | src/acs_cli/hrsa_api/client.py:169 | the designation counts add up to the number of features with a known county |
| Hrsa.ItemCounts | src/acs_cli/hrsa_api/client.py:169 | each county's `{prefix}_hpsa_count` is the number of features mapping to it |
| Hrsa.LayerRowsFetch | src/acs_cli/hrsa_api/client.py:202-206 | only the layers that are requested are fetched |
| Hrsa.LayerRowsNone | src/acs_cli/hrsa_api/client.py:203-205 | when no layer is requested there are no rows |
| Hrsa.LayerRows | src/acs_cli/hrsa_api/client.py:203-209 | a row is among the layer rows exactly when it is in the aggregate of some requested layer |
| Hrsa.LayerPart | src/acs_cli/hrsa_api/client.py:204-209 | one layer contributes exactly its aggregate's rows when requested, and nothing otherwise |
| Hrsa.FetchLayers | src/acs_cli/hrsa_api/client.py:201-213 | the output is strictly ascending by county and names exactly the counties of the requested layers' rows |
| Hrsa.FetchShortage | src/acs_cli/hrsa_api/client.py:198-213 | the output is strictly ascending by county and names exactly the counties of the requested layers; with no measure it is empty |
| Hrsa.FetchLayersSpec | src/acs_cli/hrsa_api/client.py:198-213 | the output has unique counties in ascending order, exactly those in the requested layers' rows; each row is the union of that county's layer rows, where a later layer wins a clash |
| Hrsa.PrimaryCareOnly | src/acs_cli/hrsa_api/client.py:198-213 | requesting the primary-care measures fetches only that layer and returns its aggregate |
| Hrsa.FirstLayerOnly | src/acs_cli/hrsa_api/client.py:202-211 | a requested first layer followed by an unrequested one gives the first layer's aggregate |
| Hrsa.PrimaryCareLayers | src/acs_cli/hrsa_api/client.py:15-19 | the primary-care measures select the primary-care layer and not the mental-health one |
| Hrsa.WayneExample | tests/test_access.py:270-305 | the example's Wayne designations give count 2, scores 20 and 10 (max 20, mean 15), and the population cell `"20000"` |
| Hrsa.WayneGroup | tests/test_access.py:270-297 | of the example's three features, the first two map to Wayne |
| Places.PlacesNames | src/acs_cli/places_api/client.py:27-71 | the PLACES table has its six group names in order, without duplicates |
| Places.PlacesSize | src/acs_cli/places_api/client.py:27-71 | the PLACES table holds 31 measures in all |
| Places.ResolveMeasures | src/acs_cli/places_api/client.py:86-97 | `all` returns all 31 measures; otherwise it succeeds exactly when every name is a group, and an error names the first unknown one |
| Places.ResolveMeasuresSingle | src/acs_cli/places_api/client.py:91-96 | a single group selects exactly its list |
| Places.Cell | src/acs_cli/places_api/client.py:159-162 | a raw value that does not parse as a number is stored unchanged; a negative zero is written `"-0.0"`, keeping its sign through the division and rounding; any other number is the 4-place rounding of a hundredth of it |
| Places.SignedZeroCell | src/acs_cli/places_api/client.py:159-160 | `"-0"` is written as `"-0.0"`, while `"0"` is written as the rendering of a positive zero |
| Places.CountyKey | src/acs_cli/places_api/client.py:154 | every record has a county, at most two characters longer per `St.` than its `locationname`; a missing name gives `""` |
| Places.Pivoted | src/acs_cli/places_api/client.py:152-162 | the pivot dict is well formed: no county twice |
| Places.PivotedSpec | src/acs_cli/places_api/client.py:152-162 | a county has an entry exactly when some record's cleaned `locationname` is that county, and the entry is that county's row |
| Places.RowKeys | src/acs_cli/places_api/client.py:155-162 | a county's row has a key exactly for `locationname` and for each measure one of its records carries |
| Places.RowLast | src/acs_cli/places_api/client.py:159-162 | for a duplicated measure the last record wins |
| Places.PivotMeasures | src/acs_cli/places_api/client.py:155-162 | a county's row holds a measure exactly when some record of that county carries it; a measure none carries is absent, not stored as `""` |
| Places.PivotCell | src/acs_cli/places_api/client.py:157-162 | a measure's cell is the converted value of the county's last record for it |
| Places.PivotRowName | src/acs_cli/places_api/client.py:154-156 | each row's `locationname` is its cleaned county name |
| Places.PivotKeyed | src/acs_cli/places_api/client.py:154-164 | each row carries its dict key as `locationname` |
| Places.PivotRowsSpec | src/acs_cli/places_api/client.py:152-164 | one row per distinct cleaned `locationname`, in strictly ascending order, each that county's row |
| Places.PivotRows | src/acs_cli/places_api/client.py:152-164 | at most one row per record, ordered by `locationname`; strictly ascending when no measure id is `locationname` |
| Places.PivotKeyedWhen | src/acs_cli/places_api/client.py:154-164 | when no measure id is `locationname`, each row carries its dict key as `locationname` |
| Places.PivotSaint | src/acs_cli/places_api/client.py:154 | a record for `"St. Clair"` yields a row for `"Saint Clair"` |
| Access.AccessGroupNames | src/acs_cli/cli.py:48 | the CMS groups are `hospital_access`, and the HRSA groups are primary care then mental health |
| Access.NamesDisjoint | src/acs_cli/cli.py:297-298 | no group is both a CMS and an HRSA group, and `all` is neither |
| Access.PlanAccess | src/acs_cli/cli.py:278-298 | no groups is an error; `all` selects every CMS and every HRSA group; otherwise an error lists only unknown groups; a plan holds only known groups of each source |
| Access.PlanUnknown | src/acs_cli/cli.py:288-296 | without `all`, the request fails exactly when some group is unknown, and the error names exactly the unknown groups |
| Access.PlanPartition | src/acs_cli/cli.py:297-298 | the groups are split into a CMS list and an HRSA list, each a filter of the request in order; together they are a permutation of the request |
| Access.PlanResolves | src/acs_cli/cli.py:300-301 | a valid plan always resolves; each source's measures are non-empty exactly when its groups are |
| Access.PlanMeasures | src/acs_cli/cli.py:300-301 | when every CMS group and every HRSA group of the plan is known, both resolve, and a source has measures exactly when it has groups |
| Access.CmsResolvesWhen | src/acs_cli/cli.py:300 | a non-empty list of CMS groups resolves to at least one measure |
| Access.HrsaResolvesWhen | src/acs_cli/cli.py:301 | a non-empty list of HRSA groups resolves to at least one measure |
| Access.CmsRows | src/acs_cli/cli.py:304 | the CMS rows are strictly ascending by county; without measures there are none, otherwise exactly the counties some kept record names |
| Access.HrsaRows | src/acs_cli/cli.py:305 | the HRSA rows are strictly ascending by county; without measures there are none, otherwise exactly the counties of the requested layers |
| Access.AccessColumns | src/acs_cli/cli.py:320-323 | the columns are the CMS measures then the HRSA measures, each as `(id, label)` |
| Access.MergedAccess | src/acs_cli/cli.py:310-319 | the merged rows are strictly ascending by county and name exactly the counties of the CMS rows and of the HRSA rows |
| Access.AccessOutput | src/acs_cli/cli.py:326-347 | the count is the number of merged rows the filter keeps; with none, nothing is written; otherwise the header is `County`, then the CMS labels, then the HRSA labels, with one line per row |
| Access.AccessCommand | src/acs_cli/cli.py:271-347 | no groups fails with `NoAccessGroups`; a failed plan fails with the same error |
| Access.HrsaWins | src/acs_cli/cli.py:311-317 | for a shared county an HRSA value overrides the CMS value of the same field; any other field keeps the CMS value |
| Access.AccessSpec | src/acs_cli/cli.py:300-347 | a valid plan resolves, the command writes the merged rows with those measures, and it fails only on a requested sort |
| Access.MergedAccessSpec | src/acs_cli/cli.py:310-319 | the merged rows hold every county from either source exactly once, ascending; each row is the CMS rows updated by the HRSA rows for that county |
| Access.AccessAll | src/acs_cli/cli.py:285-287 | `all` plans every CMS and HRSA group, and resolves to the CMS measures and then both HRSA groups' measures |

## Left out

- HTTP fetching is out of scope: `_fetch_acs_batch`, `fetch_hospital_data`, `fetch_hpsa_data`, the paging loop of `fetch_places_data`, status codes and API errors. Each fetch is an oracle parameter that returns rows.
- API-key handling (`get_api_key`, `save_api_key`, dotenv) is environment and filesystem I/O.
- The command-line layer is out of scope: the typer commands, `csv.writer`, stdout and stderr messages, and the `query`, `info`, `login` and `*-topics` commands. Output is a list of string rows plus the count, and the `access` command's flow is modelled as a function.
- `--output` files are not modelled: writing to a file or to stdout is the same list of rows.
- Float rendering and float arithmetic are not modelled: `str(float)`, `round`, `.1f` and `/ 100` are an opaque `FloatText` parameter. Averages and maxima are computed over exact rationals before rendering.
- Census.FormatValue: reads a number as the exact decimal value of its text, where `float()` rounds it to the nearest double. An exact value has no negative zero, so the model reads that sign from the text with `Numbers.NegativeZero`: `"-0"` and `"-0.0"` render as `"-0.0"` under `decimal`, as the program prints them. With that, the two agree whenever a double holds the value exactly, for instance every integer up to 2^53 in magnitude. They differ beyond that: `"9007199254740993"` is `9007199254740993` here but `"9007199254740992"` in the program, and `"1.00000000000000001"` is not whole here but renders as `"1"` in the program.
- Census.FormatWhole: states the exact-decimal reading, so `IntToString(n)` is the program's output only when a double holds `n`, which includes every integer up to 2^53 in magnitude.
- Census.FormatCanonical: states the exact-decimal reading, so it matches the program only for canonical texts whose value a double holds, which includes every one up to `9007199254740992`.
- Places.Cell: reads the raw value exactly and hands the exact hundredth to the 4-place rendering, where the program divides the rounded double by 100. The two can differ where the double falls on the other side of a rounding boundary. A negative zero is written `"-0.0"` as in the program. A small negative value that rounds to `-0.0` reaches the rendering with its sign, so `FloatText` decides its text.
- Table.SortKey: the descending sort compares exact decimal values. Two texts that round to the same double compare equal in the program and keep their input order there, but are ordered by their exact values here.
- Only a subset of `float()` and `int()` literals is parsed: optional sign, digits, optional fraction. Surrounding whitespace, exponents, underscores, `inf` and `nan` are outside the model. A text outside the subset counts as not a number.
- Case mapping (`lower`, `upper`, `title`) is ASCII only, and `\b` uses ASCII word characters. `\s` is the full set of Unicode whitespace characters Python recognises.
- A JSON `null` in a Census value column is modelled as a missing key. For a value column both give the same `format_value` result and the same sort key.
- A JSON `null` in the Census `NAME` column is also read as a missing key, so the model reads the name as `""`. The program instead raises: `AttributeError` in the county filter (`census_api/client.py:167`), `TypeError` when the default sort compares `None` with a string (`census_api/client.py:183`), and `AttributeError` in `clean_county_name` (`census_api/client.py:201`, `__init__.py:6`). The model has no error for these.
- Cms.CountyOf, Places.CountyKey: records are dicts of texts, so a JSON `null` in a field is read as a missing key, that is as `""`. In the program a `null` raises in several CMS fields and one PLACES field:
  - `countyparish`: `.strip()` raises `AttributeError` (`cms_api/client.py:102`).
  - `hospital_type`: `"Acute Care" in h_type` raises `TypeError` (`cms_api/client.py:121-124`).
  - `emergency_services`: `.lower()` raises `AttributeError` (`cms_api/client.py:127`).
  - `meets_criteria_for_birthing_friendly_designation`: `.upper()` raises `AttributeError` (`cms_api/client.py:130`).
  - `locationname`: `clean_county_name` raises `AttributeError` at `name.replace` (`places_api/client.py:154`, `__init__.py:6`).

  The model has no error for these. A `null` `hospital_overall_rating` is skipped by the `except` at `cms_api/client.py:136`, exactly as `""` is. A `null` PLACES value column (`places_api/client.py:158`) is stored as `None` by the `except` branch. It is written as an empty cell and sorts as 0 (`places_api/client.py:193`, `:202`), so the output is the same as for the `""` the model reads.
- The `TOPICS` table lives in `acs_cli.topics`, which is not part of this model. Census resolution takes the table as a parameter.
- HRSA features are modelled by their `attributes` dict. A feature without `attributes` is the empty dict, as `feat.get("attributes", {})` gives. JSON booleans are not among the modelled values.
- Hrsa.MaxText: a score is a real, which has no negative zero. A score `"-0"` or `-0.0` is `-0.0` in the program, and `str(max(scores))` prints `"-0.0"` when that zero is the first greatest score; the model renders the maximum as the positive zero. `Numbers.MeanText` has no such case for the HRSA or CMS means: `sum()` starts from the integer 0, and `0 + -0.0` is `0.0`, so a zero mean is a positive zero.
- Hrsa.PopOf: a JSON population of `Infinity` decodes to a float infinity, and `int(pop)` (`hrsa_api/client.py:181`) then raises `OverflowError`. A `JReal` holds only finite values, so this case is not modelled.
- Hrsa.Aggregate takes the FIPS table as a parameter. The constant `MI_FIPS_TO_COUNTY` is modelled in full, and Hrsa.FipsExamples states its entries for the test counties.
- Hrsa.WayneExample states the example's reference tally and numbers, not the rendered `"20.0"` and `"15.0"`, which depend on float rendering.
- Places.PivotRowsSpec, Places.PivotRowName, Places.PivotKeyed, Places.PivotSaint: each requires that no record's `measureid` is `locationname`. A record with that id would overwrite the county name the rows are sorted by.
- The `measures` argument of `_pivot_rows`, and of `fetch_access_data`, is unused in the program, so the model drops it.
- The unknown-group error in `access_cmd` also prints the sorted list of available groups. That is message text, and the model keeps only the unknown names.
- Errors during the CMS or HRSA fetch (`CMSAPIError`, `HRSAAPIError`) are not modelled, because the fetches are oracles.
