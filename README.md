# eiopaPy client core, modelled in Dafny

eiopaPy is a small Python client for a web service that publishes EIOPA
risk-free interest rate curves. This project models the logic of
`eiopaPy/client.py` that can be reasoned about without a network:

- **Request paths.**
  - The options path appends one segment to the base URL `https://mehdiechchelh.com/api`.
  - The curve path appends the curve type and the region as segments. It then adds a query string built from the year and month filters.
- **Argument handling in `get_rfr`.**
  - An empty region is refused before any request is sent.
  - Each of the year and month arguments may be None, one integer, or a list or tuple of integers. Each becomes a comma-joined decimal string; an empty one leaves its filter out of the query.
  - The two fixed-type wrappers `get_rfr_with_va` and `get_rfr_no_va` are included.
- **Parsing the service's answer (`_parse_rfr`).**
  - A list of curve records becomes a rate table and a metadata table.
  - The rate table has one column per curve id. The placeholder `"unknown"` stands in for a missing id. When ids repeat, the last record wins and the key keeps its first position.
  - The metadata table has one row per record, which is the record minus its `"data"` field. Its columns are the union of the fields, with a missing marker where a record lacks a field.

Files:

- `wrappers.dfy`: `Option` and `Result`.
- `text.dfy`: Python's `str()` of an integer, `",".join` / `"&".join` and `str.split`, with their round trips.
- `paths.dfy`:
  - the constants `API_BASE_URL`, `WITH_VA` and `NO_VA`;
  - `_path_get_options`, whose inverse is `OptionsField`;
  - `_path_get_rfr`, an imperative method proved against the case-by-case specification `QuerySuffix`;
  - the query reader `ParseQuery`, which inverts `QuerySuffix`.
- `parser.dfy`:
  - records are maps from field names to an atom or a list of rate values;
  - `_parse_rfr` is the method `ParseRfr`, with the source's two loops;
  - `ParseRfr` is proved equal to the specification function `Parse`, and the properties of the two tables are proved about `Parse`;
  - `Dedup`, "distinct keys in order of first appearance", is a reference definition the rate table's columns are proved equal to.
- `api.dfy`:
  - the filter normalisation `FilterString` and its decoder `DecodeFilter`;
  - `get_options`, `get_rfr` and its two wrappers, as methods.

The HTTP exchange (`_api_get`) is a parameter here. Each public operation receives the transport's reply (`Payload`, `Rejected(status)` or `Unreachable`). Beside its result, it returns the URL it handed to the transport, or None when it sent nothing.

Two behaviours of `_parse_rfr` are easy to miss:

- **Curves of unequal length.** `pandas.DataFrame` refuses columns of unequal length, so the model requires equal lengths (`Rectangular`) and invents no padding.
- **Duplicate ids.** Ids are keys of a Python `dict`, so the last record wins and the key keeps its first position (`LastRecordWins`, `ColumnsFirstAppearance`).

## Model

| member | source | states |
|---|---|---|
| Paths.PathGetOptions | eiopaPy/client.py:31-37 | the options path is the base URL, "/", then the field, and `OptionsField` reads the field back from it; the path holds a "?" only when the field does |
| Paths.PathGetRfr | eiopaPy/client.py:40-67 | the curve path is base URL "/" type "/" region followed by `QuerySuffix(year, month)`: nothing, "?year=Y", "?month=M" or "?year=Y&month=M" |
| Paths.QueryOfParams | eiopaPy/client.py:60-66 | the "&"-join of the list of non-empty `year=`/`month=` parameters, behind a "?", and nothing when the list is empty, is exactly the case-by-case query string |
| Paths.QueryMarkIff | eiopaPy/client.py:59-66 | a query string is present iff some filter is non-empty, and it starts with "?"; for filters without "?" and "&", the query string holds "?" iff a filter is present and "&" iff both are (type and region are not escaped, so the rest of the path may hold either character) |
| Paths.ParseQueryRoundTrip | eiopaPy/client.py:59-66 | for filters without "&", reading the query string back gives exactly the two filters, year first, an empty filter read back as empty |
| Text.IntToDecimal | eiopaPy/client.py:216-218 | `str()` of an integer is non-empty, starts with "-" exactly for a negative number, is digits otherwise, and is canonical: 0 is exactly "0" and no other value has a leading zero |
| Text.IntToDecimalRoundTrip | eiopaPy/client.py:216-218 | reading the decimal string of any integer gives the integer back |
| Text.DecimalAlphabet | eiopaPy/client.py:216-225 | a decimal string holds no character other than digits and "-", so never ",", "&" or "?" |
| Text.Join | eiopaPy/client.py:216 | a join is empty exactly for no parts or one empty part, and every non-separator character comes from a part |
| Text.SplitJoin | eiopaPy/client.py:216 | splitting the join of parts that hold no separator gives the parts back |
| Text.JoinSplit | eiopaPy/client.py:216 | the second direction of the inverse pair `Join`/`Split` (the source only joins; `Split` is the model's reader): joining the pieces of a split gives the string back |
| Api.FilterString | eiopaPy/client.py:212-225 | the normalised filter is empty (so left out of the query) iff the argument is None or an empty list, and it never holds "&" or "?"; `FilterRoundTrip` proves it carries exactly the requested values |
| Api.FilterRoundTrip | eiopaPy/client.py:212-225 | the filter string decodes to exactly the requested values in order: none for None, the value for a scalar, the elements for a list or tuple |
| Api.ParseAllDecimals | eiopaPy/client.py:216 | reading the decimal strings of a list of integers gives the list back |
| Api.RfrUrlCarriesFilters | eiopaPy/client.py:212-227 | the requested URL is base/type/region plus the query; the query is absent iff both filters ask for nothing, and it reads back as exactly the requested years and months |
| Api.DocumentedRequest | eiopaPy/client.py:204-227 | years [2017, 2018] and month 12 for "with_va" and "FR" request base + "/with_va/FR?year=2017,2018&month=12" |
| Api.GetOptions | eiopaPy/client.py:151-171 | one request to the options path of the field, which reads back as the field; the transport's reply is returned, and a rejection or unreachable service is an error |
| Api.GetRfr | eiopaPy/client.py:174-230 | an empty region fails with InvalidArgument and sends nothing; otherwise exactly one request, to the URL of the normalised filters, and the reply's parse (or the transport error) is the result |
| Api.GetRfrWithVa | eiopaPy/client.py:233-261 | behaves as GetRfr with the curve type "with_va" |
| Api.GetRfrNoVa | eiopaPy/client.py:264-292 | behaves as GetRfr with the curve type "no_va" |
| Parser.ParseRfr | eiopaPy/client.py:121-144 | the empty list gives two empty tables; otherwise the two loops compute exactly `Parse(raw)` (metadata rows, rate table, or the first record's error) |
| Parser.CurveId | eiopaPy/client.py:140 | a record's column key is its "id" field when present and "unknown" otherwise; `CurvesOutcome` says which keys are usable and `RowsMatchColumns` that the key is the metadata row's id |
| Parser.RateTable.Assign | eiopaPy/client.py:141 | after `d[key] = values` the key maps to exactly those values; `AssignInOrder` gives the rest of the dict semantics |
| Parser.AssignInOrder | eiopaPy/client.py:141 | assignment keeps every other key and its value, keeps existing keys in place, appends a new key at the end and does not move an existing one |
| Parser.CurvesOf | eiopaPy/client.py:138-141 | a built rate table never lists a key twice, and its keys with values are exactly its columns |
| Parser.CurvesOutcome | eiopaPy/client.py:139-141 | the rate table is built iff every record has "data" and a hashable id; otherwise the error names the first record that fails, and MissingData exactly when its "data" is absent |
| Parser.CurvesFailureSticks | eiopaPy/client.py:139-141 | once a prefix of the records fails, the whole list fails with the same error |
| Parser.ColumnsFirstAppearance | eiopaPy/client.py:138-141 | the columns are the ids (with "unknown" for a missing id) deduplicated in order of first appearance |
| Parser.DedupDistinct | eiopaPy/client.py:138-141 | deduplicated ids never repeat |
| Parser.DedupMember | eiopaPy/client.py:138-141 | deduplicating keeps every id and adds none |
| Parser.DedupOfDistinct | eiopaPy/client.py:138-141 | ids that are already distinct are left unchanged by deduplication |
| Parser.LastRecordWins | eiopaPy/client.py:141 | the column of a key holds the "data" of the last record carrying that key |
| Parser.DistinctIdsAlign | eiopaPy/client.py:138-142 | with distinct ids the columns are the ids in record order, one per record, each holding its record's "data" |
| Parser.MetaRow | eiopaPy/client.py:133 | a metadata row has exactly the record's fields other than "data", with the same values |
| Parser.FieldUnion | eiopaPy/client.py:135 | a field is a metadata column iff some row has it |
| Parser.MetadataShape | eiopaPy/client.py:131-135 | one metadata row per record in record order, each the record minus "data"; the columns are the union of the other fields; a cell is missing exactly where its record lacks the field |
| Parser.RowsMatchColumns | eiopaPy/client.py:131-142 | with distinct ids, rate column i and metadata row i describe the same curve: the column key is the row's id, or "unknown" when the row has none |
| Parser.TwoCurvesExample | tests/test_client.py:38-42 | two curves A and B give columns [A, B] holding their data, two metadata rows, the union of the fields, and the missing marker where a curve lacks a field |

## Left out

- `_api_get` (eiopaPy/client.py:74-86) is left out: the HTTP GET, its 30-second timeout, `raise_for_status` and the JSON decoding. It is I/O; the reply is a parameter, and a non-2xx status and an unreachable service become two error values.
- `EiopaRFR.__repr__` is left out. It formats float previews through pandas.
- The package's `__init__.py` only re-exports names and is not part of this model.
- Pandas is not modelled. Tables are plain sequences, maps and sets. The missing marker is the absence of a cell (`None` from `Cell`), not NaN.
- The metadata table's column order is not modelled. Pandas orders columns by first appearance; the model keeps the columns as a set.
- Rate values are an opaque element type `V`. Nothing computes with them, and floating point is not modelled.
- Scalar metadata values and ids are strings or integers. Booleans, floats, `null` and nested objects in a record are not modelled. A list-valued id is the one unhashable id the model covers.
- Parser.ParseRfr: requires every record's "data" to be a list and all lists to have one length, including records whose column a later duplicate overwrites. Pandas checks only the surviving columns, and it would broadcast a scalar "data" value; neither case is modelled.
- Api.GetRfr: the region is a string by its type, so the source's `isinstance(region, str)` check has no counterpart. Year and month arguments are limited to None, an int, or a list or tuple of ints; a string, a boolean, or another iterable passed as a filter is not modelled.
- Api.GetRfrWithVa: carries the same argument restrictions as Api.GetRfr.
- Api.GetRfrNoVa: carries the same argument restrictions as Api.GetRfr.
- Api.GetOptions: the decoded options list is taken as a list of scalars. The source returns whatever JSON the service sends, unchecked.
- The curve type passed to `get_rfr` is not validated by the source, and the model accepts any string there too.
