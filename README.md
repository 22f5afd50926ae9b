# Interview e-mail intake: extraction, date pre-parsing and INSERT builder

This project models, in Dafny, the text-processing core of `main.py`, a small
Flask service. The service receives the text of an interview-scheduling
e-mail, pulls labelled fields out of it with regular expressions, and hands
the fields to PostgreSQL. The model covers these parts:

- **Python string primitives** (`pytext.dfy`, module `PyText`): whitespace as
  `str.isspace()` and `\s` define it, `str.strip()`, and
  `find`/`join`/`split`.
- **`re.search` for the pattern shape the code uses** (`lazyregex.dfy`,
  module `LazyRegex`): `open\s*(.*?)\s*close` and `open(.*?)close`. The
  backtracking order is Python's: leftmost start, then the greedy leading
  `\s*`, then the lazy group. No DOTALL flag is given, so `.` never matches a
  line feed.
  - `MatchWith` and `IsFirstMatch` say what a match is, and which match
    Python reports, without any search.
  - `Search` is the search itself, proved against that specification.
- **The nine field extractions of `process_data`** (`fields.dfy`, module
  `FieldExtractor`).
- **The string half of `extract_date_time`** (`datetime.dfy`, module
  `InterviewDateTime`).
- **The INSERT statement and parameter tuple of `store_data_in_database`**
  (`insert.dfy`, module `InsertQuery`). A parser for the generated query is
  the partner, so the builder is proved by a round trip.
- **The decision flow of the `/process_data` handler** (`request.dfy`,
  module `ProcessData`).

Facts the model reproduces as the code is written:

- The label `Data and Time of Interview (Mention time zone):` holds a
  parenthesised group of its own. When no `(` comes before it, the
  "timezone" that `extract_date_time` finds is therefore `Mention time zone`.
- The `data_dict` literal names five variables that are never assigned.
  Every non-empty request therefore ends in `NameError`. The catch-all
  handler returns the error text as a plain 200 response, and the store is
  never called.
- `if success:` treats the error string that the store returns as true. A
  failed store with a non-empty message is therefore answered with the
  success response.
- `extract_date_time` is defined but never called by the handler.

Further facts about `main.py` that the model follows:

- `extract_date_time` takes its date text from between the date label and
  `Duration`, and its timezone from the first `(…)` anywhere in the message
  (main.py:21-29).
- Nothing in `main.py` calls `extract_date_time`.
- Each field value stops at the next label, and it never holds a line feed.

## Model

| member | source | states |
|---|---|---|
| PyText.IsSpace | main.py:102 | the whitespace class shared by `\s` in a `str` pattern and by `str.strip()` |
| PyText.Strip | main.py:120-121 | `str.strip()` returns the middle slice of its input: only whitespace is cut away at either end, and the result neither begins nor ends with whitespace |
| PyText.StripSliceKeeps | main.py:120-121 | stripping a span that already has no whitespace at either end returns it unchanged |
| PyText.StripOfSlice | main.py:120-121 | stripping a span of the text gives a smaller span of the same text |
| PyText.Join | main.py:67-68 | `', '.join(...)`: the parts with the separator between consecutive ones |
| PyText.SplitJoin | main.py:67-68 | `split` recovers the parts that `', '.join` was given, when no part holds a comma |
| LazyRegex.FirstMatchUnique | main.py:118-119 | Python's choice of match (leftmost start, greedy leading `\s*`, lazy group) picks at most one match |
| LazyRegex.Search | main.py:118-119 | group 1 of a found match is a span of the text with no line feed, since `.` excludes `\n` |
| LazyRegex.SearchIsFirstMatch | main.py:102-119 | `re.search` finds nothing exactly when no match exists anywhere; otherwise it reports the leftmost match, with the longest leading `\s*` and the shortest group 1 |
| LazyRegex.SearchStripIsFirstMatch | main.py:118-121 | `m.group(1).strip() if m else None` is `None` exactly when nothing matches; otherwise it is the stripped group 1 of the unique first match |
| LazyRegex.SearchStrip | main.py:118-121 | `m.group(1).strip() if m else None` over `m = re.search(pattern, text)` |
| LazyRegex.CaptureAvoidsClose | main.py:102-114 | laziness: the end label begins nowhere inside group 1 |
| LazyRegex.FirstMatchTrimmed | main.py:102-114 | for a `\s*`-padded pattern, group 1 of the first match neither begins nor ends with whitespace |
| LazyRegex.PaddedCaptureIsStripped | main.py:118-121 | for a padded pattern `.strip()` changes nothing: the value is group 1 exactly |
| LazyRegex.PaddedSearchStripIsFirstMatch | main.py:118-121 | for a padded pattern the extracted value is exactly the first match's group 1 |
| LazyRegex.ExtractedShape | main.py:118-121 | an extracted value holds no line feed, has no whitespace at either end, and is a contiguous slice of the text |
| FieldExtractor.ExtractBetween | main.py:118-151 | one field extraction: `re.search(r"<label>\s*(.*?)\s*<next label>", text)`, then the stripped group 1 or `None` |
| FieldExtractor.FieldValue | main.py:102-110 | each of the nine fields with its own start and end label, as the patterns are written |
| FieldExtractor.ExtractFields | main.py:118-151 | the nine extraction statements run in order over the unchanged text |
| FieldExtractor.ExtractBetweenAbsent | main.py:118-151 | a field is `None` exactly when its `Label:\s*(.*?)\s*NextLabel` pattern matches nowhere in the text |
| FieldExtractor.ExtractBetweenIsFirstMatch | main.py:118-151 | otherwise the field is group 1 of the leftmost, greedy-lead, lazy first match, so later occurrences of the label are ignored |
| FieldExtractor.ExtractBetweenShape | main.py:120-151 | a present field holds no line feed, has no whitespace at either end, and comes from a first match |
| FieldExtractor.ExtractionOrderIrrelevant | main.py:118-151 | running the nine extractions in any order, with repeats, stores each field's own value and leaves other entries alone |
| FieldExtractor.ExtractFieldsValues | main.py:118-151 | every one of the nine fields is computed, each from its own pattern over the whole unchanged text |
| InterviewDateTime.TimezoneToken | main.py:21-23 | `timezone_str`: the stripped group 1 of the first `\((.*?)\)`, or `None` |
| InterviewDateTime.DateTimeText | main.py:26-29 | `date_time_str`: the value between the date label and `Duration`, or `None` |
| InterviewDateTime.ParserInput | main.py:31-33 | the string `f"{date_time_str} ({timezone_str})"` when both parts are non-empty |
| InterviewDateTime.ExtractDateTime | main.py:19-46 | `extract_date_time`, with the parse-and-convert library calls as a partial function whose failure is the caught `ValueError` |
| InterviewDateTime.ParserInputFromFirstMatches | main.py:21-33 | when both patterns match, the parser input is the date pattern's first-match group 1, then ` (`, the stripped first `(…)` group, and `)`; it is `None` when either part is empty |
| InterviewDateTime.ExtractDateTimeFromFirstMatches | main.py:21-46 | the result is the parser's output on exactly that input with `Z` appended; it is `None` when either part is empty or the parser fails |
| InterviewDateTime.ParserInputAbsent | main.py:31-44 | when either pattern matches nowhere, there is no parser input and the result is `None` |
| InterviewDateTime.TimezoneTokenShape | main.py:21-23 | the timezone token holds no `)` and no line feed, and has no whitespace at either end |
| InterviewDateTime.NoOpenBefore | main.py:21-22 | no match of `\((.*?)\)` starts before the first `(` |
| InterviewDateTime.NoCloseWithin | main.py:21-22 | group 1 of `\((.*?)\)` runs at least up to the first `)` after its `(` |
| InterviewDateTime.LabelLayout | main.py:26 | where the parentheses of the date label land in a text that contains the label |
| InterviewDateTime.HintIsTheToken | main.py:21-23 | a first `(` followed by `Mention time zone)` makes `Mention time zone` the token |
| InterviewDateTime.LabelParenthesisIsTheTimezone | main.py:21-26 | when no `(` comes before the date label, the timezone token is the label's own `Mention time zone`, whatever follows |
| InsertQuery.BuildInsert | main.py:67-74 | the parameter tuple has one value per dict entry, and value `i` is entry `i`'s value |
| InsertQuery.ParseBuild | main.py:67-71 | the query reads back as exactly the dict's keys, in order, and one `%s` per key |
| InsertQuery.ColumnAlignment | main.py:67-74 | column `i`, placeholder `i` and parameter `i` all belong to entry `i`, and the three lists have the same length as the dict |
| InsertQuery.ColumnsAvoidParen | main.py:67 | the column list holds no `)` when no key does, so the query's `) VALUES (` is found right after it |
| ProcessData.StoreResponse | main.py:176-179 | the 200 success response when the store's outcome is true in Python, else the 500 failure response |
| ProcessData.DataDictLiteral | main.py:156-171 | the `data_dict` literal: nine extracted fields under their keys, then five names nothing assigns |
| ProcessData.HandleRequest | main.py:92-182 | `process_data` on a decoded body, with the store as a parameter and the catch-all turning the exception into its text |
| ProcessData.EvalDict | main.py:156-171 | a dict literal evaluates to its entries in order when every name is bound; otherwise it fails with the `NameError` of the first unbound name |
| ProcessData.EvalDictStopsAt | main.py:156-171 | evaluation raises for the first unbound name and for no later one |
| ProcessData.DataDictRaises | main.py:156-171 | the handler's literal always raises for its first unassigned name, which comes after the nine fields |
| ProcessData.InterviewRoundError | main.py:166 | that name is `interview_round`, so the error text is `name 'interview_round' is not defined` |
| ProcessData.HandleRequestOutcome | main.py:95-182 | an empty body gets the 400 `No data provided`; every other body gets the `NameError` text as a 200 response |
| ProcessData.StoreNeverReached | main.py:156-182 | the response does not depend on the store at all |
| ProcessData.StoreErrorReadsAsSuccess | main.py:174-179 | the 500 response comes only from an empty error message returned by the store (main.py line 88); any other store error gets the success response |

## Left out

- Flask routing, CORS and `request.data.decode('utf-8')` (main.py:14-16, 91-95): the body is taken as already-decoded text. A decoding failure, which the catch-all would also turn into a plain response, is not modelled.
- JSON serialisation of responses: a response is the triple of status, key and message.
- The PostgreSQL connection, cursor, execute, commit and close, and the hard-coded credentials (main.py:52-65, 77-84): this is database I/O. The store is a function parameter that returns `Stored` or the error text (main.py:86-88).
- `dateutil.parser.parse(..., fuzzy=True)`, `astimezone(pytz.UTC)` and `isoformat()` (main.py:37-40): these are library calls with locale and timezone data. They are one partial function passed in by the caller, with `None` for the caught `ValueError`. Other exceptions they might raise are not modelled.
- `print` and `warnings.filterwarnings` (main.py:12, 65, 75, 99, 172, 181): they only log.
- The patterns at main.py:111-115 for interview round, job title, e-mail, contact number and duration: they are declared but never applied, so they affect no output. The matching variables they would feed are the unassigned names in the dict literal.
- The regex engine covers only the literal-open, `\s*`, lazy `(.*?)`, `\s*`, literal-close shape that the applied patterns share. It is not a general `re` implementation, so `\d+\s*\w+` (main.py:115) is outside it.
- A Python `dict` is modelled as the sequence of its entries in insertion order. Duplicate keys cannot occur in the literal, so their merging is not modelled.
- InsertQuery.ParseBuild: requires at least one entry and keys without `,` or `)`; an empty dict would give the query `INSERT INTO email_table () VALUES ()`, which reads back as one empty name.
- Fuzzy reference resolution, candidate upsert, company and task-type lookup, and multi-step transactions are not in `main.py` and are not modelled.
