# Reverse WHOIS exporter — a Dafny model

`main.py` of the reverse-WHOIS tool sends one query to the Big Domain Data
API and writes the returned "results" array to a CSV file. Almost all of it
is argument parsing, HTTP and file I/O. This project models the parts of it
that carry decisions:

- **Search parameters** (`SearchCli`). `main` walks the fixed allow-list
  `VALID_SEARCH_FIELDS` in order. It keeps every field that was given on the
  command line and logs a warning for each value containing `*` or `?`. An
  empty parameter map stops the program with "No search fields provided".
- **Export decision** (`SearchCli.ShouldExport`, `SearchCli.HandleResults`).
  The CSV is written only when the results list is non-empty and the
  response's `count` object does not report a total of zero. This follows
  Python truthiness. A missing, null or empty `count` object does not block
  the export. A non-empty one without a `"total"` key reads as total 0 and
  does block it.
- **CSV shaping** (`CsvExport`). This covers the output file name rule, the
  header, and the rows. The header is the sorted union of the keys of all
  records. There is one row per record over exactly those columns: a missing
  field becomes `""`, a list becomes its items joined by `;`, and any other
  value is carried over unchanged.
- **Python string behaviour** (`PyText`) that the above relies on. This is
  the code-point order used by `sorted`, an ASCII `str.lower`,
  `str.endswith`, and `";".join` with its inverse, the split on `;`.

The loops that the script runs in place are Dafny methods with loop
invariants. These are the growing `all_keys` set, the nested loops that build
`processed_results`, and the loop that fills `search_params`. Each method is
proved against a specification predicate or function (`IsHeaderOf`,
`IsRowOf`, `WildcardWarnings`). The lemmas about those specifications carry
the properties.

Three behaviours of `main.py` worth noting:

- Rows keep the order of the records (main.py:201-208). In the two-record
  example, the `foo.com` row comes before the `bar.com` row
  (`CsvExport.ExampleExport`).
- The wildcard warning applies to any allow-listed field whose value has `*`
  or `?` (main.py:308), not only to the `*_wildcard` fields.
- A field that is present with a JSON `null` value keeps `Null` in its row
  (main.py:204): `result.get(key, "")` substitutes `""` only for a missing key.

## Model

| member | source | states |
|---|---|---|
| `PyText.BelowIrreflexive` | main.py:198 | no string sorts before itself under Python's string order |
| `PyText.BelowAsymmetric` | main.py:198 | if a sorts before b, b does not sort before a |
| `PyText.BelowTransitive` | main.py:198 | the string order used by `sorted` is transitive |
| `PyText.BelowTotal` | main.py:198 | any two distinct strings are ordered one way or the other |
| `PyText.LeastExists` | main.py:198 | every non-empty set of keys has a least key, so sorting it is well defined |
| `PyText.SortedDistinct` | main.py:198 | a strictly sorted column list has no repeated entry |
| `PyText.SortedCardinality` | main.py:198 | a strictly sorted column list has as many distinct keys as it is long |
| `PyText.SortedUnique` | main.py:198 | two strictly sorted lists holding the same strings are identical, so the sorted key list is determined by the key set |
| `PyText.JoinSplit` | main.py:206 | splitting a joined cell on ';' and joining again gives the cell back |
| `PyText.SplitJoin` | main.py:206 | a non-empty list whose items have no ';' is recovered by splitting its joined cell |
| `PyText.LowerConcat` | main.py:186 | lowering a concatenation is the concatenation of the lowered parts |
| `PyText.LowerIdempotent` | main.py:186 | lowering a lowered string changes nothing |
| `CsvExport.CsvAppendedHasSuffix` | main.py:186-187 | any name with ".csv" appended ends in ".csv" ignoring case |
| `CsvExport.WithCsvSuffix` | main.py:184-187 | the result ends in ".csv" ignoring case, starts with the given name and is at most four characters longer; it is the name itself when that already ended in ".csv" in any case, otherwise the name plus ".csv" |
| `CsvExport.WithCsvSuffixIdempotent` | main.py:184-187 | applying the suffix rule twice gives the same name as applying it once |
| `CsvExport.OutputFilename` | main.py:184-190 | the chosen name always ends in ".csv" ignoring case; a non-empty `--output` value goes through the suffix rule and is kept as a prefix; otherwise the name is `reverse_whois_<stamp>.csv` |
| `CsvExport.KeysOfMember` | main.py:195-197 | a string is in the key union exactly when some record has it as a key |
| `CsvExport.KeysOfIgnoresOrder` | main.py:195-197 | the key union does not depend on the order or repetition of records |
| `CsvExport.HeaderMembers` | main.py:195-198 | a sorted header of the batch holds exactly the strings that are a key of some record, and one entry per distinct key |
| `CsvExport.ComputeColumns` | main.py:195-198 | the header is strictly ascending and contains exactly the keys present in at least one record, each once |
| `CsvExport.SortKeys` | main.py:198 | `sorted` of the key set is strictly ascending and holds exactly the keys of the set |
| `CsvExport.HeaderIgnoresOrder` | main.py:195-198 | two batches holding the same records in any order get the same header |
| `CsvExport.CellRules` | main.py:204-207 | a missing field gives ""; a scalar passes through unchanged; an empty list gives ""; a one-item list gives its item; a list without ';' in its items is read back by splitting the cell |
| `CsvExport.ShapeRows` | main.py:200-208 | one row per record in record order; each row's keys are exactly the columns and each cell follows the cell rules for its own record |
| `CsvExport.RowWidth` | main.py:200-208 | every row has exactly as many cells as the header has columns |
| `CsvExport.WriteCsv` | main.py:174-208 | the document has the chosen file name, the sorted key-union header, and one full-width row per record in order |
| `CsvExport.ExampleExport` | main.py:195-208 | for `{"domain": "foo.com", "ns": ["ns1","ns2"]}` and `{"domain": "bar.com"}`, the header is `domain, ns` and the rows are `foo.com, ns1;ns2` then `bar.com, ""` |
| `SearchCli.WildcardWarningsMember` | main.py:305-309 | a field is warned about exactly when it is allow-listed, was given, and its value contains '*' or '?' |
| `SearchCli.CollectParams` | main.py:304-310 | the parameter keys are exactly the given allow-listed fields, each mapped to its argument; the warnings are the wildcard fields in allow-list order |
| `SearchCli.BuildSearchParams` | main.py:304-314 | the "no search fields" error happens exactly when no allow-listed field was given; otherwise the parameters are exactly the given fields with their values |
| `SearchCli.ShouldExport` | main.py:337-338 | no export for empty results; with no count object or an empty one, export exactly when there are results; with a "total", export exactly when there are results and the total is non-zero; a non-empty count object without "total" blocks export |
| `SearchCli.HandleResults` | main.py:337-342 | a document is produced exactly when the export condition holds, and it is the `write_csv` document for the results |

## Left out

- HTTP calls (`query_api`, `check_api_balance`, main.py:128-171) go through the `requests` library and the network. The response is a parameter of `HandleResults`: its "results" list and its "count" object.
- Argument parsing, the preliminary `--debug` parse, logging setup, loading `settings.API_KEY`, the missing-endpoint exit and the `--balance` branch (main.py:39-66, 236-301) are library plumbing and process control. Parsed arguments are a map from field name to optional value.
- File I/O is not modelled: creating the `results` directory, `os.path.join`, opening the file, and `csv.DictWriter` quoting, escaping and writing (main.py:181-182, 192, 210-220). Neither is the `--show` echo (main.py:344-347). The model stops at the file name, header and shaped rows.
- The clock: the default file name's timestamp (main.py:189) is a parameter holding the already formatted `%Y-%m-%d_%H-%M-%S` text.
- Printing the response summary and the logging side effect of the wildcard warning (main.py:309, 325-335) are terminal output. The wildcard warnings are modelled as the list of fields warned about.
- List items are restricted to strings, so `str(item)` for numbers and booleans is not modelled. JSON floats are not modelled as scalars.
- `PyText.Lower`: lower-cases ASCII letters only, where Python's `str.lower` also folds non-ASCII letters. For the suffix test at main.py:186 this is exact: no non-ASCII character lowers to text containing '.', 'c', 's' or 'v', so only ASCII lowering can decide whether a name ends in ".csv".
- `SearchCli.ShouldExport`: the "total" value is an integer. Python's `== 0` would also accept `0.0` or `False`.
