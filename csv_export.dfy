/** The data shaping half of `write_csv`: choosing the output file name,
    computing the header as the sorted union of all record keys, and
    flattening every record into one row over exactly those columns. */
module CsvExport {
  import opened Outcomes
  import opened PyText

  /** A JSON scalar as it comes back from the lookup API. */
  datatype Scalar = Str(s: string) | Int(i: int) | Bool(b: bool) | Null

  /** A field of a result record: a scalar, or a list of strings
      (name servers, statuses, ...). */
  datatype Value = Plain(scalar: Scalar) | List(items: seq<string>)

  /** One entry of the API's "results" array. */
  type Record = map<string, Value>

  /** One row handed to the CSV writer: list values are already flattened. */
  type Row = map<string, Scalar>

  /** What `write_csv` produces before it opens the file. */
  datatype CsvDocument = CsvDocument(filename: string, header: seq<string>, rows: seq<Row>)

  // ---------------------------------------------------------------------------
  // Output file name

  /** The name ends in ".csv", ignoring case. */
  predicate HasCsvSuffix(name: string)
  {
    EndsWith(Lower(name), ".csv")
  }

  /** Appending ".csv" to any name gives a name with the suffix. */
  lemma CsvAppendedHasSuffix(name: string)
    ensures HasCsvSuffix(name + ".csv")
  {
  }

  /** The suffix rule for a user-supplied name: the result always ends in
      ".csv" (in any case) and starts with the given name; a name that
      already has the suffix in any case is kept as it is, any other gets
      exactly ".csv" added. */
  function WithCsvSuffix(name: string): (r: string)
    ensures HasCsvSuffix(r)
    ensures |name| <= |r| <= |name| + 4 && r[..|name|] == name
    ensures HasCsvSuffix(name) ==> r == name
    ensures !HasCsvSuffix(name) ==> r == name + ".csv"
  {
    if HasCsvSuffix(name) then name
    else
      CsvAppendedHasSuffix(name);
      name + ".csv"
  }

  /** Applying the suffix rule a second time changes nothing. */
  lemma WithCsvSuffixIdempotent(name: string)
    ensures WithCsvSuffix(WithCsvSuffix(name)) == WithCsvSuffix(name)
  {
  }

  /** The file name `write_csv` uses: the `--output` value when it is given
      and non-empty, passed through the suffix rule; otherwise the default
      name built from the formatted local time `stamp`. */
  function OutputFilename(output: Option<string>, stamp: string): (name: string)
    ensures HasCsvSuffix(name)
    ensures output.Some? && output.value != "" ==>
              name == WithCsvSuffix(output.value) && name[..|output.value|] == output.value
    ensures output.None? || output.value == "" ==> name == "reverse_whois_" + stamp + ".csv"
  {
    if output.Some? && output.value != "" then
      WithCsvSuffix(output.value)
    else
      CsvAppendedHasSuffix("reverse_whois_" + stamp);
      "reverse_whois_" + stamp + ".csv"
  }

  // ---------------------------------------------------------------------------
  // Columns

  /** The union of the keys of the records, gathered left to right. */
  function KeysOf(results: seq<Record>): set<string>
  {
    if |results| == 0 then {}
    else KeysOf(results[..|results| - 1]) + results[|results| - 1].Keys
  }

  /** A key is a column exactly when some record has it. */
  lemma {:induction false} KeysOfMember(results: seq<Record>, k: string)
    ensures k in KeysOf(results) <==> exists i :: 0 <= i < |results| && k in results[i]
    decreases |results|
  {
    if |results| > 0 {
      var init := results[..|results| - 1];
      KeysOfMember(init, k);
      if k in KeysOf(init) {
        var i :| 0 <= i < |init| && k in init[i];
        assert k in results[i];
      }
      if exists i :: 0 <= i < |results| && k in results[i] {
        var i :| 0 <= i < |results| && k in results[i];
        if i < |init| {
          assert k in init[i];
        }
      }
    }
  }

  /** The key union ignores the order and repetition of records. */
  lemma KeysOfIgnoresOrder(xs: seq<Record>, ys: seq<Record>)
    requires forall r :: r in xs <==> r in ys
    ensures KeysOf(xs) == KeysOf(ys)
  {
    forall k
      ensures k in KeysOf(xs) <==> k in KeysOf(ys)
    {
      KeysOfMember(xs, k);
      KeysOfMember(ys, k);
      if exists i :: 0 <= i < |xs| && k in xs[i] {
        var i :| 0 <= i < |xs| && k in xs[i];
        assert xs[i] in ys;
      }
      if exists i :: 0 <= i < |ys| && k in ys[i] {
        var i :| 0 <= i < |ys| && k in ys[i];
        assert ys[i] in xs;
      }
    }
  }

  /** `cols` is the header `write_csv` computes for `results`: the keys of
      all records, each once, in ascending order. */
  ghost predicate IsHeaderOf(cols: seq<string>, results: seq<Record>)
  {
    StrictlySorted(cols) && forall k :: k in cols <==> k in KeysOf(results)
  }

  /** The header holds exactly the strings that are a key of some record,
      and as many of them as there are distinct keys. */
  lemma HeaderMembers(cols: seq<string>, results: seq<Record>)
    requires IsHeaderOf(cols, results)
    ensures forall k :: k in cols <==> exists i :: 0 <= i < |results| && k in results[i]
    ensures |cols| == |KeysOf(results)|
  {
    forall k
      ensures k in cols <==> exists i :: 0 <= i < |results| && k in results[i]
    {
      KeysOfMember(results, k);
    }
    SortedCardinality(cols);
    assert (set x | x in cols) == KeysOf(results);
  }

  /** Builds `all_keys` as a set grown record by record, then sorts it. */
  method ComputeColumns(results: seq<Record>) returns (cols: seq<string>)
    ensures IsHeaderOf(cols, results)
    ensures forall k :: k in cols <==> exists i :: 0 <= i < |results| && k in results[i]
    ensures |cols| == |KeysOf(results)|
  {
    var allKeys: set<string> := {};
    for i := 0 to |results|
      invariant allKeys == KeysOf(results[..i])
    {
      assert results[..i + 1][..i] == results[..i];
      allKeys := allKeys + results[i].Keys;
    }
    assert results[..|results|] == results;
    cols := SortKeys(allKeys);
    HeaderMembers(cols, results);
  }

  /** `sorted(keys)`: repeatedly takes the least key not yet placed. */
  method SortKeys(keys: set<string>) returns (cols: seq<string>)
    ensures StrictlySorted(cols)
    ensures forall k :: k in cols <==> k in keys
  {
    cols := [];
    var rest := keys;
    while rest != {}
      invariant rest <= keys
      invariant StrictlySorted(cols)
      invariant forall k :: k in keys <==> k in cols || k in rest
      invariant forall i, y :: 0 <= i < |cols| && y in rest ==> Below(cols[i], y)
      decreases |rest|
    {
      LeastExists(rest);
      var m :| m in rest && IsLeast(m, rest);
      cols := cols + [m];
      rest := rest - {m};
    }
  }

  /** The header depends only on which records there are, not on their order. */
  lemma HeaderIgnoresOrder(xs: seq<Record>, ys: seq<Record>, a: seq<string>, b: seq<string>)
    requires forall r :: r in xs <==> r in ys
    requires IsHeaderOf(a, xs) && IsHeaderOf(b, ys)
    ensures a == b
  {
    KeysOfIgnoresOrder(xs, ys);
    SortedUnique(a, b);
  }

  // ---------------------------------------------------------------------------
  // Rows

  /** The cell `write_csv` puts in column `key` for record `r`. */
  function Cell(r: Record, key: string): Scalar
  {
    var value := if key in r then r[key] else Plain(Str(""));
    match value
    case List(items) => Str(Join(items))
    case Plain(s) => s
  }

  /** What a cell holds, rule by rule: a missing field is the empty string,
      a scalar is carried over unchanged, a list is joined with ';' (so the
      empty list is "" and a one-item list is its item), and a list whose
      items hold no ';' can be read back by splitting the cell. */
  lemma {:induction false} CellRules(r: Record, key: string)
    ensures key !in r ==> Cell(r, key) == Str("")
    ensures key in r && r[key].Plain? ==> Cell(r, key) == r[key].scalar
    ensures key in r && r[key] == List([]) ==> Cell(r, key) == Str("")
    ensures forall x :: key in r && r[key] == List([x]) ==> Cell(r, key) == Str(x)
    ensures key in r && r[key].List? && |r[key].items| >= 1 &&
            (forall k :: 0 <= k < |r[key].items| ==> Sep !in r[key].items[k]) ==>
              Cell(r, key).Str? && Split(Cell(r, key).s) == r[key].items
  {
    if key in r && r[key].List? && |r[key].items| >= 1 &&
       (forall k :: 0 <= k < |r[key].items| ==> Sep !in r[key].items[k]) {
      SplitJoin(r[key].items);
    }
  }

  /** `row` is the processed row of record `r` over the columns `cols`. */
  ghost predicate IsRowOf(row: Row, r: Record, cols: seq<string>)
  {
    (forall k :: k in row <==> k in cols) &&
    forall k :: k in row ==> row[k] == Cell(r, k)
  }

  /** Builds `processed_results`: for each record in order, a row with one
      entry per column. */
  method ShapeRows(results: seq<Record>, cols: seq<string>) returns (rows: seq<Row>)
    ensures |rows| == |results|
    ensures forall i :: 0 <= i < |rows| ==> IsRowOf(rows[i], results[i], cols)
  {
    rows := [];
    for i := 0 to |results|
      invariant |rows| == i
      invariant forall n :: 0 <= n < i ==> IsRowOf(rows[n], results[n], cols)
    {
      var result := results[i];
      var row: Row := map[];
      for j := 0 to |cols|
        invariant forall k :: k in row <==> k in cols[..j]
        invariant forall k :: k in row ==> row[k] == Cell(result, k)
      {
        var key := cols[j];
        var value := if key in result then result[key] else Plain(Str(""));
        var cell: Scalar;
        match value {
          case List(items) => cell := Str(Join(items));
          case Plain(s) => cell := s;
        }
        row := row[key := cell];
        assert cols[..j + 1] == cols[..j] + [key];
      }
      assert cols[..|cols|] == cols;
      rows := rows + [row];
    }
  }

  /** A row of a header has exactly as many cells as the header has columns. */
  lemma RowWidth(row: Row, r: Record, cols: seq<string>)
    requires StrictlySorted(cols) && IsRowOf(row, r, cols)
    ensures |row| == |cols|
  {
    SortedCardinality(cols);
    assert row.Keys == (set x | x in cols);
  }

  /** `doc` is what `write_csv` hands to the CSV writer. */
  ghost predicate IsExportOf(doc: CsvDocument, results: seq<Record>, output: Option<string>, stamp: string)
  {
    && doc.filename == OutputFilename(output, stamp)
    && IsHeaderOf(doc.header, results)
    && |doc.rows| == |results|
    && forall i :: 0 <= i < |results| ==>
         IsRowOf(doc.rows[i], results[i], doc.header) && |doc.rows[i]| == |doc.header|
  }

  /** `write_csv` up to the point where it opens the file. */
  method WriteCsv(results: seq<Record>, output: Option<string>, stamp: string) returns (doc: CsvDocument)
    ensures IsExportOf(doc, results, output, stamp)
  {
    var filename := OutputFilename(output, stamp);
    var header := ComputeColumns(results);
    var rows := ShapeRows(results, header);
    forall i | 0 <= i < |results|
      ensures |rows[i]| == |header|
    {
      RowWidth(rows[i], results[i], header);
    }
    doc := CsvDocument(filename, header, rows);
  }

  /** The worked example: two records, one with a list of name servers.
      The header is the sorted key union and the rows keep record order. */
  lemma ExampleExport()
    ensures var foo: Record := map["domain" := Plain(Str("foo.com")), "ns" := List(["ns1", "ns2"])];
            var bar: Record := map["domain" := Plain(Str("bar.com"))];
            IsHeaderOf(["domain", "ns"], [foo, bar]) &&
            IsRowOf(map["domain" := Str("foo.com"), "ns" := Str("ns1;ns2")], foo, ["domain", "ns"]) &&
            IsRowOf(map["domain" := Str("bar.com"), "ns" := Str("")], bar, ["domain", "ns"])
  {
    var foo: Record := map["domain" := Plain(Str("foo.com")), "ns" := List(["ns1", "ns2"])];
    var bar: Record := map["domain" := Plain(Str("bar.com"))];
    assert Below("domain", "ns");
    forall k
      ensures k in ["domain", "ns"] <==> k in KeysOf([foo, bar])
    {
      KeysOfMember([foo, bar], k);
      if k in KeysOf([foo, bar]) {
        var i :| 0 <= i < 2 && k in [foo, bar][i];
      }
      if k == "domain" {
        assert k in [foo, bar][0];
      }
      if k == "ns" {
        assert k in [foo, bar][0];
      }
    }
    assert Join(["ns1", "ns2"]) == "ns1;ns2";
  }
}
