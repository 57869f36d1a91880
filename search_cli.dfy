/** The decision logic of `main`: which command-line search fields become
    query parameters, which of them draw a wildcard warning, and whether
    the query's results are exported. */
module SearchCli {
  import opened Outcomes
  import CsvExport

  /** The allow-list of search fields, in the order `main` walks it. */
  const ValidSearchFields: seq<string> := [
    "domain_keyword", "domain_name", "domain_tld",
    "query_date", "query_date_from", "query_date_to", "query_year",
    "create_date", "create_date_from", "create_date_to", "create_year",
    "update_date", "update_date_from", "update_date_to", "update_year",
    "expiry_date", "expiry_date_from", "expiry_date_to", "expiry_year",
    "registrar_iana", "registrar_name", "registrar_website",
    "registrant_name", "registrant_company", "registrant_address",
    "registrant_city", "registrant_state", "registrant_zip",
    "registrant_country", "registrant_email", "registrant_phone",
    "registrant_fax", "name_servers", "domain_status", "dns_sec",
    // wildcard search fields
    "domain_name_wildcard", "domain_keyword_wildcard", "domain_tld_wildcard",
    "registrar_name_wildcard", "registrar_website_wildcard",
    "registrant_name_wildcard", "registrant_company_wildcard",
    "registrant_address_wildcard", "registrant_city_wildcard",
    "registrant_state_wildcard", "registrant_zip_wildcard",
    "registrant_email_wildcard", "registrant_phone_wildcard",
    "registrant_fax_wildcard", "name_servers_wildcard",
    "domain_status_wildcard", "dns_sec_wildcard"
  ]

  /** The parsed command line: one entry per search field, `None` when the
      flag was not given. */
  type Args = map<string, Option<string>>

  /** The parser defines every allow-listed field (default `None`). */
  ghost predicate Parsed(args: Args, fields: seq<string>)
  {
    forall f :: f in fields ==> f in args
  }

  datatype CliError = NoSearchFields

  /** A value that asks the API for a wildcard match. */
  predicate IsWildcard(value: string)
  {
    '*' in value || '?' in value
  }

  /** The fields, in allow-list order, for which `main` logs a wildcard warning. */
  function WildcardWarnings(fields: seq<string>, args: Args): seq<string>
    requires Parsed(args, fields)
  {
    if |fields| == 0 then []
    else
      var init, f := fields[..|fields| - 1], fields[|fields| - 1];
      WildcardWarnings(init, args) +
        (if args[f].Some? && IsWildcard(args[f].value) then [f] else [])
  }

  /** A field is warned about exactly when it is allow-listed, was given,
      and its value holds '*' or '?'; the warnings never exceed the fields. */
  lemma {:induction false} WildcardWarningsMember(fields: seq<string>, args: Args, f: string)
    requires Parsed(args, fields)
    ensures f in WildcardWarnings(fields, args) <==>
              f in fields && args[f].Some? && IsWildcard(args[f].value)
    ensures |WildcardWarnings(fields, args)| <= |fields|
    decreases |fields|
  {
    if |fields| > 0 {
      var init := fields[..|fields| - 1];
      assert fields == init + [fields[|fields| - 1]];
      WildcardWarningsMember(init, args, f);
    }
  }

  /** The loop of `main` that fills `search_params`: walks the allow-list
      in order, keeps every field that was given, and notes the fields
      whose value is a wildcard pattern. */
  method CollectParams(fields: seq<string>, args: Args) returns (params: map<string, string>, warned: seq<string>)
    requires Parsed(args, fields)
    ensures forall f :: f in params <==> f in fields && args[f].Some?
    ensures forall f :: f in params ==> f in args && args[f] == Some(params[f])
    ensures warned == WildcardWarnings(fields, args)
    ensures params == map[] ==> warned == []
  {
    params := map[];
    warned := [];
    for i := 0 to |fields|
      invariant forall f :: f in params <==> f in fields[..i] && args[f].Some?
      invariant forall f :: f in params ==> f in args && args[f] == Some(params[f])
      invariant warned == WildcardWarnings(fields[..i], args)
      invariant params == map[] ==> warned == []
    {
      var field := fields[i];
      var value := args[field];
      assert fields[..i + 1] == fields[..i] + [field];
      assert fields[..i + 1][..i] == fields[..i];
      if value.Some? {
        if '*' in value.value || '?' in value.value {
          warned := warned + [field];
        }
        params := params[field := value.value];
      }
    }
    assert fields[..|fields|] == fields;
  }

  /** Builds `search_params` from the allow-list; an empty result is the
      "no search fields provided" error that ends the program. `warned`
      lists the fields the wildcard warning is logged for. */
  method BuildSearchParams(args: Args) returns (res: Result<map<string, string>, CliError>, warned: seq<string>)
    requires Parsed(args, ValidSearchFields)
    ensures warned == WildcardWarnings(ValidSearchFields, args)
    ensures res.Failure? <==> forall f :: f in ValidSearchFields ==> args[f].None?
    ensures res.Failure? ==> res.error == NoSearchFields && warned == []
    ensures res.Success? ==> forall f :: f in res.value <==> f in ValidSearchFields && args[f].Some?
    ensures res.Success? ==> forall f :: f in res.value ==> f in args && args[f] == Some(res.value[f])
  {
    var params;
    params, warned := CollectParams(ValidSearchFields, args);
    if params == map[] {
      res := Failure(NoSearchFields);
    } else {
      res := Success(params);
      var f :| f in params;
      assert f in ValidSearchFields && args[f].Some?;
    }
  }

  /** Python truthiness of the response's "count" object: absent, null and
      `{}` are all false. */
  predicate Truthy(count: Option<map<string, int>>)
  {
    count.Some? && count.value != map[]
  }

  /** `count_info.get("total", 0)`. */
  function TotalOf(count: map<string, int>): int
  {
    if "total" in count then count["total"] else 0
  }

  /** Whether `main` writes the CSV for a response: not when "results" is
      empty, and not when a non-empty "count" object reports (or, lacking
      "total", defaults to) a total of zero. */
  function ShouldExport(results: seq<CsvExport.Record>, count: Option<map<string, int>>): (go: bool)
    ensures go ==> results != []
    ensures count.None? || count == Some(map[]) ==> (go <==> results != [])
    ensures count.Some? && "total" in count.value ==>
              (go <==> results != [] && count.value["total"] != 0)
    ensures count.Some? && count.value != map[] && "total" !in count.value ==> !go
  {
    !(results == [] || (Truthy(count) && TotalOf(count.value) == 0))
  }

  /** The results branch of `main`: either "no matches" or the exported document. */
  method HandleResults(results: seq<CsvExport.Record>, count: Option<map<string, int>>,
                       output: Option<string>, stamp: string)
    returns (written: Option<CsvExport.CsvDocument>)
    ensures written.Some? <==> ShouldExport(results, count)
    ensures written.Some? ==> CsvExport.IsExportOf(written.value, results, output, stamp)
  {
    if results == [] || (Truthy(count) && TotalOf(count.value) == 0) {
      written := None;
    } else {
      var doc := CsvExport.WriteCsv(results, output, stamp);
      written := Some(doc);
    }
  }
}
