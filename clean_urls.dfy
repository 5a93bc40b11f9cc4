/** The domain extractor: from each feed URL of the table it takes the
    domain named by the `site:` query, and it writes the distinct domains,
    sorted, one per line, to the file the analyzer reads. */
module CleanUrls {
  import opened Wrappers
  import opened PyStr
  import opened SitePattern
  import opened Sorting

  /** `parse_qs(urlparse(url_feed).query)`: the values of each query
      parameter, or nothing when parsing raises. */
  type QueryParser = string -> Option<map<string, seq<string>>>

  /** `query_params.get('q', [''])[0]`: nothing when the list of `q` values
      is empty, since indexing it raises. */
  function QueryValue(params: map<string, seq<string>>): Option<string>
  {
    if "q" !in params then Some("")
    else if params["q"] == [] then None
    else Some(params["q"][0])
  }

  /** `extract_domain_from_url_feed`: a missing or empty cell, a URL that
      fails to parse and a query without a match all give nothing; a match
      gives its capture with trailing `/` removed. */
  function ExtractDomain(urlFeed: Option<string>, parse: QueryParser): (r: Option<string>)
    ensures urlFeed == None || urlFeed == Some("") ==> r == None
    ensures r.Some? ==> r.value != [] && forall k :: 0 <= k < |r.value| ==> InRun(r.value[k])
  {
    match urlFeed
    case None => None
    case Some(feed) =>
      if feed == "" then None
      else
        match parse(feed)
        case None => None
        case Some(params) =>
          match QueryValue(params)
          case None => None
          case Some(q) =>
            match Captured(q)
            case None => None
            case Some(g) =>
              CapturedIsRun(q);
              NoSlashUnchanged(g);
              Some(RStripChar(g, '/'))
  }

  /** A capture has no `/`, so `rstrip('/')` leaves it as it is. */
  lemma NoSlashUnchanged(g: string)
    requires forall k :: 0 <= k < |g| ==> InRun(g[k])
    ensures RStripChar(g, '/') == g
  {
    RStripCharMeaning(g, '/');
    var r := RStripChar(g, '/');
    if |r| < |g| {
      assert g[|g| - 1] == '/';
    }
  }

  /** On a URL that parses, the domain is the capture of the `q` value:
      the trailing-slash removal never changes it. */
  lemma ExtractIsCapture(feed: string, parse: QueryParser, params: map<string, seq<string>>, q: string)
    requires feed != "" && parse(feed) == Some(params) && QueryValue(params) == Some(q)
    ensures ExtractDomain(Some(feed), parse) == Captured(q)
  {
    if Captured(q).Some? {
      CapturedIsRun(q);
      NoSlashUnchanged(Captured(q).value);
    }
  }

  /** A URL that does not parse gives nothing: the exception is caught. */
  lemma ExtractOnParseError(feed: string, parse: QueryParser)
    requires parse(feed) == None
    ensures ExtractDomain(Some(feed), parse) == None
  {
  }

  /** A query without `site:` gives nothing. */
  lemma ExtractWithoutSite(feed: string, parse: QueryParser, params: map<string, seq<string>>, q: string)
    requires feed != "" && parse(feed) == Some(params) && QueryValue(params) == Some(q)
    requires forall p :: 0 <= p <= |q| ==> !HasAt(q, p, "site:")
    ensures ExtractDomain(Some(feed), parse) == None
  {
    NoSiteNoMatch(q);
  }

  /** A URL whose query has no `q` parameter is searched as `''`, which
      holds no `site:`, so it gives nothing. */
  lemma ExtractWithoutQuery(feed: string, parse: QueryParser, params: map<string, seq<string>>)
    requires feed != "" && parse(feed) == Some(params) && "q" !in params
    ensures ExtractDomain(Some(feed), parse) == None
  {
    NoSiteNoMatch("");
  }

  /** With `q` values, the first one is the one searched. */
  lemma ExtractFirstQuery(feed: string, parse: QueryParser, params: map<string, seq<string>>)
    requires feed != "" && parse(feed) == Some(params) && "q" in params && params["q"] != []
    ensures ExtractDomain(Some(feed), parse) == Captured(params["q"][0])
  {
    ExtractIsCapture(feed, parse, params, params["q"][0]);
  }

  /** An empty list of `q` values makes `[0]` raise; the exception is caught
      and the row gives nothing. */
  lemma ExtractEmptyQuery(feed: string, parse: QueryParser, params: map<string, seq<string>>)
    requires parse(feed) == Some(params) && "q" in params && params["q"] == []
    ensures ExtractDomain(Some(feed), parse) == None
  {
  }

  /** A row of the table: its `nome` and its `url_feed` cell, which may be
      missing. */
  datatype Row = Row(name: string, urlFeed: Option<string>)

  /** `df['url_feed'].apply(extract_domain_from_url_feed)`. */
  function CleanColumn(rows: seq<Row>, parse: QueryParser): (r: seq<Option<string>>)
    ensures |r| == |rows|
    ensures forall i :: 0 <= i < |rows| ==> r[i] == ExtractDomain(rows[i].urlFeed, parse)
  {
    if rows == [] then []
    else [ExtractDomain(rows[0].urlFeed, parse)] + CleanColumn(rows[1..], parse)
  }

  /** The domains of the rows where one was found (`notna()`), in row
      order. */
  function Present(column: seq<Option<string>>): (r: seq<string>)
    ensures forall d :: d in r <==> Some(d) in column
    ensures |r| <= |column|
  {
    if column == [] then []
    else
      assert column == [column[0]] + column[1..];
      match column[0]
      case None => Present(column[1..])
      case Some(d) => [d] + Present(column[1..])
  }

  /** `sorted(valid_domains['clean_domain'].dropna().unique().tolist())`. */
  function DomainList(column: seq<Option<string>>): seq<string>
  {
    Sort(Unique(Present(column)))
  }

  /** The list holds each found domain exactly once, in strictly ascending
      order, and nothing else. */
  lemma DomainListMeaning(column: seq<Option<string>>)
    ensures forall d :: d in DomainList(column) <==> Some(d) in column
    ensures Ascending(DomainList(column))
  {
    var u := Unique(Present(column));
    var r := Sort(u);
    forall d ensures d in r <==> d in u {
      assert d in r <==> d in multiset(r);
      assert d in u <==> d in multiset(u);
    }
    SortKeepsDistinct(u);
    SortedDistinctAscending(r);
  }

  /** The list depends only on which domains were found: two tables whose
      rows are the same, in any order and any number of times, give the same
      list. */
  lemma DomainListOrderFree(rows1: seq<Row>, rows2: seq<Row>, parse: QueryParser)
    requires forall r :: r in rows1 <==> r in rows2
    ensures DomainList(CleanColumn(rows1, parse)) == DomainList(CleanColumn(rows2, parse))
  {
    var c1, c2 := CleanColumn(rows1, parse), CleanColumn(rows2, parse);
    forall d ensures Some(d) in c1 <==> Some(d) in c2 {
      FoundInColumn(rows1, parse, d);
      FoundInColumn(rows2, parse, d);
    }
    DomainListMeaning(c1);
    DomainListMeaning(c2);
    AscendingUnique(DomainList(c1), DomainList(c2));
  }

  /** A domain is in the column when some row yields it. */
  lemma FoundInColumn(rows: seq<Row>, parse: QueryParser, d: string)
    ensures Some(d) in CleanColumn(rows, parse) <==> exists r :: r in rows && ExtractDomain(r.urlFeed, parse) == Some(d)
  {
    var c := CleanColumn(rows, parse);
    if Some(d) in c {
      var i :| 0 <= i < |c| && c[i] == Some(d);
      assert rows[i] in rows;
    }
    if exists r :: r in rows && ExtractDomain(r.urlFeed, parse) == Some(d) {
      var r :| r in rows && ExtractDomain(r.urlFeed, parse) == Some(d);
      var i :| 0 <= i < |rows| && rows[i] == r;
      assert c[i] == Some(d);
    }
  }

  /** Every listed domain is a non-empty run of class characters. */
  lemma DomainListAreRuns(rows: seq<Row>, parse: QueryParser)
    ensures forall d :: d in DomainList(CleanColumn(rows, parse)) ==>
      d != [] && forall k :: 0 <= k < |d| ==> InRun(d[k])
  {
    var column := CleanColumn(rows, parse);
    DomainListMeaning(column);
    forall d | d in DomainList(column)
      ensures d != [] && forall k :: 0 <= k < |d| ==> InRun(d[k])
    {
      var i :| 0 <= i < |column| && column[i] == Some(d);
      assert ExtractDomain(rows[i].urlFeed, parse) == Some(d);
    }
  }

  /** The text of the file: each domain followed by a newline. */
  function JoinLines(ds: seq<string>): string
  {
    if ds == [] then "" else ds[0] + "\n" + JoinLines(ds[1..])
  }

  /** Writing one more domain adds its line at the end. */
  lemma {:induction false} JoinLinesSnoc(ds: seq<string>, d: string)
    ensures JoinLines(ds + [d]) == JoinLines(ds) + d + "\n"
  {
    if ds == [] {
      assert [d][1..] == [];
    } else {
      assert (ds + [d])[1..] == ds[1..] + [d];
      JoinLinesSnoc(ds[1..], d);
    }
  }

  /** What a run of the extractor leaves: the text of `cleaned_domains.txt`
      and how many domains it reports. */
  datatype CleanerOutput = CleanerOutput(domainsFile: string, count: nat)

  /** `main` of the extractor. The table is nothing when reading it fails;
      then no file is written. Otherwise the file is written line by line. */
  method RunCleaner(table: Option<seq<Row>>, parse: QueryParser) returns (out: Option<CleanerOutput>)
    ensures table == None ==> out == None
    ensures table.Some? ==>
      var domains := DomainList(CleanColumn(table.value, parse));
      out == Some(CleanerOutput(JoinLines(domains), |Unique(Present(CleanColumn(table.value, parse)))|))
  {
    if table == None {
      return None;
    }
    var column := CleanColumn(table.value, parse);
    var domainsList := Unique(Present(column));
    var sorted := Sort(domainsList);
    var text := "";
    for k := 0 to |sorted|
      invariant text == JoinLines(sorted[..k])
    {
      JoinLinesSnoc(sorted[..k], sorted[k]);
      assert sorted[..k + 1] == sorted[..k] + [sorted[k]];
      text := text + sorted[k] + "\n";
    }
    assert sorted[..|sorted|] == sorted;
    return Some(CleanerOutput(text, |domainsList|));
  }

  /** The reported count is the number of lines written. */
  lemma CountIsLines(column: seq<Option<string>>)
    ensures |DomainList(column)| == |Unique(Present(column))|
  {
    var u := Unique(Present(column));
    assert |multiset(Sort(u))| == |multiset(u)|;
  }
}
