/** The Python scraper (`scraper.py`, class `PelniScraperWithSession`): the
    token guard of the bootstrap, the parse-and-filter loop over the origin
    options, the status handling and value extraction of one destination
    fetch, the record loop, and the sort before saving. The browser and the
    HTTP session are replaced by the values they deliver: a `Page` and a
    `server` function from the posted `ticket_org` string to the outcome of
    that request. */
module PyScraper {
  import opened Text
  import opened Seqs
  import opened Portal

  /** An origin port as `get_origin_ports` builds it. */
  datatype Port = Port(id: nat, city: string, code: string, name: string)

  /** A browser cookie, as the `name` and `value` entries of one cookie. */
  datatype Cookie = Cookie(name: string, value: string)

  /** What the browser delivers: the hidden `_token` field's value (absent
      when the field or its attribute is missing), the page's cookies and
      the options of the origin selector in document order. */
  datatype Page = Page(token: Option<string>, cookies: seq<Cookie>, options: seq<OptionElem>)

  /** The one fatal error: the anti-forgery token is absent or empty. */
  datatype ScrapeError = TokenMissing

  // -----------------------------------------------------------------------
  // Origin options

  /** An option the scraper keeps: its value attribute is truthy. */
  predicate HasValue(o: OptionElem) {
    IsTruthy(o.value)
  }

  /** The ids this model admits: every kept option's value is a string of
      decimal digits, so that `int(value)` is a plain conversion. */
  predicate IdsAreDecimal(options: seq<OptionElem>) {
    forall i :: 0 <= i < |options| && HasValue(options[i]) ==> IsDecimal(options[i].value.value)
  }

  /** The split of an option's display text: the city is the trimmed text
      before the first `|`; the code and the name are the trimmed first and
      second `-`-pieces of the second `|`-piece. With no `|` the code is
      empty and the name is the city; with a `|` but no `-` after it the
      code is the whole second piece and the name is the city. */
  function ParseLabel(text: string): Label {
    var parts := Split(text, '|');
    var city := Trim(parts[0]);
    if |parts| > 1 then
      var codeName := Split(parts[1], '-');
      Label(city, Trim(codeName[0]), if |codeName| > 1 then Trim(codeName[1]) else city)
    else
      Label(city, "", city)
  }

  /** Text without `|`: code empty, name equal to the trimmed text. */
  lemma ParseLabelNoPipe(text: string)
    requires '|' !in text
    ensures ParseLabel(text) == Label(Trim(text), "", Trim(text))
  {
    SplitWithoutSep(text, '|');
  }

  /** Well-formed text `c | k - n`, followed by anything that starts with a
      further `|` or `-`: the parts are `c`, `k` and `n` trimmed, and the
      rest of the text is ignored. */
  lemma ParseLabelWellFormed(c: string, k: string, n: string, tail: string)
    requires '|' !in c && '|' !in k && '|' !in n && '-' !in k && '-' !in n
    requires tail == [] || tail[0] == '|' || tail[0] == '-'
    ensures ParseLabel(c + "|" + k + "-" + n + tail) == Label(Trim(c), Trim(k), Trim(n))
  {
    LabelPieces(c, k, n, tail);
  }

  /** Text `c | seg` whose second piece has no `-`: the code is the whole
      second piece trimmed and the name falls back to the city. */
  lemma ParseLabelNoDash(c: string, seg: string, tail: string)
    requires '|' !in c && '|' !in seg && '-' !in seg
    requires tail == [] || tail[0] == '|'
    ensures ParseLabel(c + "|" + seg + tail) == Label(Trim(c), Trim(seg), Trim(c))
  {
    LabelPiecesNoDash(c, seg, tail);
  }

  /** The port one kept option yields: `id = int(value)` and the parsed
      display text. */
  function PortOf(o: OptionElem): Port
    requires HasValue(o) && IsDecimal(o.value.value)
  {
    var parsed := ParseLabel(o.text);
    Port(ParseDecimal(o.value.value), parsed.city, parsed.code, parsed.name)
  }

  /** The ports `get_origin_ports` returns for the given options. */
  function OriginPorts(options: seq<OptionElem>): seq<Port>
    requires IdsAreDecimal(options)
  {
    if options == [] then []
    else
      (if HasValue(options[0]) then [PortOf(options[0])] else []) + OriginPorts(options[1..])
  }

  /** Ports of a concatenation are the ports of each part, in order. */
  lemma {:induction false} OriginPortsAppend(a: seq<OptionElem>, b: seq<OptionElem>)
    requires IdsAreDecimal(a) && IdsAreDecimal(b)
    ensures IdsAreDecimal(a + b)
    ensures OriginPorts(a + b) == OriginPorts(a) + OriginPorts(b)
  {
    if a == [] {
      assert a + b == b;
    } else {
      assert (a + b)[0] == a[0];
      assert (a + b)[1..] == a[1..] + b;
      OriginPortsAppend(a[1..], b);
    }
  }

  /** Dropping the first option keeps the ids decimal. */
  lemma IdsAreDecimalTail(options: seq<OptionElem>)
    requires options != [] && IdsAreDecimal(options)
    ensures IdsAreDecimal(options[1..])
  {
    var rest := options[1..];
    forall j | 0 <= j < |rest| && HasValue(rest[j]) ensures IsDecimal(rest[j].value.value) {
      assert rest[j] == options[j + 1];
    }
  }

  /** Exactly the options with a truthy value yield a port, one each, in
      document order, each with `id = int(value)` and the parsed text. */
  lemma {:induction false} OriginPortsAreKeptOptions(options: seq<OptionElem>)
    requires IdsAreDecimal(options)
    ensures var kept := Filter(HasValue, options);
            |OriginPorts(options)| == |kept| &&
            forall i :: 0 <= i < |kept| ==>
              HasValue(kept[i]) && IsDecimal(kept[i].value.value) && OriginPorts(options)[i] == PortOf(kept[i])
  {
    if options != [] {
      var rest := options[1..];
      IdsAreDecimalTail(options);
      OriginPortsAreKeptOptions(rest);
      var kept, keptRest := Filter(HasValue, options), Filter(HasValue, rest);
      var ports, portsRest := OriginPorts(options), OriginPorts(rest);
      if HasValue(options[0]) {
        assert kept == [options[0]] + keptRest;
        assert ports == [PortOf(options[0])] + portsRest;
        forall i | 0 <= i < |kept|
          ensures HasValue(kept[i]) && IsDecimal(kept[i].value.value) && ports[i] == PortOf(kept[i])
        {
          if i > 0 {
            assert kept[i] == keptRest[i - 1];
            assert ports[i] == portsRest[i - 1];
          }
        }
      } else {
        assert kept == keptRest;
        assert ports == portsRest;
      }
    }
  }

  // -----------------------------------------------------------------------
  // One destination fetch

  /** The option values of a response that are present and non-empty, in
      document order. */
  function PresentValues(vs: seq<Option<string>>): (r: seq<string>)
    ensures |r| <= |vs|
  {
    if vs == [] then []
    else (if IsTruthy(vs[0]) then [vs[0].value] else []) + PresentValues(vs[1..])
  }

  /** Every kept value is a non-empty value of the response, and every
      non-empty value of the response is kept. */
  lemma {:induction false} PresentValuesSpec(vs: seq<Option<string>>)
    ensures forall i :: 0 <= i < |PresentValues(vs)| ==>
              PresentValues(vs)[i] != "" && Some(PresentValues(vs)[i]) in vs
    ensures forall i :: 0 <= i < |vs| && IsTruthy(vs[i]) ==> vs[i].value in PresentValues(vs)
  {
    if vs != [] {
      PresentValuesSpec(vs[1..]);
      var r, rest := PresentValues(vs), PresentValues(vs[1..]);
      forall i | 0 <= i < |r| ensures r[i] != "" && Some(r[i]) in vs {
        if !IsTruthy(vs[0]) || i > 0 {
          var k := if IsTruthy(vs[0]) then i - 1 else i;
          assert 0 <= k < |rest| && r[i] == rest[k];
          assert rest[k] != "" && Some(rest[k]) in vs[1..];
        }
      }
      forall i | 0 <= i < |vs| && IsTruthy(vs[i]) ensures vs[i].value in r {
        if i > 0 {
          assert vs[i] == vs[1..][i - 1];
        }
      }
    }
  }

  /** One option contributes its value when that value is truthy, and
      nothing otherwise. */
  lemma PresentValuesSingle(v: Option<string>)
    ensures PresentValues([v]) == if IsTruthy(v) then [v.value] else []
  {
    assert [v][1..] == [];
  }

  /** The values of consecutive parts of a response come in the order of
      the parts; with `PresentValuesSingle` this fixes the result as the
      truthy values in document order, one entry per option. */
  lemma {:induction false} PresentValuesAppend(a: seq<Option<string>>, b: seq<Option<string>>)
    ensures PresentValues(a + b) == PresentValues(a) + PresentValues(b)
  {
    if a == [] {
      assert a + b == b;
    } else {
      var head := if IsTruthy(a[0]) then [a[0].value] else [];
      assert (a + b)[0] == a[0];
      assert (a + b)[1..] == a[1..] + b;
      assert PresentValues(a + b) == head + PresentValues(a[1..] + b);
      PresentValuesAppend(a[1..], b);
      assert PresentValues(a) == head + PresentValues(a[1..]);
    }
  }

  /** `fetch_destinations_via_requests`: on status 200 the present option
      values joined by `","`; on any other status, a timeout, a request
      error or any other exception, `None`. */
  function FetchDestinations(outcome: FetchOutcome): (r: Option<string>)
    ensures r.Some? <==> outcome.Responded? && outcome.status == 200
  {
    match outcome
    case Responded(status, values) =>
      if status == 200 then Some(Join(PresentValues(values), ",")) else None
    case _ => None
  }

  /** The record `scrape_all_ports` stores for a port: its fields copied and
      `dest` set to the fetched string, or to `""` when the fetch gave `None`
      or the empty string. */
  function RecordFor(p: Port, outcome: FetchOutcome): (r: PortResult)
    ensures r.name == p.name && r.code == p.code && r.city == p.city && r.id == p.id
    ensures r.dest == if outcome.Responded? && outcome.status == 200
                      then Join(PresentValues(outcome.values), ",") else ""
  {
    var dest := FetchDestinations(outcome);
    PortResult(p.name, p.code, p.city, p.id, if dest.Some? && dest.value != "" then dest.value else "")
  }

  /** The records `scrape_all_ports` appends for the given ports, one fetch
      per port with `ticket_org = str(id)`, in the order of the ports. */
  function Records(ports: seq<Port>, server: string -> FetchOutcome): (rs: seq<PortResult>)
    ensures |rs| == |ports|
  {
    if ports == [] then []
    else
      var last := ports[|ports| - 1];
      Records(ports[..|ports| - 1], server) + [RecordFor(last, server(Decimal(last.id)))]
  }

  /** One more port adds its record at the end. */
  lemma RecordsStep(ports: seq<Port>, i: nat, server: string -> FetchOutcome)
    requires i < |ports|
    ensures Records(ports[..i + 1], server)
         == Records(ports[..i], server) + [RecordFor(ports[i], server(Decimal(ports[i].id)))]
  {
    assert ports[..i + 1][..i] == ports[..i];
  }

  /** The record at each position is the one for the port at that position,
      fetched with that port's id. */
  lemma {:induction false} RecordsIndex(ports: seq<Port>, server: string -> FetchOutcome)
    ensures forall i :: 0 <= i < |ports| ==>
      Records(ports, server)[i] == RecordFor(ports[i], server(Decimal(ports[i].id)))
  {
    if ports != [] {
      var init := ports[..|ports| - 1];
      RecordsIndex(init, server);
      forall i | 0 <= i < |ports| - 1
        ensures Records(ports, server)[i] == RecordFor(ports[i], server(Decimal(ports[i].id)))
      {
        assert ports[i] == init[i];
      }
    }
  }

  /** When no option value holds a comma, a successful fetch is truthy
      exactly when some value was present, and then splitting it on `","`
      gives back the present values, so the count printed after each fetch
      is the number of destinations. */
  lemma DestinationCount(outcome: FetchOutcome)
    requires outcome.Responded? && outcome.status == 200
    requires forall v :: Some(v) in outcome.values ==> ',' !in v
    ensures var dest := FetchDestinations(outcome).value;
            var present := PresentValues(outcome.values);
            (dest != "" <==> |present| > 0) &&
            (dest != "" ==> Split(dest, ',') == present && |Split(dest, ',')| == |present|)
  {
    var present := PresentValues(outcome.values);
    PresentValuesSpec(outcome.values);
    JoinEmpty(present, ",");
    forall i | 0 <= i < |present| ensures ',' !in present[i] {
      assert Some(present[i]) in outcome.values;
    }
    if |present| > 0 {
      SplitJoin(present, ',');
    }
  }

  // -----------------------------------------------------------------------
  // Session state and headers

  /** The headers set on the HTTP session after the token is read. */
  const BrowserHeaders: map<string, string> := map[
    "User-Agent" := "Mozilla/5.0 (Macintosh; Intel Mac OS X 10_15_7) AppleWebKit/537.36",
    "Content-Type" := "application/x-www-form-urlencoded;",
    "Accept" := "*/*",
    "Referer" := "https://pelni.co.id/",
    "Origin" := "https://pelni.co.id"
  ]

  /** The dictionary `{c["name"]: c["value"] for c in cookies}`. */
  function CookieJar(cs: seq<Cookie>): map<string, string> {
    if cs == [] then map[]
    else
      var last := cs[|cs| - 1];
      CookieJar(cs[..|cs| - 1])[last.name := last.value]
  }

  /** The jar has one entry per cookie name. */
  lemma {:induction false} CookieJarKeys(cs: seq<Cookie>)
    ensures forall n :: n in CookieJar(cs) <==> exists i :: 0 <= i < |cs| && cs[i].name == n
  {
    if cs != [] {
      var init, last := cs[..|cs| - 1], cs[|cs| - 1];
      CookieJarKeys(init);
      forall n ensures n in CookieJar(cs) <==> exists i :: 0 <= i < |cs| && cs[i].name == n {
        if n in CookieJar(init) {
          var i :| 0 <= i < |init| && init[i].name == n;
          assert cs[i] == init[i];
        }
        if exists i :: 0 <= i < |cs| && cs[i].name == n {
          var i :| 0 <= i < |cs| && cs[i].name == n;
          if i < |init| {
            assert init[i] == cs[i];
          }
        }
      }
    }
  }

  /** Each name holds the value of the last cookie of that name: a cookie
      with no later namesake is the one the jar keeps. */
  lemma {:induction false} CookieJarLastWins(cs: seq<Cookie>, i: nat)
    requires i < |cs|
    requires forall j :: i < j < |cs| ==> cs[j].name != cs[i].name
    ensures cs[i].name in CookieJar(cs) && CookieJar(cs)[cs[i].name] == cs[i].value
  {
    var init, last := cs[..|cs| - 1], cs[|cs| - 1];
    if i < |init| {
      assert cs[i] == init[i] && last.name != cs[i].name;
      forall j | i < j < |init| ensures init[j].name != init[i].name {
        assert init[j] == cs[j];
      }
      CookieJarLastWins(init, i);
    }
  }

  // -----------------------------------------------------------------------
  // Saving: the sort by id

  /** The sort key of `save_results`: a record's id. */
  function IdOf(r: PortResult): int {
    r.id
  }

  // -----------------------------------------------------------------------
  // The scraper object

  class Scraper {
    /** The collected records, in the order they were appended. */
    var results: seq<PortResult>
    /** The anti-forgery token read from the page. */
    var token: Option<string>
    /** The cookie jar and the headers of the HTTP session
        (`self.session.cookies` and `self.session.headers`; the attribute
        `self.cookies` of the Python class is never used and not modelled). */
    var sessionCookies: map<string, string>
    var sessionHeaders: map<string, string>

    constructor ()
      ensures results == [] && token == None && sessionCookies == map[] && sessionHeaders == map[]
    {
      results := [];
      token := None;
      sessionCookies := map[];
      sessionHeaders := map[];
    }

    /** `get_initial_data`: read the token; when it is absent or empty, fail
        before the cookie jar and the headers are touched; otherwise copy the
        page's cookies into the jar, set the fixed headers and return the
        token. */
    method GetInitialData(page: Page) returns (r: Result<string, ScrapeError>)
      modifies this`token, this`sessionCookies, this`sessionHeaders
      ensures token == page.token
      ensures r.Err? <==> !IsTruthy(page.token)
      ensures r.Err? ==> r.error == TokenMissing
      ensures r.Err? ==> sessionCookies == old(sessionCookies) && sessionHeaders == old(sessionHeaders)
      ensures r.Ok? ==> r.value == page.token.value
      ensures r.Ok? ==> sessionCookies == old(sessionCookies) + CookieJar(page.cookies)
      ensures r.Ok? ==> sessionHeaders == old(sessionHeaders) + BrowserHeaders
    {
      token := page.token;
      if !IsTruthy(token) {
        return Err(TokenMissing);
      }
      sessionCookies := sessionCookies + CookieJar(page.cookies);
      sessionHeaders := sessionHeaders + BrowserHeaders;
      return Ok(token.value);
    }

    /** `get_origin_ports`: walk the options in document order, skip those
        whose value is missing or empty, and append the parsed port of every
        other one. */
    method GetOriginPorts(options: seq<OptionElem>) returns (ports: seq<Port>)
      requires IdsAreDecimal(options)
      ensures ports == OriginPorts(options)
    {
      ports := [];
      var i := 0;
      while i < |options|
        invariant 0 <= i <= |options|
        invariant IdsAreDecimal(options[..i]) && IdsAreDecimal(options[i..])
        invariant ports == OriginPorts(options[..i])
      {
        var opt := options[i];
        assert options[..i + 1] == options[..i] + [opt];
        OriginPortsAppend(options[..i], [opt]);
        if HasValue(opt) {
          ports := ports + [PortOf(opt)];
        }
        i := i + 1;
      }
      assert options[..i] == options;
    }

    /** The record loop of `scrape_all_ports`: for each port in order, fetch
        its destinations with `ticket_org = str(id)` and append its record,
        whatever the fetch gave. */
    method AppendRecords(ports: seq<Port>, server: string -> FetchOutcome)
      modifies this`results
      ensures results == old(results) + Records(ports, server)
    {
      ghost var before := results;
      for i := 0 to |ports|
        invariant results == before + Records(ports[..i], server)
      {
        var port := ports[i];
        var dest := FetchDestinations(server(Decimal(port.id)));
        var result := PortResult(port.name, port.code, port.city, port.id,
                                 if dest.Some? && dest.value != "" then dest.value else "");
        assert result == RecordFor(port, server(Decimal(port.id)));
        RecordsStep(ports, i, server);
        results := results + [result];
      }
      assert ports[..|ports|] == ports;
    }

    /** `scrape_all_ports`: bootstrap the session, enumerate the origins, and
        append one record per origin, in order; a missing token stops the
        run before any record is appended. */
    method ScrapeAllPorts(page: Page, server: string -> FetchOutcome) returns (r: Result<(), ScrapeError>)
      requires IdsAreDecimal(page.options)
      modifies this
      ensures token == page.token
      ensures r.Err? <==> !IsTruthy(page.token)
      ensures r.Err? ==> results == old(results)
      ensures r.Err? ==> sessionCookies == old(sessionCookies) && sessionHeaders == old(sessionHeaders)
      ensures r.Ok? ==> sessionCookies == old(sessionCookies) + CookieJar(page.cookies)
      ensures r.Ok? ==> sessionHeaders == old(sessionHeaders) + BrowserHeaders
      ensures r.Ok? ==> results == old(results) + Records(OriginPorts(page.options), server)
    {
      var t := GetInitialData(page);
      if t.Err? {
        return Err(t.error);
      }
      var ports := GetOriginPorts(page.options);
      AppendRecords(ports, server);
      r := Ok(());
    }

    /** `save_results`: sort the collected records by id, stably and in
        place, before they are written; the file name, by default
        `pelni-destinations.json`, is returned. */
    method SaveResults(filename: string := "pelni-destinations.json") returns (path: string)
      modifies this`results
      ensures results == SortBy(old(results), IdOf)
      ensures path == filename
    {
      results := SortBy(results, IdOf);
      path := filename;
    }
  }
}
