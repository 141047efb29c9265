/** Where the two scrapers agree and where they part: the label parse, the
    destination string and the records of a whole run, related between
    `scraper.py` and `scrape.ts`, with concrete inputs on which the two
    differ. */
module Agreement {
  import opened Text
  import opened Seqs
  import opened Portal
  import PyScraper
  import TsScrape

  /** Whenever the TypeScript parse does not throw (the second `|`-piece
      holds a `-`), both parsers give the same city, code and name. */
  lemma LabelsAgree(text: string)
    requires TsScrape.ParseLabel(text).Ok?
    ensures TsScrape.ParseLabel(text) == Ok(PyScraper.ParseLabel(text))
  {
    var parts := Split(text, '|');
    assert |parts| >= 2;
    assert |Split(parts[1], '-')| >= 2;
  }

  /** The two parsers differ where the TypeScript one throws: text without
      `|` still gets a label in Python, with an empty code and the city as
      its name. */
  lemma LabelsDifferNoPipe()
    ensures TsScrape.ParseLabel("Ambon").Err?
    ensures PyScraper.ParseLabel("Ambon") == Label("Ambon", "", "Ambon")
  {
    var text := "Ambon";
    assert forall i :: 0 <= i < |text| ==> text[i] != '|';
    SplitWithoutSep(text, '|');
    TrimUnchanged(text);
  }

  /** Text whose second `|`-piece has no `-` throws in TypeScript; Python
      takes the piece as the code and the city as the name. */
  lemma LabelsDifferNoDash()
    ensures TsScrape.ParseLabel("Ambon" + "|" + "AMQ").Err?
    ensures PyScraper.ParseLabel("Ambon" + "|" + "AMQ") == Label("Ambon", "AMQ", "Ambon")
  {
    var c, seg := "Ambon", "AMQ";
    assert forall i :: 0 <= i < |c| ==> c[i] != '|';
    assert forall i :: 0 <= i < |seg| ==> seg[i] != '|' && seg[i] != '-';
    LabelPiecesNoDash(c, seg, "");
    assert c + "|" + seg + "" == c + "|" + seg;
    TrimUnchanged(c);
    TrimUnchanged(seg);
  }

  /** An outcome on which both scrapers store the same `dest`: a failure,
      or a status-200 response in which every option has a `value`
      attribute. */
  predicate Comparable(outcome: FetchOutcome) {
    !outcome.Responded? ||
    (outcome.status == 200 && forall i :: 0 <= i < |outcome.values| ==> outcome.values[i].Some?)
  }

  /** With every value attribute present, the TypeScript chain keeps the
      same values as the Python comprehension. */
  lemma {:induction false} ValuesAgree(vs: seq<Option<string>>)
    requires forall i :: 0 <= i < |vs| ==> vs[i].Some?
    ensures TsScrape.JoinedValues(vs) == PyScraper.PresentValues(vs)
  {
    if vs != [] {
      ValuesAgree(vs[1..]);
    }
  }

  /** On a comparable outcome both scrapers store the same `dest` for any
      port. */
  lemma DestinationsAgree(p: PyScraper.Port, outcome: FetchOutcome)
    requires Comparable(outcome)
    ensures PyScraper.RecordFor(p, outcome).dest == TsScrape.Destinations(outcome)
  {
    if outcome.Responded? {
      ValuesAgree(outcome.values);
    }
  }

  /** Outside comparable outcomes the two differ. A missing value
      attribute is joined by TypeScript as an empty piece and dropped by
      Python. */
  lemma NullValueDiffers(p: PyScraper.Port)
    ensures TsScrape.Destinations(Responded(200, [Some("A"), None, Some("B")])) == "A,,B"
    ensures PyScraper.RecordFor(p, Responded(200, [Some("A"), None, Some("B")])).dest == "A,B"
  {
    var vs := [Some("A"), None, Some("B")];
    assert vs[1..] == [None, Some("B")] && vs[1..][1..] == [Some("B")];
    var joined := TsScrape.JoinedValues(vs);
    assert joined == ["A", "", "B"];
    assert PyScraper.PresentValues(vs) == ["A", "B"];
    JoinCons("A", ["", "B"], ",");
    JoinCons("", ["B"], ",");
    assert ["A"] + ["", "B"] == joined;
    JoinCons("A", ["B"], ",");
    assert ["A"] + ["B"] == ["A", "B"];
  }

  /** A non-200 response is joined by TypeScript, which never reads the
      status, and stored as `""` by Python. */
  lemma StatusDiffers(p: PyScraper.Port)
    ensures TsScrape.Destinations(Responded(404, [Some("7")])) == "7"
    ensures PyScraper.RecordFor(p, Responded(404, [Some("7")])).dest == ""
  {
    var ws := [Some("7")];
    assert ws[1..] == [];
    assert TsScrape.JoinedValues(ws) == ["7"];
  }

  /** The `ticket_org` each scraper posts for an option value: Python posts
      `str(int(value))`, TypeScript the value itself. They are equal on
      canonical decimals (`DecimalOfParseDecimal`) and differ on a value with
      a leading zero. */
  lemma TicketsDiffer()
    ensures Decimal(ParseDecimal("07")) == "7" != "07"
  {
    assert "07"[..1] == "0";
    assert "0"[..0] == [];
    assert ParseDecimal("07") == 7;
  }

  /** With every value attribute present, both scrapers keep the same
      origin options. */
  lemma {:induction false} KeptOptionsAgree(options: seq<OptionElem>)
    requires forall i :: 0 <= i < |options| ==> options[i].value.Some?
    ensures Filter(PyScraper.HasValue, options) == Filter(TsScrape.NotEmptyAttr, options)
  {
    if options != [] {
      KeptOptionsAgree(options[1..]);
    }
  }

  /** A whole run: when every origin option has a value attribute, every
      kept value is a canonical decimal of at most `TsScrape.MaxIdDigits`
      digits, no kept display text makes the TypeScript run throw and every
      fetch ends in a comparable outcome, the records Python appends are,
      position by position, the records TypeScript pushes. */
  lemma RunsAgree(options: seq<OptionElem>, server: string -> FetchOutcome)
    requires forall i :: 0 <= i < |options| ==> options[i].value.Some?
    requires var kept := Filter(TsScrape.NotEmptyAttr, options);
      forall i :: 0 <= i < |kept| ==>
        && kept[i].value.Some?
        && IsCanonicalDecimal(kept[i].value.value)
        && |kept[i].value.value| <= TsScrape.MaxIdDigits
        && TsScrape.ParseLabel(kept[i].text).Ok?
        && Comparable(server(kept[i].value.value))
    ensures PyScraper.IdsAreDecimal(options) && TsScrape.IdsAreDecimal(options)
    ensures var kept := Filter(TsScrape.NotEmptyAttr, options);
      var records := PyScraper.Records(PyScraper.OriginPorts(options), server);
      |records| == |kept| &&
      forall i :: 0 <= i < |kept| ==>
        records[i] == TsScrape.RecordFor(kept[i], server(kept[i].value.value)).value
  {
    var kept := Filter(TsScrape.NotEmptyAttr, options);
    KeptOptionsAgree(options);
    FilterMembers(PyScraper.HasValue, options);
    forall i | 0 <= i < |options| && PyScraper.HasValue(options[i])
      ensures IsDecimal(options[i].value.value)
    {
      var j :| 0 <= j < |kept| && kept[j] == options[i];
    }
    var ports := PyScraper.OriginPorts(options);
    PyScraper.OriginPortsAreKeptOptions(options);
    PyScraper.RecordsIndex(ports, server);
    var records := PyScraper.Records(ports, server);
    forall i | 0 <= i < |kept|
      ensures records[i] == TsScrape.RecordFor(kept[i], server(kept[i].value.value)).value
    {
      var v := kept[i].value.value;
      DecimalOfParseDecimal(v);
      assert Decimal(ports[i].id) == v;
      LabelsAgree(kept[i].text);
      DestinationsAgree(ports[i], server(v));
    }
  }
}
