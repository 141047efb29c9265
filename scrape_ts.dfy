/** The TypeScript scraper (`scrape.ts`): the callback it evaluates inside
    the page. It reads the token and the origin options, stops when the
    token is absent or empty, and then, for each kept option in document
    order, posts one request, extracts the destination values, splits the
    display text and pushes one record. The page is given as the token and
    the options it holds; `server` maps the posted `ticket_org` string to
    the outcome of that request. */
module TsScrape {
  import opened Text
  import opened Seqs
  import opened Portal

  /** The errors that end the run: the thrown "token not found" error, and
      the `TypeError` raised when the display text lacks the `|` or `-`
      piece it indexes (`undefined` has no `split` or `trim`). */
  datatype ScrapeError = TokenMissing | UndefinedPiece

  /** `x.getAttribute("value") != ""`: only an empty attribute fails; a
      missing one (`null`) passes. */
  predicate NotEmptyAttr(o: OptionElem) {
    o.value != Some("")
  }

  /** The longest id this model admits: `parseInt` yields an IEEE double,
      which holds every integer up to `Number.MAX_SAFE_INTEGER`
      (`2^53 - 1`) exactly, and every id of at most 15 digits is below it. */
  const MaxIdDigits: nat := 15
  const MaxSafeInteger: nat := 9007199254740991

  /** An id `parseInt` converts without rounding: decimal digits, at most
      `MaxIdDigits` of them. */
  predicate IsExactId(s: string) {
    IsDecimal(s) && |s| <= MaxIdDigits
  }

  /** The number an exact id denotes is a safe integer, so the double
      `parseInt` returns is `ParseDecimal` of the id itself. */
  lemma ExactIdIsSafeInteger(s: string)
    requires IsExactId(s)
    ensures ParseDecimal(s) <= MaxSafeInteger
  {
    ParseDecimalBound(s);
    Pow10Monotone(|s|, MaxIdDigits);
    assert Pow10(MaxIdDigits) == 1000000000000000;
  }

  /** The ids this model admits: every kept option has a value attribute
      that is an exact id, so that `parseInt` is a plain conversion. */
  predicate IdsAreDecimal(options: seq<OptionElem>) {
    var kept := Filter(NotEmptyAttr, options);
    forall i :: 0 <= i < |kept| ==> kept[i].value.Some? && IsExactId(kept[i].value.value)
  }

  /** The split of an option's display text: the city is the trimmed first
      `|`-piece; the code and the name are the trimmed first and second
      `-`-pieces of the second `|`-piece. Text with no `|`, or whose second
      `|`-piece has no `-`, throws. */
  function ParseLabel(text: string): (r: Result<Label, ScrapeError>)
    ensures r.Err? ==> r.error == UndefinedPiece
  {
    var parts := Split(text, '|');
    if |parts| < 2 then Err(UndefinedPiece)
    else
      var codeName := Split(parts[1], '-');
      if |codeName| < 2 then Err(UndefinedPiece)
      else Ok(Label(Trim(parts[0]), Trim(codeName[0]), Trim(codeName[1])))
  }

  /** The parse throws exactly when the text has no `|` or its second
      `|`-piece has no `-`. */
  lemma ParseLabelThrows(text: string)
    ensures ParseLabel(text).Err? <==>
      '|' !in text || (var parts := Split(text, '|'); |parts| >= 2 && '-' !in parts[1])
  {
    var parts := Split(text, '|');
    CountAbsent(text, '|');
    if |parts| >= 2 {
      CountAbsent(parts[1], '-');
    }
  }

  /** Well-formed text `c | k - n`, followed by anything that starts with a
      further `|` or `-`: the parts are `c`, `k` and `n` trimmed. */
  lemma ParseLabelWellFormed(c: string, k: string, n: string, tail: string)
    requires '|' !in c && '|' !in k && '|' !in n && '-' !in k && '-' !in n
    requires tail == [] || tail[0] == '|' || tail[0] == '-'
    ensures ParseLabel(c + "|" + k + "-" + n + tail) == Ok(Label(Trim(c), Trim(k), Trim(n)))
  {
    LabelPieces(c, k, n, tail);
  }

  /** The strings the `filter`/`map`/`join` chain joins: every option value
      other than `""`, in document order, a missing attribute (`null`)
      being written by `join` as the empty string. */
  function JoinedValues(vs: seq<Option<string>>): (r: seq<string>)
    ensures |r| <= |vs|
  {
    if vs == [] then []
    else (if vs[0] != Some("") then [vs[0].GetOr("")] else []) + JoinedValues(vs[1..])
  }

  /** Every joined string is a value of the response or the `""` written
      for a missing attribute, and every present value other than `""` is
      joined. */
  lemma {:induction false} JoinedValuesSpec(vs: seq<Option<string>>)
    ensures forall i :: 0 <= i < |JoinedValues(vs)| ==>
              JoinedValues(vs)[i] == "" || Some(JoinedValues(vs)[i]) in vs
    ensures forall i :: 0 <= i < |vs| && vs[i].Some? && vs[i].value != "" ==> vs[i].value in JoinedValues(vs)
  {
    if vs != [] {
      JoinedValuesSpec(vs[1..]);
      var r, rest := JoinedValues(vs), JoinedValues(vs[1..]);
      forall i | 0 <= i < |r| ensures r[i] == "" || Some(r[i]) in vs {
        if vs[0] == Some("") || i > 0 {
          var k := if vs[0] != Some("") then i - 1 else i;
          assert r[i] == rest[k];
          assert rest[k] == "" || Some(rest[k]) in vs[1..];
        }
      }
      forall i | 0 <= i < |vs| && vs[i].Some? && vs[i].value != "" ensures vs[i].value in r {
        if i > 0 {
          assert vs[i] == vs[1..][i - 1];
        }
      }
    }
  }

  /** One option contributes its value, or `""` for a missing attribute,
      unless the value is the empty string. */
  lemma JoinedValuesSingle(v: Option<string>)
    ensures JoinedValues([v]) == if v != Some("") then [v.GetOr("")] else []
  {
    assert [v][1..] == [];
  }

  /** The strings of consecutive parts of a response come in the order of
      the parts; with `JoinedValuesSingle` this fixes the result as one
      string per kept option, in document order. */
  lemma {:induction false} JoinedValuesAppend(a: seq<Option<string>>, b: seq<Option<string>>)
    ensures JoinedValues(a + b) == JoinedValues(a) + JoinedValues(b)
  {
    if a == [] {
      assert a + b == b;
    } else {
      var head := if a[0] != Some("") then [a[0].GetOr("")] else [];
      assert (a + b)[0] == a[0];
      assert (a + b)[1..] == a[1..] + b;
      assert JoinedValues(a + b) == head + JoinedValues(a[1..] + b);
      JoinedValuesAppend(a[1..], b);
      assert JoinedValues(a) == head + JoinedValues(a[1..]);
    }
  }

  /** The option values kept from a response are one per option whose value
      is not the empty string, whatever the HTTP status. */
  lemma {:induction false} JoinedValuesCount(vs: seq<Option<string>>)
    ensures |JoinedValues(vs)| == |Filter(x => x != Some(""), vs)|
  {
    if vs != [] {
      JoinedValuesCount(vs[1..]);
    }
  }

  /** The `dest` of one option: `""` when the fetch or the body read throws;
      otherwise the joined values of whatever response arrived, whatever its
      status. */
  function Destinations(outcome: FetchOutcome): (dest: string)
    ensures !outcome.Responded? ==> dest == ""
  {
    match outcome
    case Responded(_, values) => Join(JoinedValues(values), ",")
    case _ => ""
  }

  /** When no value holds a comma and some value was kept, splitting `dest`
      on `","` gives the kept values back, one piece per kept option. */
  lemma DestinationsSplit(outcome: FetchOutcome)
    requires outcome.Responded? && |JoinedValues(outcome.values)| > 0
    requires forall v :: Some(v) in outcome.values ==> ',' !in v
    ensures Split(Destinations(outcome), ',') == JoinedValues(outcome.values)
  {
    var joined := JoinedValues(outcome.values);
    JoinedValuesSpec(outcome.values);
    forall i | 0 <= i < |joined| ensures ',' !in joined[i] {
      if joined[i] != "" {
        assert Some(joined[i]) in outcome.values;
      }
    }
    SplitJoin(joined, ',');
  }

  /** The record pushed for one kept option, or the error its display text
      throws. */
  function RecordFor(o: OptionElem, outcome: FetchOutcome): (r: Result<PortResult, ScrapeError>)
    requires o.value.Some? && IsExactId(o.value.value)
    ensures r.Ok? <==> ParseLabel(o.text).Ok?
    ensures r.Ok? ==> var l := ParseLabel(o.text).value;
      r.value == PortResult(l.name, l.code, l.city, ParseDecimal(o.value.value), Destinations(outcome))
  {
    match ParseLabel(o.text)
    case Err(e) => Err(e)
    case Ok(l) => Ok(PortResult(l.name, l.code, l.city, ParseDecimal(o.value.value), Destinations(outcome)))
  }

  /** The evaluated callback: a missing or empty token throws before any
      request; otherwise one record is pushed per kept option, in document
      order, unsorted, unless some kept option's display text throws, which
      ends the whole run with no records. */
  method Scrape(token: Option<string>, options: seq<OptionElem>, server: string -> FetchOutcome)
    returns (r: Result<seq<PortResult>, ScrapeError>)
    requires IdsAreDecimal(options)
    ensures !IsTruthy(token) ==> r == Err(TokenMissing)
    ensures IsTruthy(token) ==>
      var kept := Filter(NotEmptyAttr, options);
      && (r.Ok? <==> forall i :: 0 <= i < |kept| ==> ParseLabel(kept[i].text).Ok?)
      && (r.Err? ==> r.error == UndefinedPiece)
      && (r.Ok? ==>
            && |r.value| == |kept|
            && forall i :: 0 <= i < |kept| ==>
                 r.value[i] == RecordFor(kept[i], server(kept[i].value.value)).value)
  {
    var kept := Filter(NotEmptyAttr, options);
    if !IsTruthy(token) {
      return Err(TokenMissing);
    }
    var scraped: seq<PortResult> := [];
    for i := 0 to |kept|
      invariant |scraped| == i
      invariant forall j :: 0 <= j < i ==>
        ParseLabel(kept[j].text).Ok? &&
        scraped[j] == RecordFor(kept[j], server(kept[j].value.value)).value
    {
      var ids := kept[i].value.value;
      var b := kept[i].text;
      var dest := "";
      match server(ids) {
        case Responded(_, values) =>
          dest := Join(JoinedValues(values), ",");
        case _ =>
      }
      var parsed := ParseLabel(b);
      if parsed.Err? {
        assert 0 <= i < |kept| && !ParseLabel(kept[i].text).Ok?;
        assert kept == Filter(NotEmptyAttr, options);
        return Err(parsed.error);
      }
      assert dest == Destinations(server(ids));
      var result := PortResult(parsed.value.name, parsed.value.code, parsed.value.city, ParseDecimal(ids), dest);
      assert result == RecordFor(kept[i], server(ids)).value;
      scraped := scraped + [result];
    }
    return Ok(scraped);
  }
}
