/** The values both scrapers exchange with the portal: the `<option>`
    elements they read, the outcome of one request to the destination
    endpoint, the parsed display text of an origin, and the output record. */
module Portal {
  import opened Text

  datatype Option<+T> = None | Some(value: T) {
    function GetOr(default: T): T {
      match this
      case Some(v) => v
      case None => default
    }
  }

  datatype Result<+T, +E> = Ok(value: T) | Err(error: E)

  /** An `<option>` element: its `value` attribute, which may be absent, and
      its display text. */
  datatype OptionElem = OptionElem(value: Option<string>, text: string)

  /** What one POST to the destination endpoint ends in: a response with its
      HTTP status and the `value` attribute of every `<option>` found in the
      body, in document order; or one of the failures the HTTP client
      reports (after its own retries are spent). */
  datatype FetchOutcome =
    | Responded(status: int, values: seq<Option<string>>)
    | ConnectTimeout
    | ReadTimeout
    | RequestError
    | OtherError

  /** The three parts of an origin's display text `"City | CODE - Name"`. */
  datatype Label = Label(city: string, code: string, name: string)

  /** One output record: an origin port with its comma-joined destinations. */
  datatype PortResult = PortResult(name: string, code: string, city: string, id: nat, dest: string)

  /** Python truthiness of an optional string: present and non-empty. */
  predicate IsTruthy(v: Option<string>) {
    v.Some? && v.value != ""
  }

  /** The pieces both scrapers take out of a well-formed display text
      `c + "|" + k + "-" + n + tail`: the first `|`-piece is `c`, and the
      second `|`-piece splits on `-` into `k`, then `n`, whatever text after
      a further `|` or `-` the tail holds. */
  lemma LabelPieces(c: string, k: string, n: string, tail: string)
    requires '|' !in c && '|' !in k && '|' !in n && '-' !in k && '-' !in n
    requires tail == [] || tail[0] == '|' || tail[0] == '-'
    ensures var parts := Split(c + "|" + k + "-" + n + tail, '|');
            |parts| >= 2 && parts[0] == c &&
            var codeName := Split(parts[1], '-');
            |codeName| >= 2 && codeName[0] == k && codeName[1] == n
  {
    var x := k + "-" + n;
    assert c + "|" + k + "-" + n + tail == c + ['|'] + (x + tail);
    SplitAtFirst(c, x + tail, '|');
    SplitPrefix(x, tail, '|');
    var t0 := Split(tail, '|')[0];
    SplitHead(tail, '|');
    CodeNamePieces(k, n, t0);
  }

  /** The `-`-pieces of `k + "-" + n + t0`, where `t0` is empty or starts
      with another `-`, begin with `k` and `n`. */
  lemma CodeNamePieces(k: string, n: string, t0: string)
    requires '-' !in k && '-' !in n
    requires t0 == [] || t0[0] == '-'
    ensures var codeName := Split(k + "-" + n + t0, '-');
            |codeName| >= 2 && codeName[0] == k && codeName[1] == n
  {
    assert k + "-" + n + t0 == k + ['-'] + (n + t0);
    SplitAtFirst(k, n + t0, '-');
    SplitPrefix(n, t0, '-');
    SplitHead(t0, '-');
    assert n + Split(t0, '-')[0] == n;
  }

  /** The pieces of a display text whose second `|`-piece `seg` holds no
      `-`: the first piece is `c` and the second, split on `-`, is `seg`
      alone. */
  lemma LabelPiecesNoDash(c: string, seg: string, tail: string)
    requires '|' !in c && '|' !in seg && '-' !in seg
    requires tail == [] || tail[0] == '|'
    ensures var parts := Split(c + "|" + seg + tail, '|');
            |parts| >= 2 && parts[0] == c && parts[1] == seg && Split(parts[1], '-') == [seg]
  {
    assert c + "|" + seg + tail == c + ['|'] + (seg + tail);
    SplitAtFirst(c, seg + tail, '|');
    SplitPrefix(seg, tail, '|');
    assert Split(tail, '|')[0] == "";
    assert seg + "" == seg;
    SplitWithoutSep(seg, '-');
  }
}
