# Pelni port scraper — a Dafny model

The repository collects the ports of the Indonesian ferry operator Pelni and,
for each origin port, the ids of the ports reachable from it. Two scrapers do
the same job. `scraper.py` (class `PelniScraperWithSession`) reads the
anti-forgery token, the cookies and the origin `<option>`s from a browser
page. It then POSTs one request per origin to the destination endpoint with
an HTTP session, and sorts the records by id before saving them. `scrape.ts`
runs the same loop inside the page with `fetch` and saves the records
unsorted.

This project models the deterministic core of both scrapers and proves its
properties:

- the split of an option's display text `"City | CODE - Name"` into city,
  code and name: total in Python, throwing in TypeScript;
- the selection of origin options by their `value` attribute;
- the extraction of destination values from a response and the mapping of
  failures to "no destinations";
- one record per origin, in order;
- the stable sort by id;
- the token guard.

The browser, the HTTP client and the HTML parser are replaced by the values
they deliver:

- an `OptionElem` is an optional `value` attribute plus display text, one
  string that stands for both Selenium's `opt.text` and the browser's
  `innerText`;
- a `FetchOutcome` is a response (status plus the optional `value` of every
  `<option>` in the body) or one of the failures the HTTP client reports;
- `server: string -> FetchOutcome` gives the outcome of the request that
  posts a given `ticket_org` string.

Files:

- `text.dfy` (module `Text`): `split`, `join`, `strip`/`trim` and decimal
  conversion of ids, with their laws.
- `seqs.dfy` (module `Seqs`): order-preserving filtering, and insertion sort
  by a key with its stability.
- `portal.dfy` (module `Portal`): the values exchanged with the portal, and
  the pieces of a well-formed display text.
- `scraper_py.dfy` (module `PyScraper`): `scraper.py`. Its pure parts are
  functions; the scraper object is the class `Scraper`, with the `results`
  list, the token, the cookie jar and the headers as fields. The loop
  methods are proved against the specification functions `OriginPorts` and
  `Records`.
- `scrape_ts.dfy` (module `TsScrape`): the callback `scrape.ts` evaluates in
  the page, as a method with a loop.
- `agreement.dfy` (module `Agreement`): where the two scrapers agree, and
  concrete inputs on which they differ.

Ids are restricted to strings of decimal digits, so `int(value)` is the
plain conversion `ParseDecimal` and `str(id)` is `Decimal`. On the TypeScript
side ids are further restricted to at most 15 digits (`TsScrape.IsExactId`):
`parseInt` yields an IEEE double, and every such id is below `2^53`
(`TsScrape.ExactIdIsSafeInteger`), so `parseInt(value)` is `ParseDecimal`
there too. Whitespace trimming uses one ASCII whitespace predicate for both
`str.strip()` and `String.prototype.trim()`.

## Where the two scrapers differ

The differences are proved as concrete lemmas in `agreement.dfy`:

- Display text without `|`: Python falls back to an empty code and
  name = city, the whole text trimmed. Display text whose second
  `|`-piece has no `-`: Python takes that piece trimmed as the code and
  the city as the name. In both cases TypeScript raises a `TypeError`
  outside its `try`, which ends the whole run with no records.
- A destination option with no `value` attribute: Python's
  `opt.get("value")` gives `None` and the comprehension skips it. The
  TypeScript filter `getAttribute("value") != ""` keeps it, and
  `Array.join` writes the `null` as an empty piece, so the result is
  `"A,,B"` where Python gives `"A,B"`. Among the origin options the same
  filter keeps a `null` attribute too.
- A non-200 response: Python stores `""`. TypeScript never reads the
  status, so it joins whatever options the body holds.
- The posted `ticket_org`: Python posts `str(int(value))`, TypeScript the raw
  attribute. The two differ on a value with a leading zero (`"07"` against
  `"7"`).

Apart from these cases, and given the same display texts and the same
response values, the records Python appends are the records TypeScript
pushes, position by position (`Agreement.RunsAgree`). The two programs read
those through different readers (see `Agreement.RunsAgree` under
"## Left out"), so in practice they may differ there too.

## Model

| member | source | states |
|---|---|---|
| Text.TrimSpec | scraper.py:84-89 | the stripped text is a contiguous piece of the input with only whitespace around it, is no longer than the input, neither starts nor ends with whitespace, and is empty exactly when the input is all whitespace |
| Text.TrimIdempotent | scraper.py:84-89 | stripping a stripped text changes nothing |
| Text.Split | scraper.py:83-87 | `split` on one character gives one more piece than there are separators |
| Text.SplitPiecesFree | scraper.py:83-87 | no piece of a split contains the separator |
| Text.SplitAtFirst | scraper.py:83-87 | the text before the first separator is the first piece, and the text after it is split on its own |
| Text.JoinSplit | scraper.py:119 | joining the pieces of a split with the separator restores the text |
| Text.SplitJoin | scraper.py:165 | splitting the join of separator-free items gives the items back |
| Text.JoinEmpty | scraper.py:159-164 | a join is empty exactly when there is nothing to join, or only one empty item |
| Text.Decimal | scraper.py:103 | `str(n)` is a non-empty digit string that starts with `0` only for zero, and has one digit exactly for n < 10 |
| Text.ParseDecimalBound | scrape.ts:74 | a string of k digits denotes a number below 10 to the power k |
| Text.ParseDecimalOfDecimal | scraper.py:95-103 | `int(str(n)) == n` |
| Text.DecimalOfParseDecimal | scraper.py:95-103 | `str(int(s)) == s` for a digit string without a leading zero, so on such a value Python posts the same `ticket_org` as TypeScript |
| Seqs.FilterMembers | scraper.py:79-81 | a filter keeps exactly the elements that pass the test |
| Seqs.FilterAppend | scrape.ts:28 | filtering commutes with concatenation, so the kept options stay in document order |
| Seqs.SortByOrdered | scraper.py:175 | sorting by key gives a sequence ordered by key |
| Seqs.SortByPermutation | scraper.py:175 | sorting by key gives a permutation of the input |
| Seqs.SortByStable | scraper.py:175 | for every key, the elements with that key keep their relative order, and none is lost or added |
| Portal.LabelPieces | scraper.py:83-89 | for `c`, a pipe, `k`, a dash and `n` followed by a tail that starts with a pipe or a dash, the first pipe-piece is `c` and the second splits on dash into `k` then `n` |
| Portal.LabelPiecesNoDash | scraper.py:86-89 | for `c`, a pipe and `seg` where `seg` has no dash, the second pipe-piece is `seg` and splits on dash into `seg` alone |
| PyScraper.ParseLabelWellFormed | scraper.py:83-89 | well-formed text gives city, code and name trimmed, and text after a second pipe or dash is ignored |
| PyScraper.ParseLabelNoPipe | scraper.py:90-92 | with no pipe, the code is empty and the name is the city, which is the whole text trimmed |
| PyScraper.ParseLabelNoDash | scraper.py:86-89 | with a pipe but no dash in its second piece, the code is that piece trimmed and the name is the city |
| PyScraper.OriginPortsAppend | scraper.py:79-96 | the ports of a concatenation are the ports of each part, in order |
| PyScraper.OriginPortsAreKeptOptions | scraper.py:79-96 | exactly the options with a truthy value yield a port, one each, in document order, with `id = int(value)` and the parsed text |
| PyScraper.PresentValuesSpec | scraper.py:116-117 | every extracted value is a non-empty value of the response, and every non-empty value is extracted |
| PyScraper.PresentValuesSingle | scraper.py:117 | one value is extracted exactly when it is truthy |
| PyScraper.PresentValuesAppend | scraper.py:116-117 | the values extracted from a concatenation are those of each part, in order, so the comprehension keeps document order |
| PyScraper.FetchDestinations | scraper.py:110-132 | a string comes back exactly for a status-200 response; another status, a timeout, a request error or any other exception give `None` |
| PyScraper.RecordFor | scraper.py:152-160 | the record copies name, code, city and id, and `dest` is the joined present values on status 200, or `""` otherwise |
| PyScraper.Records | scraper.py:143-162 | one record per port |
| PyScraper.RecordsIndex | scraper.py:143-162 | the record at each position is the one for the port at that position, fetched with `str(id)` |
| PyScraper.DestinationCount | scraper.py:164-166 | when no value holds a comma, `dest` is truthy exactly when some value was present, and `len(dest.split(","))` is the number of present values |
| PyScraper.CookieJarKeys | scraper.py:56-58 | the jar built from the cookies has one entry per cookie name |
| PyScraper.CookieJarLastWins | scraper.py:56-58 | a name holds the value of the last cookie of that name |
| PyScraper.Scraper.constructor | scraper.py:22-27 | a new scraper has no results, no token, an empty jar and no headers |
| PyScraper.Scraper.GetInitialData | scraper.py:48-72 | an absent or empty token fails before the jar and the headers change; otherwise the cookies and the fixed headers are added and the token is returned |
| PyScraper.Scraper.GetOriginPorts | scraper.py:74-98 | the loop returns `OriginPorts(options)` |
| PyScraper.Scraper.AppendRecords | scraper.py:143-162 | the loop appends `Records(ports, server)` to `results` and leaves the earlier records in place |
| PyScraper.Scraper.ScrapeAllPorts | scraper.py:134-162 | a missing token changes no results, cookies or headers; otherwise one record per origin port is appended, in order, whatever its fetch gave |
| PyScraper.Scraper.SaveResults | scraper.py:172-180 | `results` becomes the stable sort of the old results by id, and the file name, by default `pelni-destinations.json`, is returned |
| TsScrape.ParseLabel | scrape.ts:66-68 | the only error the parse raises is the `TypeError` for a missing piece |
| TsScrape.ParseLabelThrows | scrape.ts:66-68 | the parse throws exactly when the text has no pipe or its second pipe-piece has no dash |
| TsScrape.ParseLabelWellFormed | scrape.ts:66-68 | well-formed text gives city, code and name trimmed |
| TsScrape.JoinedValuesSpec | scrape.ts:54-57 | every joined string is a value of the response or the `""` written for a missing attribute, and every present value other than `""` is joined |
| TsScrape.JoinedValuesSingle | scrape.ts:55-56 | one value is kept unless it is `""`, and a missing attribute is kept as `""` |
| TsScrape.JoinedValuesAppend | scrape.ts:54-57 | the strings joined for a concatenation are those of each part, in order, so `filter` and `map` keep document order |
| TsScrape.JoinedValuesCount | scrape.ts:54-56 | one string is joined per value that is not `""`, a missing attribute included |
| TsScrape.Destinations | scrape.ts:39-64 | a fetch or body read that throws leaves `dest` as `""` |
| TsScrape.DestinationsSplit | scrape.ts:54-57 | when no value holds a comma, splitting `dest` on `,` gives the joined values back |
| TsScrape.ExactIdIsSafeInteger | scrape.ts:74 | an id of at most 15 digits denotes at most `Number.MAX_SAFE_INTEGER`, so the double `parseInt` returns is exact |
| TsScrape.RecordFor | scrape.ts:66-76 | a record exists exactly when the display text parses, and it carries the parsed label, `parseInt(value)` and the option's `dest` |
| TsScrape.Scrape | scrape.ts:27-81 | a missing or empty token throws; otherwise the run succeeds exactly when every kept option's text parses, and then pushes one record per kept option, in document order, unsorted |
| Agreement.LabelsAgree | scrape.ts:66-68 | whenever the TypeScript parse does not throw, both parsers give the same city, code and name |
| Agreement.LabelsDifferNoPipe | scraper.py:90-92 | on `"Ambon"` TypeScript throws, while Python gives city and name `"Ambon"` and an empty code |
| Agreement.LabelsDifferNoDash | scraper.py:86-89 | on `"Ambon"`, a pipe and `"AMQ"` TypeScript throws, while Python gives code `"AMQ"` and name `"Ambon"` |
| Agreement.ValuesAgree | scrape.ts:54-57 | with every value attribute present, both scrapers extract the same values |
| Agreement.DestinationsAgree | scrape.ts:54-57 | on a failure, or a status-200 response with every attribute present, both scrapers store the same `dest` |
| Agreement.NullValueDiffers | scrape.ts:54-57 | with a missing attribute between `A` and `B`, TypeScript stores `"A,,B"` and Python `"A,B"` |
| Agreement.StatusDiffers | scrape.ts:50-57 | on a 404 response TypeScript stores the joined values and Python `""` |
| Agreement.TicketsDiffer | scraper.py:103 | on the value `"07"` Python posts `"7"`, which differs from the `"07"` TypeScript posts |
| Agreement.KeptOptionsAgree | scrape.ts:28 | with every value attribute present, both scrapers keep the same origin options |
| Agreement.RunsAgree | scrape.ts:36-79 | with every attribute present, canonical ids of at most 15 digits, parseable texts and comparable outcomes, the Python records equal the TypeScript records position by position |

## Left out

- Browser automation: opening the page, waiting for the selector, reading attributes and cookies (SeleniumBase), and Puppeteer's launch, navigation and close. The page is given as its token, cookies and options.
- The HTTP client: the session, the POST, the connect and read timeouts, and the `Retry`/`HTTPAdapter` policy with backoff, as well as `fetch`. Each request is given by its final outcome through `server`.
- `server` is a function of the posted `ticket_org`. A run that asks for the same id twice and gets different answers is not modelled.
- HTML parsing (BeautifulSoup, `innerHTML`, `querySelectorAll`). A response is the sequence of its options' `value` attributes.
- Sleeps, progress printing and the duration timing, which uses floating point.
- JSON serialisation and the file write in `save_results` and at the end of `scrape.ts`. The model states what is written: the sorted `results`.
- PyScraper.IdsAreDecimal: `int(value)` on a value that is not a digit string raises `ValueError` in Python. The model requires digit-only ids and does not model that error. Nor does it model the `ValueError` that Python 3.11 and later raise from `int()` and `str()` on more than 4300 digits.
- PyScraper.HasValue: an origin option's `value` stands for what Selenium's `get_attribute("value")` returns (`scraper.py:80`). For an `<option>` without the attribute, that is the DOM `value` property, which is the option's text, not `None`. Such an option is therefore not skipped, and `int(text)` may raise. The model treats a missing attribute as `None`. `Agreement.RunsAgree` requires every origin option to carry a value, so the agreement it states does not depend on this.
- TsScrape.RecordFor: `parseInt` yields an IEEE double, which rounds integers above `2^53`. The model admits only ids of at most 15 digits (`TsScrape.IsExactId`), which convert exactly. Longer ids, and the rounded `id` they would produce, are not modelled.
- TsScrape.IdsAreDecimal: `parseInt` on a missing attribute (`NaN`, and `ticket_org=null` in the body) and on non-digit text is not modelled. The model requires every kept option to have a digit-only value.
- Text.IsSpace: only ASCII whitespace is trimmed. Python's `strip()` and JavaScript's `trim()` also remove other Unicode spaces, and they do not remove exactly the same set.
- PyScraper.Scraper.GetInitialData: the cookie update is a dictionary override. The domain and path handling of the `requests` cookie jar is not modelled.
- PyScraper.Scraper.constructor: the session's headers start empty. The default headers `requests` puts on a new session are not modelled.
- PyScraper.Scraper.SaveResults: `list.sort` works in place on the list object. The model assigns the sorted sequence to the field, so aliasing of that list is not captured.
- Agreement.RunsAgree: both scrapers are given the same display text for an option and the same `value` list for a response, although they read them differently. Python takes Selenium's `WebElement.text` (`scraper.py:82`) and parses the response with BeautifulSoup's `html.parser` (`scraper.py:114-117`). TypeScript takes the browser's `innerText` (`scrape.ts:38`) and parses the response through `innerHTML` (`scrape.ts:51-54`). These can give different strings, for example for runs of whitespace or non-breaking spaces inside a piece, since only the ends of each piece are trimmed. The agreement, and `Agreement.DestinationsAgree` with it, holds only where the readers give the same strings.
- TsScrape.Scrape: a request is keyed by the value string, so the request body's concatenation `"ticket_org=" + ids + "&_token=" + token` is not modelled. Where the token is read relative to the options makes no difference in the model, since reading the page has no effect.
