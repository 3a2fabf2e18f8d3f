# CNN world headlines API — a Dafny model

This project models the `GET /api/articles` handler of a small Flask scraper.
The handler does these steps in order:

1. It reads `page` and `per_page` from the query, with defaults 1 and 20, and converts them with Python's `int()`.
2. It fetches `https://edition.cnn.com/world` and calls `raise_for_status()`.
3. It collects every `span.container__headline-text` of the listing.
4. It slices `headlines[(page-1)*per_page : (page-1)*per_page + per_page]`.
5. For each headline in that window, in order, it resolves the enclosing link's href and fetches the article. It builds a record only when the article has an `article__content` div. The record holds:
   - `notificationId`: `str(hash(title))`
   - `title`
   - `description`: the stripped body, cut to 200 characters plus `"..."` when the stripped body is longer than 200 characters
   - `publicationDate`: from the `timestamp` div, after "Published" or else "Updated"
   - `author`: the byline, or `"Unknown Author"`
   - `img`: the image URL
6. Any `requests` exception becomes `{"error": str(e)}` with status 500. Any other exception becomes `{"error": "An unexpected error occurred: " + str(e)}` with status 500. Records built before the exception are lost.

Modules:

- `Wrappers` (`wrappers.dfy`): `Option` and `Result`.
- `PyText` (`pytext.dfy`): the Python string behaviour the handler relies on:
  - `str.isspace` and `strip()`, and the narrower set of whitespace that `int()` skips;
  - the `in` operator and `split(sep, 1)[1]`;
  - `startswith`;
  - `str(int)`, and `int(str)` in base 10, including CPython's default limit of 4300 digits.
- `Pagination` (`pagination.dfy`): Python slice semantics for any integer bounds, and the pagination window.
- `Article` (`article.dfy`): an article page reduced to the four nodes the handler looks up, and the field rules with their fallbacks.
- `Scraper` (`scraper.dfy`): the rest of the handler:
  - headlines and links;
  - the collaborators: the listing fetch, the article fetch, `urljoin`, `hash`, and `repr`;
  - one pass of the loop (`Visit`), and the loop over the window (`Collect`);
  - the exception-to-response mapping (`Respond`), and the whole handler (`Run`, `Handle`);
  - the imperative form of the handler: `GetArticles`, `ProcessWindow` and `ProcessHeadline`, each proved equal to its specification function.

Behaviours of the handler that are easy to miss, all modelled as the code has them:

- A headline with no enclosing `<a>` makes `article_url` None. The next line calls `startswith` on it, so the whole request fails with the generic 500 message. The headline is not skipped.
- An `<a>` without `href` raises `KeyError('href')`, which is also a generic 500.
- One failing article fetch fails the whole request. No partial results are returned.
- `page` and `per_page` are not validated. Page 0 gives an empty list. A negative `per_page` on page 1 drops the last `-per_page` headlines.
- The missing-timestamp placeholder is `"Unknown Timestamp"`.
- The text after the marker is only stripped of whitespace. So `"Published: Jan 1, 2024"` gives `": Jan 1, 2024"`, not `"Jan 1, 2024"`.
- The HTTP status of an article response is not checked. Only the listing's status is.
- `int()` does not skip the information separators U+001C..U+001F, although `strip()` removes them. So `?page=%1C2` is an invalid literal, not page 2.
- A `page` or `per_page` that is a well-formed integer literal of more than 4300 digits is refused by `int()` with its own ValueError ("Exceeds the limit (4300 digits) for integer string conversion: ..."), which the handler reports under the generic prefix.
- CPython's `int()` parses the text as a C string, so a NUL ends what it reads. A well-formed run followed by a NUL is an invalid literal, except that a run of more than 4300 digits is refused for its length first. So `?per_page=` with 4301 nines and `%00` gets the digit-limit message, not the "invalid literal" one.

## Model

| member | source | states |
|---|---|---|
| PyText.Strip | cnn-scraper.py:55 | the result has no character for which `str.isspace()` holds at either end and is never longer than the input |
| PyText.StripUnique | cnn-scraper.py:63 | stripping gives the unique factor of the text that has only whitespace around it and none at its own ends (for `strip()`'s whitespace and for `int()`'s alike) |
| PyText.IntStrip | cnn-scraper.py:17-18 | what `int()` reads has none of the whitespace `int()` skips at either end: ASCII `\t`, `\n`, `\v`, `\f`, `\r` and the space, and the non-ASCII characters `str.isspace()` accepts, but not U+001C..U+001F |
| PyText.StripIdempotent | cnn-scraper.py:65 | stripping an already stripped text changes nothing |
| PyText.Find | cnn-scraper.py:64 | `pat in s` finds the first occurrence: the index it returns holds `pat` and no smaller index does; no index holds `pat` when it finds nothing |
| PyText.AfterFirst | cnn-scraper.py:65 | `split(sep, 1)[1]` is the suffix that follows an occurrence of `sep` with no earlier occurrence |
| PyText.ContainsIffOccurs | cnn-scraper.py:64 | `pat in s` holds exactly when `pat` occurs at some index of `s` |
| PyText.StartsWith | cnn-scraper.py:40 | `s.startswith(prefix)` holds exactly when `prefix` occurs at index 0 of `s` |
| PyText.IntToString | cnn-scraper.py:71 | `str(n)` is a '-' exactly when n is negative, followed by a non-empty run of decimal digits with no leading zero whose value is the absolute value of n; it has no surrounding whitespace |
| PyText.IntToStringRoundTrip | cnn-scraper.py:71 | `int(str(n)) == n` for every integer of at most 4300 digits |
| PyText.ParseInt | cnn-scraper.py:17-18 | `int(s)` refuses for length only with a digit count above 4300 and no larger than the argument; a value comes only from a text that, once `int()`'s whitespace is skipped, ends in a digit, and a negative value only from one that starts with '-' |
| PyText.ParseDigits | cnn-scraper.py:17-18 | a refusal for length reports more than 4300 digits, and never more than the text after the sign holds; a negative value comes only after a '-' sign. The rule itself (a malformed run is an invalid literal, then the digit limit, then a NUL that cut the text short is an invalid literal) is stated by ParseIntAccepts, ParseIntCut and ParseIntRejects |
| PyText.DigitScanRun | cnn-scraper.py:17-18 | the run `int()` checks is the part of the text after the sign that comes before its first NUL, less the whitespace at its end: only whitespace lies between the run and the NUL (or the end), and the run does not end in whitespace |
| PyText.ParseIntAccepts | cnn-scraper.py:17-18 | a text that is, once `int()`'s whitespace is skipped, an optional '+' or '-' and a well-formed digit run gives the signed value of the run, or the digit-limit error with the run's digit count when it has more than 4300 digits |
| PyText.ParseIntCut | cnn-scraper.py:17-18 | a text that is, once `int()`'s whitespace is skipped, an optional sign and a well-formed digit run followed by whitespace, a NUL and anything, gives the digit-limit error with the run's digit count when the run has more than 4300 digits, and an invalid literal otherwise |
| PyText.ParseIntRejects | cnn-scraper.py:17-18 | `int()` calls its argument an invalid literal exactly when the text left once its whitespace is skipped is neither an optional sign and a well-formed digit run, nor such a run of more than 4300 digits followed by whitespace, a NUL and anything |
| PyText.DigitLimitBeforeNul | cnn-scraper.py:17-18 | more than 4300 plain digits followed by a NUL are refused for their length, with their digit count, and not called an invalid literal |
| PyText.DigitLimit | cnn-scraper.py:17-18 | a string of more than 4300 plain digits is refused for its length, and the error reports its digit count |
| PyText.Truncate | cnn-scraper.py:17-18 | the repr in `int()`'s "invalid literal" message is a prefix of the full repr, cut to 200 characters |
| PyText.ParseIntIgnoresSurroundingSpace | cnn-scraper.py:17-18 | `int()` has the same outcome for an argument and for that argument with any of the whitespace `int()` skips added around it: the same value, an invalid literal, or the digit-limit error with the same count |
| PyText.StripSurrounded | cnn-scraper.py:17-18 | whitespace added around a text is stripped together with the whitespace the text had |
| PyText.SeparatorIsNotIntSpace | cnn-scraper.py:17-18 | `"\x1c5".strip()` is `"5"`, yet `int("\x1c5")` is an invalid literal: `int()` does not skip the information separators that `strip()` removes |
| Pagination.SliceBound | cnn-scraper.py:32 | a slice bound within [0, n] is kept, one above n becomes n, and a negative one counts from the end, floored at 0 |
| Pagination.PySlice | cnn-scraper.py:32 | `s[start:stop]` is the run of `s` that starts at the normalised start bound and ends at the normalised stop bound; its length is their difference, or 0 when they cross |
| Pagination.WindowIsRun | cnn-scraper.py:30-32 | for any page and per_page, the window is a run of consecutive headlines, in list order, from the normalised start bound; it is never longer than a non-negative per_page |
| Pagination.WindowIsPage | cnn-scraper.py:30-32 | for page >= 1 and per_page >= 1, the window is headlines[min(start,n)..min(start+per_page,n)]; it holds at most per_page headlines, and it is empty exactly when start >= n |
| Pagination.PagesTile | cnn-scraper.py:30-32 | pages 1..k put together are the first min(k*per_page, n) headlines, so consecutive pages neither overlap nor leave gaps |
| Pagination.NextPageFollows | cnn-scraper.py:30-32 | page k starts exactly where pages 1..k-1 end |
| Pagination.PageZeroIsEmpty | cnn-scraper.py:30-32 | page 0 is not rejected, and it yields an empty window whatever per_page is |
| Pagination.NegativePerPageDropsTail | cnn-scraper.py:30-32 | a negative per_page on page 1 is not rejected: it yields all headlines but the last -per_page, or none when there are fewer |
| Article.ImageUrl | cnn-scraper.py:47-52 | the image URL is present exactly when the image div, the `image__dam-img` img inside it and its `src` all exist, and it is then that `src` |
| Article.Author | cnn-scraper.py:54-55 | the author is the stripped byline text when the byline div exists, else "Unknown Author"; it never has whitespace at its ends |
| Article.PublicationDate | cnn-scraper.py:60-63 | the date is "Unknown Timestamp" when there is no timestamp div, and never has whitespace at its ends |
| Article.DateOfText | cnn-scraper.py:63-67 | the date read from the stripped timestamp text never has whitespace at its ends |
| Article.PublicationDateRule | cnn-scraper.py:60-67 | with a timestamp div, the date is the stripped text after the first "Published" in the stripped timestamp text; else after the first "Updated"; else "Unknown Timestamp" |
| Article.Description | cnn-scraper.py:73 | a stripped body over 200 characters gives its first 200 characters then "..." (203 in all); any other body gives the stripped body unchanged |
| Article.DescriptionBounded | cnn-scraper.py:73 | a description has at most 203 characters and starts with the first min(200, length) characters of the stripped body |
| Article.PublishedWithColon | cnn-scraper.py:64-65 | the timestamp "Published: Jan 1, 2024" gives ": Jan 1, 2024", because only whitespace is stripped after the marker |
| Article.PublishedTakesPriority | cnn-scraper.py:64-67 | when both markers occur, the date is read after "Published" |
| Scraper.ParseArg | cnn-scraper.py:17-18 | a missing argument gives its default; a present one succeeds exactly when `int()` reads a value from it, and then gives that value; otherwise it is an ordinary ValueError: "invalid literal for int() with base 10: " + the first 200 characters of repr(arg), or the digit-limit message with the digit count |
| Scraper.DigitLimitMessage | cnn-scraper.py:17-18 | the digit-limit ValueError text is a fixed prefix, then the decimal digit count, then a fixed suffix |
| Scraper.HttpErrorMessage | cnn-scraper.py:22 | `raise_for_status()` raises exactly for status codes 400 to 599, with a message that starts with the status code |
| Scraper.ResolveUrl | cnn-scraper.py:40-41 | an href that starts with "http" is used unchanged; any other href is joined with the listing URL |
| Scraper.HashRoundTrip | cnn-scraper.py:71 | every 64-bit hash value reads back from its decimal string |
| Scraper.MakeRecord | cnn-scraper.py:69-77 | a record is titled with the headline's text; its id reads back as the title's hash; its description has at most 203 characters; its author and date have no surrounding whitespace |
| Scraper.Visit | cnn-scraper.py:36-77 | a pass appends only a record titled with the headline's text, and raises a non-request exception only when the link or its href is missing |
| Scraper.VisitOutcome | cnn-scraper.py:36-77 | one pass over a headline: with no link it raises the AttributeError of `None.startswith`; with no href it raises KeyError 'href'; if the article fetch fails it raises a request exception; if the article has no body it is skipped; otherwise the record has the headline's text as title, `str(hash(title))` as id (which reads back as the hash), and the article's description, author, date and image |
| Scraper.Outcomes | cnn-scraper.py:35 | the loop visits the headlines of the window one by one, in their order |
| Scraper.Collect | cnn-scraper.py:34-77 | when the loop completes, there are never more records than headlines visited |
| Scraper.CollectExtends | cnn-scraper.py:69-77 | a pass that does not raise adds its own record, if any, after those already built |
| Scraper.CollectStopsAt | cnn-scraper.py:35-43 | once a pass raises, the loop's result is that exception, whatever the later headlines would give |
| Scraper.CollectOkIff | cnn-scraper.py:35-43 | the loop completes exactly when no pass raises |
| Scraper.FirstFailureWins | cnn-scraper.py:35-43 | the exception reported is that of the first headline whose pass raises |
| Scraper.CollectKeepsOrder | cnn-scraper.py:69-72 | a completed loop's records come one by one, in increasing position, from exactly the passes that append |
| Scraper.SourcesInOrder | cnn-scraper.py:35-72 | the positions of the passes that append are positions of the window, in increasing order, and a position is among them exactly when its pass appends |
| Scraper.CollectMatchesSources | cnn-scraper.py:69-72 | record k of a completed loop is the record appended by the k-th appending pass |
| Scraper.Respond | cnn-scraper.py:81-88 | a success gives status 200 with exactly the records built; a request exception gives status 500 with its message; any other exception gives status 500 with "An unexpected error occurred: " followed by its message |
| Scraper.Run | cnn-scraper.py:16-81 | the handler fails, in this order, with the error of `page`, else the error of `per_page`, else the request exception of a raised listing fetch, else the HTTPError of an error status; only past all of these is its result that of the loop over the page's window |
| Scraper.Handle | cnn-scraper.py:15-88 | the status is 200 or 500, and 200 only when the loop was reached |
| Scraper.GetArticles | cnn-scraper.py:15-88 | the imperative handler gives exactly the response of the specification `Handle` |
| Scraper.ProcessWindow | cnn-scraper.py:34-77 | the imperative headline loop, which appends to `articles` in place, gives exactly the specification loop's result |
| Scraper.ProcessHeadline | cnn-scraper.py:36-77 | the imperative loop body, with its step-by-step image and date updates, gives exactly the specification pass `Visit` |
| Scraper.NonIntegerPage | cnn-scraper.py:17 | a non-integer `page` fails the request with status 500: the generic prefix, the "invalid literal" text, then at most 200 characters of the argument's repr |
| Scraper.NonIntegerPerPage | cnn-scraper.py:18 | a non-integer `per_page` after an integer `page` fails the request with status 500: the generic prefix, the "invalid literal" text, then at most 200 characters of the repr of `per_page` |
| Scraper.OversizedPerPage | cnn-scraper.py:18 | a `per_page` that `int()` refuses for length (a well-formed integer literal of more than 4300 digits) fails the request with status 500 and the digit-limit text under the generic prefix |
| Scraper.ListingFailure | cnn-scraper.py:21-22 | a failed listing fetch, or an error status of the listing, fails the request with status 500 and the request exception's own message: the fetch's exception text, or the HTTPError message `raise_for_status()` builds from the status, reason and URL, which starts with the status code |
| Scraper.MissingLinkFailsRequest | cnn-scraper.py:37-40 | a windowed headline with no enclosing link, reached before any other failure, fails the request with "An unexpected error occurred: 'NoneType' object has no attribute 'startswith'" |
| Scraper.FailureDiscardsRecords | cnn-scraper.py:83-88 | if any windowed headline's pass raises, the response is an error with no records |
| Scraper.SuccessfulResponse | cnn-scraper.py:34-81 | a 200 response holds one record per windowed headline whose article has a body, in headline order, each titled with its headline's text, and never more records than windowed headlines |

## Left out

- Flask routing, `jsonify`, CORS, the logging setup and `app.run` (cnn-scraper.py:9-14, 84, 87, 90-91): these are the server wrapper and I/O. The response is modelled as a status code and a body value, not as serialised JSON.
- The network: the listing fetch and the article fetch (cnn-scraper.py:21, 43) are values and functions held in `Env`. An article fetch is a function of its URL, so two headlines that link the same URL see the same page within one request.
- HTML parsing and the `select`/`find`/`find_parent` lookups (cnn-scraper.py:24, 27, 37, 45-60) belong to BeautifulSoup. The model does not parse HTML. A listing is given as its sequence of headlines, and an article page as the `.text` of the nodes that were found.
- `requests.compat.urljoin` (cnn-scraper.py:41) does reference resolution per section 5.2 of RFC 3986. The model leaves it uninterpreted, as a function in `Env`.
- `hash(title)` (cnn-scraper.py:71) is Python's salted string hash. The model treats it as an uninterpreted function of the title alone, with a value that fits in 64 signed bits.
- `repr(arg)` inside the ValueError text of `int()` is an uninterpreted function in `Env`. The model does cut it to 200 characters, as CPython's message does.
- Scraper.ParseArg: accepts only the ASCII digits 0-9. Python's `int()` also accepts other Unicode decimal digits, and the model treats an argument made of them as a ValueError.
- Scraper.ParseArg: the digit limit is CPython's default of 4300. A limit changed with `sys.set_int_max_str_digits()` or `PYTHONINTMAXSTRDIGITS` is not modelled. The order of the checks (a malformed run, then the digit limit, then a NUL inside the text) and the message wording are those of CPython 3.12 and later. Earlier releases that have the limit count the digits before they look at what follows them, and word the message slightly differently.
- PyText.IntToString: does not model CPython's 4300-digit limit on `str()` of an integer, because the integers converted (a 64-bit hash, an HTTP status code, a digit count) have far fewer digits.
- The unused `read_duration` value and the `print('NO HEADLINES')` of the `for ... else` (cnn-scraper.py:57-58, 78-79): the first is a dead value and the second is console output.
- Other failures of the libraries themselves, such as an exception raised inside BeautifulSoup or an out-of-memory error, are not modelled. Only the exceptions the handler's own lines raise are modelled, plus the `requests` exceptions.
