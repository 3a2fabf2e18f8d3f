/**
  The `/api/articles` handler: parse `page` and `per_page`, fetch the CNN world
  listing, take the page's window of headlines, visit each headline's article
  in order and build one record per article that has a body, and turn any
  exception into a 500 response that discards every record built so far.

  The network, the HTML parser, `urljoin`, Python's `hash` and `repr` are the
  collaborators gathered in `Env`; each is a total function the model does not
  look inside.
 */
module Scraper {
  import opened Wrappers
  import opened PyText
  import opened Pagination
  import opened Article

  const ListingUrl: string := "https://edition.cnn.com/world"
  const DefaultPage: int := 1
  const DefaultPerPage: int := 20
  const UnexpectedPrefix: string := "An unexpected error occurred: "
  /** `str()` of the AttributeError raised by `None.startswith(...)`. */
  const NoneHasNoStartswith: string := "'NoneType' object has no attribute 'startswith'"
  /** `str()` of the KeyError raised by `tag['href']` on a link without href. */
  const MissingHref: string := "'href'"
  const IntLiteralError: string := "invalid literal for int() with base 10: "
  /** CPython cuts the repr in the "invalid literal" message to this many characters. */
  const ReprLimit: nat := 200
  /** The ValueError text of `int()` past `MaxStrDigits` digits, around the count. */
  const DigitLimitPrefix: string := "Exceeds the limit (4300 digits) for integer string conversion: value has "
  const DigitLimitSuffix: string := " digits; use sys.set_int_max_str_digits() to increase the limit"

  /** Python's `hash` of a string: a signed 64-bit value. */
  type Hash = h: int | -0x8000_0000_0000_0000 <= h < 0x8000_0000_0000_0000

  /** The nearest enclosing `<a>` of a headline span, with its `href` if it has one. */
  datatype Link = Link(href: Option<string>)

  /** A `span.container__headline-text` of the listing: its text and its enclosing link. */
  datatype Headline = Headline(text: string, link: Option<Link>)

  /** An exception the handler catches: a `requests` exception, or any other. */
  datatype Exception = RequestException(message: string) | OtherException(message: string)

  /** `requests.get` of the listing: it raises, or it answers with a status,
      a reason phrase, the final URL and the headlines found in the page. */
  datatype ListingFetch =
    | ListingRaised(error: string)
    | ListingReply(status: int, reason: string, url: string, headlines: seq<Headline>)

  /** `requests.get` of one article: it raises, or it answers with a page
      (whatever its status: the handler does not check it). */
  datatype ArticleFetch = ArticleRaised(error: string) | ArticleReply(page: ArticlePage)

  /** The collaborators the handler calls. */
  datatype Env = Env(
    listing: ListingFetch,
    fetchArticle: string -> ArticleFetch,
    urljoin: (string, string) -> string,
    hash: string -> Hash,
    repr: string -> string)

  /** The query arguments `page` and `per_page`, if given. */
  datatype Request = Request(page: Option<string>, perPage: Option<string>)

  /** One element of the JSON array the handler returns. */
  datatype ArticleRecord = ArticleRecord(
    notificationId: string,
    title: string,
    description: string,
    publicationDate: string,
    author: string,
    img: Option<string>)

  datatype Body = Articles(items: seq<ArticleRecord>) | ErrorObject(error: string)

  datatype Response = Response(status: int, body: Body)

  /** What one pass of the headline loop does. */
  datatype Step = Skip | Append(record: ArticleRecord) | Raise(exception: Exception)

  /** The message of the ValueError `int()` raises on a run of `digits` digits
      past the limit. */
  function DigitLimitMessage(digits: nat): (m: string)
    ensures |DigitLimitPrefix| + |DigitLimitSuffix| < |m|
    ensures DigitLimitPrefix <= m && m[|DigitLimitPrefix|..|m| - |DigitLimitSuffix|] == IntToString(digits)
    ensures m[|m| - |DigitLimitSuffix|..] == DigitLimitSuffix
  {
    var m := DigitLimitPrefix + IntToString(digits) + DigitLimitSuffix;
    assert m[|DigitLimitPrefix|..|m| - |DigitLimitSuffix|] == IntToString(digits);
    assert m[|m| - |DigitLimitSuffix|..] == DigitLimitSuffix;
    m
  }

  /** `int(request.args.get(name, default))`: the default when the argument is
      absent, the parsed value when it is an integer, and otherwise the
      ValueError `int()` raises, which the handler catches as a generic
      exception. */
  function ParseArg(env: Env, arg: Option<string>, default: int): (r: Result<int, Exception>)
    ensures arg.None? ==> r == Ok(default)
    ensures arg.Some? ==> (r.Ok? <==> ParseInt(arg.value).Parsed?)
    ensures arg.Some? && ParseInt(arg.value).Parsed? ==> r == Ok(ParseInt(arg.value).value)
    ensures arg.Some? && ParseInt(arg.value).InvalidLiteral? ==>
              r == Err(OtherException(IntLiteralError + Truncate(env.repr(arg.value), ReprLimit)))
    ensures arg.Some? && ParseInt(arg.value).TooManyDigits? ==>
              r == Err(OtherException(DigitLimitMessage(ParseInt(arg.value).digits)))
  {
    match arg
    case None => Ok(default)
    case Some(s) =>
      match ParseInt(s)
      case Parsed(n) => Ok(n)
      case InvalidLiteral => Err(OtherException(IntLiteralError + Truncate(env.repr(s), ReprLimit)))
      case TooManyDigits(d) => Err(OtherException(DigitLimitMessage(d)))
  }

  /** The message of the HTTPError that `raise_for_status()` raises, if any. */
  function HttpErrorMessage(status: int, reason: string, url: string): (r: Option<string>)
    ensures r.Some? <==> 400 <= status < 600
    ensures r.Some? ==> IntToString(status) <= r.value
  {
    if 400 <= status < 500 then Some(IntToString(status) + " Client Error: " + reason + " for url: " + url)
    else if 500 <= status < 600 then Some(IntToString(status) + " Server Error: " + reason + " for url: " + url)
    else None
  }

  /** The article URL: an href starting with "http" as it is, any other joined
      with the listing URL. */
  function ResolveUrl(env: Env, href: string): (r: string)
    ensures StartsWith(href, "http") ==> r == href
    ensures !StartsWith(href, "http") ==> r == env.urljoin(ListingUrl, href)
  {
    if StartsWith(href, "http") then href else env.urljoin(ListingUrl, href)
  }

  /** `int(str(h)) == h` for every hash value: its at most 19 digits are well
      within the digit limit. */
  lemma HashRoundTrip(h: Hash)
    ensures ParseInt(IntToString(h)) == Parsed(h)
  {
    assert Pow10(19) == 10_000_000_000_000_000_000 by {
      assert Pow10(10) == 10_000_000_000;
    }
    var m: nat := if h < 0 then -(h as int) else h as int;
    NatToStringLength(m, 19);
    IntToStringRoundTrip(h);
  }

  /** The record built for a headline whose article has a body: titled with
      the headline's text, identified by a decimal string that reads back as
      the title's hash, with a description of at most 203 characters and a
      stripped author and date. */
  function MakeRecord(env: Env, title: string, page: ArticlePage): (r: ArticleRecord)
    requires page.content.Some?
    ensures r.title == title
    ensures ParseInt(r.notificationId) == Parsed(env.hash(title))
    ensures |r.description| <= DescriptionLimit + |Ellipsis|
    ensures IsStripped(r.author) && IsStripped(r.publicationDate)
  {
    HashRoundTrip(env.hash(title));
    ArticleRecord(
      IntToString(env.hash(title)),
      title,
      Description(page.content.value),
      PublicationDate(page.timestamp),
      Author(page.byline),
      ImageUrl(page.imageDiv))
  }

  /** One pass of the loop over the window. Only a missing link or href raises
      something other than a request exception, and a record is always titled
      with the headline's text. */
  function Visit(env: Env, h: Headline): (r: Step)
    ensures r.Append? ==> r.record.title == h.text
    ensures r.Raise? && r.exception.OtherException? ==> h.link.None? || h.link.value.href.None?
  {
    match h.link
    case None => Raise(OtherException(NoneHasNoStartswith))
    case Some(a) =>
      match a.href
      case None => Raise(OtherException(MissingHref))
      case Some(href) =>
        match env.fetchArticle(ResolveUrl(env, href))
        case ArticleRaised(m) => Raise(RequestException(m))
        case ArticleReply(page) =>
          if page.content.None? then Skip else Append(MakeRecord(env, h.text, page))
  }

  /** What one pass does: a headline without a link, or whose link has no
      href, raises; a failed fetch of its article raises a request exception;
      an article without a body is skipped; any other article gives a record
      whose title is the headline's text (not read from the article), whose
      id is the decimal `hash` of that title, and whose other fields come
      from the article page. */
  lemma VisitOutcome(env: Env, h: Headline)
    ensures h.link.None? ==> Visit(env, h) == Raise(OtherException(NoneHasNoStartswith))
    ensures h.link.Some? && h.link.value.href.None? ==> Visit(env, h) == Raise(OtherException(MissingHref))
    ensures h.link.Some? && h.link.value.href.Some? ==>
              var fetched := env.fetchArticle(ResolveUrl(env, h.link.value.href.value));
              var r := Visit(env, h);
              (fetched.ArticleRaised? ==> r == Raise(RequestException(fetched.error))) &&
              (fetched.ArticleReply? && fetched.page.content.None? ==> r == Skip) &&
              (fetched.ArticleReply? && fetched.page.content.Some? ==>
                 r.Append? &&
                 r.record.title == h.text &&
                 r.record.notificationId == IntToString(env.hash(h.text)) &&
                 ParseInt(r.record.notificationId) == Parsed(env.hash(h.text)) &&
                 r.record.description == Description(fetched.page.content.value) &&
                 r.record.author == Author(fetched.page.byline) &&
                 r.record.publicationDate == PublicationDate(fetched.page.timestamp) &&
                 r.record.img == ImageUrl(fetched.page.imageDiv))
  {
    HashRoundTrip(env.hash(h.text));
  }

  /** The outcome of every pass over `hs`, as if none stopped the loop. */
  function Outcomes(env: Env, hs: seq<Headline>): (steps: seq<Step>)
    ensures |steps| == |hs| && forall i :: 0 <= i < |hs| ==> steps[i] == Visit(env, hs[i])
  {
    seq(|hs|, i requires 0 <= i < |hs| => Visit(env, hs[i]))
  }

  /** The loop over the outcomes, in order: the records appended, or the
      first exception raised. */
  function Collect(steps: seq<Step>): (r: Result<seq<ArticleRecord>, Exception>)
    ensures r.Ok? ==> |r.value| <= |steps|
  {
    if steps == [] then Ok([])
    else
      match Collect(steps[..|steps| - 1])
      case Err(e) => Err(e)
      case Ok(records) =>
        match steps[|steps| - 1]
        case Raise(e) => Err(e)
        case Skip => Ok(records)
        case Append(record) => Ok(records + [record])
  }

  /** The positions whose pass appends a record, in increasing order. */
  function Sources(steps: seq<Step>): seq<nat>
  {
    if steps == [] then []
    else Sources(steps[..|steps| - 1]) + (if steps[|steps| - 1].Append? then [|steps| - 1] else [])
  }

  /** The whole handler inside its `try`, in the order it runs: the error of
      `page`, else the error of `per_page`, else the request exception of the
      listing fetch or of its error status; once all of these pass, the
      outcome of the loop over the page's window. */
  function Run(env: Env, req: Request): (r: Result<seq<ArticleRecord>, Exception>)
    ensures ReachesLoop(env, req) ==> r == Collect(Outcomes(env, WindowOf(env, req)))
    ensures var page := ParseArg(env, req.page, DefaultPage);
            page.Err? ==> r == Err(page.error)
    ensures var page, perPage := ParseArg(env, req.page, DefaultPage), ParseArg(env, req.perPage, DefaultPerPage);
            page.Ok? && perPage.Err? ==> r == Err(perPage.error)
    ensures var page, perPage := ParseArg(env, req.page, DefaultPage), ParseArg(env, req.perPage, DefaultPerPage);
            page.Ok? && perPage.Ok? && env.listing.ListingRaised? ==> r == Err(RequestException(env.listing.error))
    ensures var page, perPage := ParseArg(env, req.page, DefaultPage), ParseArg(env, req.perPage, DefaultPerPage);
            page.Ok? && perPage.Ok? && env.listing.ListingReply? &&
            HttpErrorMessage(env.listing.status, env.listing.reason, env.listing.url).Some? ==>
              r == Err(RequestException(HttpErrorMessage(env.listing.status, env.listing.reason, env.listing.url).value))
  {
    match ParseArg(env, req.page, DefaultPage)
    case Err(e) => Err(e)
    case Ok(page) =>
      match ParseArg(env, req.perPage, DefaultPerPage)
      case Err(e) => Err(e)
      case Ok(perPage) =>
        match env.listing
        case ListingRaised(m) => Err(RequestException(m))
        case ListingReply(status, reason, url, headlines) =>
          match HttpErrorMessage(status, reason, url)
          case Some(m) => Err(RequestException(m))
          case None => Collect(Outcomes(env, Window(headlines, page, perPage)))
  }

  /** The two `except` clauses and the success path. */
  function Respond(result: Result<seq<ArticleRecord>, Exception>): (r: Response)
    ensures r.status == 200 <==> result.Ok?
    ensures r.status == 200 || r.status == 500
    ensures result.Ok? ==> r.body == Articles(result.value)
    ensures result.Err? && result.error.RequestException? ==> r.body == ErrorObject(result.error.message)
    ensures result.Err? && result.error.OtherException? ==>
              r.body.ErrorObject? && UnexpectedPrefix <= r.body.error &&
              r.body.error[|UnexpectedPrefix|..] == result.error.message
  {
    match result
    case Ok(records) => Response(200, Articles(records))
    case Err(RequestException(m)) => Response(500, ErrorObject(m))
    case Err(OtherException(m)) => Response(500, ErrorObject(UnexpectedPrefix + m))
  }

  /** The response of `GET /api/articles`: 200 or 500, and 200 only when the
      handler reached its headline loop. */
  function Handle(env: Env, req: Request): (r: Response)
    ensures r.status == 200 || r.status == 500
    ensures r.status == 200 ==> ReachesLoop(env, req)
  {
    Respond(Run(env, req))
  }

  /** `get_articles`, step by step as the handler runs it. */
  method GetArticles(env: Env, req: Request) returns (resp: Response)
    ensures resp == Handle(env, req)
  {
    var page := ParseArg(env, req.page, DefaultPage);
    if page.Err? {
      return Respond(Err(page.error));
    }
    var perPage := ParseArg(env, req.perPage, DefaultPerPage);
    if perPage.Err? {
      return Respond(Err(perPage.error));
    }
    var response := env.listing;
    if response.ListingRaised? {
      return Respond(Err(RequestException(response.error)));
    }
    var httpError := HttpErrorMessage(response.status, response.reason, response.url);
    if httpError.Some? {
      return Respond(Err(RequestException(httpError.value)));
    }
    var headlines := response.headlines;
    var start := (page.value - 1) * perPage.value;
    var end := start + perPage.value;
    var toProcess := PySlice(headlines, start, end);
    assert toProcess == Window(headlines, page.value, perPage.value);
    var result := ProcessWindow(env, toProcess);
    assert result == Run(env, req);
    resp := Respond(result);
  }

  /** The loop over the headlines of the window: the records of the articles
      that have a body, in headline order, or the first exception raised. */
  method ProcessWindow(env: Env, toProcess: seq<Headline>) returns (result: Result<seq<ArticleRecord>, Exception>)
    ensures result == Collect(Outcomes(env, toProcess))
  {
    ghost var steps := Outcomes(env, toProcess);
    var articles: seq<ArticleRecord> := [];
    var i := 0;
    while i < |toProcess|
      invariant 0 <= i <= |toProcess|
      invariant Collect(steps[..i]) == Ok(articles)
    {
      var step := ProcessHeadline(env, toProcess[i]);
      assert step == steps[i];
      if step.Raise? {
        CollectStopsAt(steps, i);
        return Err(step.exception);
      }
      CollectExtends(steps, i, articles);
      if step.Append? {
        articles := articles + [step.record];
      }
      i := i + 1;
    }
    assert steps[..i] == steps;
    result := Ok(articles);
  }

  /** The body of the loop for one headline. */
  method ProcessHeadline(env: Env, headline: Headline) returns (step: Step)
    ensures step == Visit(env, headline)
  {
    var title := headline.text;
    var articleUrl: Option<string> := None;
    if headline.link.Some? {
      if headline.link.value.href.None? {
        return Raise(OtherException(MissingHref));
      }
      articleUrl := headline.link.value.href;
    }
    if articleUrl.None? {
      return Raise(OtherException(NoneHasNoStartswith));
    }
    var url := articleUrl.value;
    if !StartsWith(url, "http") {
      url := env.urljoin(ListingUrl, url);
    }
    var fetched := env.fetchArticle(url);
    if fetched.ArticleRaised? {
      return Raise(RequestException(fetched.error));
    }
    var doc := fetched.page;
    var content := doc.content;

    var imageUrl: Option<string> := None;
    if doc.imageDiv.Some? {
      var img := doc.imageDiv.value;
      if img.Some? {
        imageUrl := img.value;
      }
    }
    assert imageUrl == ImageUrl(doc.imageDiv);

    var authors := Author(doc.byline);

    var inspectedDate := UnknownTimestamp;
    if doc.timestamp.Some? {
      var timestampText := Strip(doc.timestamp.value);
      if Contains(timestampText, Published) {
        inspectedDate := Strip(AfterFirst(timestampText, Published));
      } else if Contains(timestampText, Updated) {
        inspectedDate := Strip(AfterFirst(timestampText, Updated));
      }
    }
    assert inspectedDate == PublicationDate(doc.timestamp);

    if content.Some? {
      step := Append(ArticleRecord(
        IntToString(env.hash(title)),
        title,
        Description(content.value),
        inspectedDate,
        authors,
        imageUrl));
    } else {
      step := Skip;
    }
  }

  /** A pass that does not raise extends the records by its own, if any. */
  lemma CollectExtends(steps: seq<Step>, i: nat, records: seq<ArticleRecord>)
    requires i < |steps| && Collect(steps[..i]) == Ok(records) && !steps[i].Raise?
    ensures Collect(steps[..i + 1]) == Ok(if steps[i].Append? then records + [steps[i].record] else records)
  {
    assert steps[..i + 1][..i] == steps[..i];
  }

  /** Once a pass raises, the loop ends with that exception, whatever follows. */
  lemma {:induction false} CollectStopsAt(steps: seq<Step>, i: nat)
    requires i < |steps| && Collect(steps[..i]).Ok? && steps[i].Raise?
    ensures Collect(steps) == Err(steps[i].exception)
    decreases |steps|
  {
    var n := |steps|;
    if i == n - 1 {
      assert steps[..n - 1] == steps[..i];
    } else {
      assert steps[..n - 1][..i] == steps[..i];
      CollectStopsAt(steps[..n - 1], i);
    }
  }

  /** The loop completes exactly when no pass raises. */
  lemma {:induction false} CollectOkIff(steps: seq<Step>)
    ensures Collect(steps).Ok? <==> forall i :: 0 <= i < |steps| ==> !steps[i].Raise?
    decreases |steps|
  {
    if steps != [] {
      var n := |steps|;
      CollectOkIff(steps[..n - 1]);
      assert forall i :: 0 <= i < n - 1 ==> steps[..n - 1][i] == steps[i];
    }
  }

  /** The exception reported is the one of the first pass that raises: one
      failing headline aborts the batch and all records built before it are lost. */
  lemma FirstFailureWins(env: Env, hs: seq<Headline>, i: nat)
    requires i < |hs| && Visit(env, hs[i]).Raise?
    requires forall j :: 0 <= j < i ==> !Visit(env, hs[j]).Raise?
    ensures Collect(Outcomes(env, hs)) == Err(Visit(env, hs[i]).exception)
  {
    var steps := Outcomes(env, hs);
    CollectOkIff(steps[..i]);
    assert forall j :: 0 <= j < i ==> steps[..i][j] == steps[j];
    CollectStopsAt(steps, i);
  }

  /** When the loop completes, record `k` was appended by the pass at
      position `Sources[k]`; these positions increase, and they are exactly the
      passes that append. */
  lemma CollectKeepsOrder(steps: seq<Step>)
    requires Collect(steps).Ok?
    ensures var records, src := Collect(steps).value, Sources(steps);
            |src| == |records| &&
            (forall k :: 0 <= k < |src| ==> src[k] < |steps| && steps[src[k]] == Append(records[k])) &&
            (forall k, l :: 0 <= k < l < |src| ==> src[k] < src[l]) &&
            (forall i :: 0 <= i < |steps| ==> (i in src <==> steps[i].Append?))
  {
    SourcesInOrder(steps);
    CollectMatchesSources(steps);
  }

  /** The positions of the appending passes, in increasing order, each once. */
  lemma SourcesInOrder(steps: seq<Step>)
    ensures var src := Sources(steps);
            (forall k :: 0 <= k < |src| ==> src[k] < |steps|) &&
            (forall k, l :: 0 <= k < l < |src| ==> src[k] < src[l]) &&
            (forall i :: 0 <= i < |steps| ==> (i in src <==> steps[i].Append?))
  {
    SourcesIncrease(steps);
    SourcesExact(steps);
  }

  /** The positions in `Sources` are positions of `steps`, in increasing order. */
  lemma {:induction false} SourcesIncrease(steps: seq<Step>)
    ensures forall k :: 0 <= k < |Sources(steps)| ==> Sources(steps)[k] < |steps|
    ensures forall k, l :: 0 <= k < l < |Sources(steps)| ==> Sources(steps)[k] < Sources(steps)[l]
    decreases |steps|
  {
    if steps != [] {
      var n := |steps|;
      var prefix := steps[..n - 1];
      SourcesIncrease(prefix);
      var before, src := Sources(prefix), Sources(steps);
      assert forall k :: 0 <= k < |before| ==> before[k] < |prefix|;
      assert forall k :: 0 <= k < |before| ==> src[k] == before[k];
    }
  }

  /** A position is in `Sources` exactly when its pass appends. */
  lemma {:induction false} SourcesExact(steps: seq<Step>)
    ensures forall i :: 0 <= i < |steps| ==> (i in Sources(steps) <==> steps[i].Append?)
    decreases |steps|
  {
    if steps != [] {
      var n := |steps|;
      var prefix := steps[..n - 1];
      SourcesExact(prefix);
      SourcesIncrease(prefix);
      assert forall i :: 0 <= i < n - 1 ==> prefix[i] == steps[i];
      var before := Sources(prefix);
      assert forall k :: 0 <= k < |before| ==> before[k] < |prefix|;
    }
  }

  /** Record `k` of a completed loop is the one appended by pass `Sources[k]`. */
  lemma {:induction false} CollectMatchesSources(steps: seq<Step>)
    requires Collect(steps).Ok?
    ensures var records, src := Collect(steps).value, Sources(steps);
            |src| == |records| &&
            forall k :: 0 <= k < |src| ==> src[k] < |steps| && steps[src[k]] == Append(records[k])
    decreases |steps|
  {
    if steps != [] {
      var n := |steps|;
      var prefix := steps[..n - 1];
      CollectMatchesSources(prefix);
      assert forall i :: 0 <= i < n - 1 ==> prefix[i] == steps[i];
    }
  }

  /** The arguments parse and the listing is fetched without error, so the
      handler reaches its headline loop. */
  predicate ReachesLoop(env: Env, req: Request)
  {
    ParseArg(env, req.page, DefaultPage).Ok? &&
    ParseArg(env, req.perPage, DefaultPerPage).Ok? &&
    env.listing.ListingReply? &&
    HttpErrorMessage(env.listing.status, env.listing.reason, env.listing.url).None?
  }

  /** The headlines the loop runs over. */
  function WindowOf(env: Env, req: Request): seq<Headline>
    requires ReachesLoop(env, req)
  {
    Window(env.listing.headlines,
           ParseArg(env, req.page, DefaultPage).value,
           ParseArg(env, req.perPage, DefaultPerPage).value)
  }

  /** A `page` argument that is not an integer: `int()` raises ValueError,
      which is no request exception, so the message gets the generic prefix,
      followed by at most 200 characters of the argument's repr. (`per_page` is
      parsed after `page` and is not looked at.) */
  lemma NonIntegerPage(env: Env, req: Request)
    requires req.page.Some? && ParseInt(req.page.value).InvalidLiteral?
    ensures Handle(env, req) ==
            Response(500, ErrorObject(UnexpectedPrefix + IntLiteralError + Truncate(env.repr(req.page.value), ReprLimit)))
  {
  }

  /** A `per_page` that is not an integer, after a `page` that is: the same
      generic 500, with the repr of `per_page`. */
  lemma NonIntegerPerPage(env: Env, req: Request)
    requires ParseArg(env, req.page, DefaultPage).Ok?
    requires req.perPage.Some? && ParseInt(req.perPage.value).InvalidLiteral?
    ensures Handle(env, req) ==
            Response(500, ErrorObject(UnexpectedPrefix + IntLiteralError + Truncate(env.repr(req.perPage.value), ReprLimit)))
  {
    var perPage := ParseArg(env, req.perPage, DefaultPerPage);
    assert perPage == Err(OtherException(IntLiteralError + Truncate(env.repr(req.perPage.value), ReprLimit)));
    assert Run(env, req) == Err(perPage.error);
  }

  /** A `per_page` that `int()` refuses for length (a well-formed run of more
      than 4300 digits) fails the request with the digit limit's ValueError,
      under the generic prefix. */
  lemma OversizedPerPage(env: Env, req: Request)
    requires ParseArg(env, req.page, DefaultPage).Ok?
    requires req.perPage.Some? && ParseInt(req.perPage.value).TooManyDigits?
    ensures var d := ParseInt(req.perPage.value).digits;
            d > MaxStrDigits &&
            Handle(env, req) == Response(500, ErrorObject(UnexpectedPrefix + DigitLimitMessage(d)))
  {
  }

  /** A failure of the listing fetch, or an error status of the listing, is a
      request exception: the message is the exception's own text. */
  lemma ListingFailure(env: Env, req: Request)
    requires ParseArg(env, req.page, DefaultPage).Ok? && ParseArg(env, req.perPage, DefaultPerPage).Ok?
    requires env.listing.ListingRaised? || 400 <= env.listing.status < 600
    ensures Handle(env, req).status == 500 && Handle(env, req).body.ErrorObject?
    ensures env.listing.ListingRaised? ==> Handle(env, req).body.error == env.listing.error
    ensures env.listing.ListingReply? ==>
              Handle(env, req) ==
              Response(500, ErrorObject(HttpErrorMessage(env.listing.status, env.listing.reason, env.listing.url).value))
    ensures env.listing.ListingReply? ==> IntToString(env.listing.status) <= Handle(env, req).body.error
  {
  }

  /** A headline without an enclosing link, reached before any other failure,
      fails the whole request with the AttributeError of `None.startswith`. */
  lemma MissingLinkFailsRequest(env: Env, req: Request, i: nat)
    requires ReachesLoop(env, req)
    requires i < |WindowOf(env, req)| && WindowOf(env, req)[i].link.None?
    requires forall j :: 0 <= j < i ==> !Visit(env, WindowOf(env, req)[j]).Raise?
    ensures Handle(env, req) == Response(500, ErrorObject(UnexpectedPrefix + NoneHasNoStartswith))
  {
    FirstFailureWins(env, WindowOf(env, req), i);
  }

  /** Any headline of the window whose pass raises (no link, no href, or a
      failed article fetch) turns the response into an error: no record at all
      is returned, whatever the other headlines give. */
  lemma FailureDiscardsRecords(env: Env, req: Request, i: nat)
    requires ReachesLoop(env, req)
    requires i < |WindowOf(env, req)| && Visit(env, WindowOf(env, req)[i]).Raise?
    ensures Handle(env, req).status == 500 && Handle(env, req).body.ErrorObject?
  {
    var steps := Outcomes(env, WindowOf(env, req));
    CollectOkIff(steps);
    assert steps[i].Raise?;
  }

  /** A successful response is the list built by the loop: one record for
      each headline of the window whose article has a body, in headline order,
      never more records than windowed headlines, each record titled with its
      headline's text. */
  lemma SuccessfulResponse(env: Env, req: Request)
    requires Handle(env, req).status == 200
    ensures ReachesLoop(env, req) && Handle(env, req).body.Articles?
    ensures var window, records := WindowOf(env, req), Handle(env, req).body.items;
            var src := Sources(Outcomes(env, window));
            |records| == |src| <= |window| &&
            (forall i :: 0 <= i < |window| ==> !Visit(env, window[i]).Raise?) &&
            (forall k :: 0 <= k < |src| ==>
               src[k] < |window| && Visit(env, window[src[k]]) == Append(records[k]) &&
               records[k].title == window[src[k]].text) &&
            (forall k, l :: 0 <= k < l < |src| ==> src[k] < src[l]) &&
            (forall i :: 0 <= i < |window| ==> (i in src <==> Visit(env, window[i]).Append?))
  {
    var window := WindowOf(env, req);
    var steps := Outcomes(env, window);
    CollectOkIff(steps);
    CollectKeepsOrder(steps);
    var records, src := Collect(steps).value, Sources(steps);
    forall k | 0 <= k < |src|
      ensures records[k].title == window[src[k]].text
    {
      VisitOutcome(env, window[src[k]]);
    }
  }
}
