/**
 * The fetch unit and batch fetcher of `day2/src/async_crawler.py`, with the
 * network and the HTML parser replaced by inputs: each URL comes with the
 * `Response` the transport produced, and `parse` stands for BeautifulSoup,
 * giving what each CSS selector would find in a page.
 */
module AsyncCrawler {
  import opened Wrappers
  import opened Text

  /** Pages longer than this many characters are cut before parsing. */
  const MaxHtml := 1_000_000
  const TitleCap := 200
  const ContainerCap := 10000
  const ParagraphCap := 10000
  const PageTextCap := 5000
  /** `to_dict` keeps only this much of the content, as a summary. */
  const SummaryCap := 500
  /** The title of a page on which no title selector matches ("no title"). */
  const NoTitle := "无标题"

  const TitleSelectors: seq<string> :=
    ["h1.article-title", "h1.entry-title", "h1.post-title", "h1", "title", ".article-header h1"]
  const ContainerSelectors: seq<string> :=
    ["article", "main", ".article-content", ".post-content", ".entry-content", "[role=\"main\"]"]

  /** A fetched page; `status` is the HTTP status, `fetchedAt` the clock reading in seconds. */
  datatype Article = Article(title: string, url: string, content: string, fetchedAt: int, status: int)

  /** The dictionary `Article.to_dict` builds. */
  datatype ArticleDict = ArticleDict(title: string, url: string, content: string, fetchedAt: int, status: int)

  /** One `<p>` element: its raw text and its text with whitespace stripped. */
  datatype Paragraph = Paragraph(text: string, strippedText: string)

  /**
   * What the parser finds in a page. `titleText(sel)` is the stripped text of the
   * first tag matching `sel` for the title selectors, `containerText(sel)` the
   * newline-joined text of the first matching container once the noise elements
   * are removed, both `None` when nothing matches; `paragraphs` are the `<p>`
   * elements and `pageText` the text of the whole page.
   */
  datatype Page = Page(
    titleText: string -> Option<string>,
    containerText: string -> Option<string>,
    paragraphs: seq<Paragraph>,
    pageText: string)

  /**
   * What the transport produced for one URL: a timeout, any other exception
   * (connection failure, a failure while reading or parsing), or a response
   * with its status and body; `at` is the clock reading when the article is built.
   */
  datatype Response = TimedOut | Raised | Answered(status: int, body: string, at: int)

  /** `Article.to_dict`: every field copied except the content, which is cut to a summary. */
  function ToDict(a: Article): (d: ArticleDict)
    ensures d.title == a.title && d.url == a.url && d.fetchedAt == a.fetchedAt && d.status == a.status
    ensures |d.content| <= |a.content| && |d.content| <= SummaryCap && d.content == a.content[..|d.content|]
    ensures |a.content| <= SummaryCap ==> d.content == a.content
    ensures |a.content| > SummaryCap ==> |d.content| == SummaryCap
  {
    ArticleDict(a.title, a.url, Prefix(a.content, SummaryCap), a.fetchedAt, a.status)
  }

  /** The value of the first key in `keys` that `lookup` maps to something. */
  function FirstMatch(keys: seq<string>, lookup: string -> Option<string>): Option<string>
  {
    if keys == [] then None
    else if lookup(keys[0]).Some? then lookup(keys[0])
    else FirstMatch(keys[1..], lookup)
  }

  /** `FirstMatch` finds nothing exactly when no key matches, and otherwise the first match. */
  lemma {:induction false} FirstMatchSpec(keys: seq<string>, lookup: string -> Option<string>)
    ensures var r := FirstMatch(keys, lookup);
      (r.None? <==> forall i :: 0 <= i < |keys| ==> lookup(keys[i]).None?)
      && (r.Some? ==> exists i :: 0 <= i < |keys| && lookup(keys[i]) == r
                                  && forall j :: 0 <= j < i ==> lookup(keys[j]).None?)
  {
    if keys != [] && lookup(keys[0]).None? {
      FirstMatchSpec(keys[1..], lookup);
      assert forall i :: 1 <= i < |keys| ==> keys[i] == keys[1..][i - 1];
      var r := FirstMatch(keys, lookup);
      if r.Some? {
        var i :| 0 <= i < |keys[1..]| && lookup(keys[1..][i]) == r
                  && forall j :: 0 <= j < i ==> lookup(keys[1..][j]).None?;
        assert lookup(keys[i + 1]) == r;
      }
    }
  }

  /** The title `_extract_title` gives a page. */
  function TitleOf(page: Page): string
  {
    match FirstMatch(TitleSelectors, page.titleText)
    case Some(t) => Prefix(t, TitleCap)
    case None => NoTitle
  }

  /** Index of the first paragraph with the longest raw text, as Python's `max` picks it. */
  function Longest(ps: seq<Paragraph>): (k: nat)
    requires |ps| > 0
    ensures k < |ps|
    ensures forall j :: 0 <= j < |ps| ==> |ps[j].text| <= |ps[k].text|
    ensures forall j :: 0 <= j < k ==> |ps[j].text| < |ps[k].text|
  {
    if |ps| == 1 then 0
    else
      var k := Longest(ps[..|ps| - 1]);
      assert forall j :: 0 <= j < |ps| - 1 ==> ps[j] == ps[..|ps| - 1][j];
      if |ps[|ps| - 1].text| > |ps[k].text| then |ps| - 1 else k
  }

  /** The content `_extract_content` gives a page. */
  function ContentOf(page: Page): string
  {
    match FirstMatch(ContainerSelectors, page.containerText)
    case Some(t) => Prefix(t, ContainerCap)
    case None =>
      if page.paragraphs != [] then Prefix(page.paragraphs[Longest(page.paragraphs)].strippedText, ParagraphCap)
      else Prefix(page.pageText, PageTextCap)
  }

  /** Where the title comes from: the first matching selector's text cut to 200, else "无标题". */
  lemma TitleSource(page: Page)
    ensures var t := TitleOf(page);
      (exists i :: 0 <= i < |TitleSelectors| && page.titleText(TitleSelectors[i]).Some?
         && (forall j :: 0 <= j < i ==> page.titleText(TitleSelectors[j]).None?)
         && t == Prefix(page.titleText(TitleSelectors[i]).value, TitleCap))
      || ((forall i :: 0 <= i < |TitleSelectors| ==> page.titleText(TitleSelectors[i]).None?) && t == NoTitle)
  {
    var r := FirstMatch(TitleSelectors, page.titleText);
    FirstMatchSpec(TitleSelectors, page.titleText);
    if r.Some? {
      var i :| 0 <= i < |TitleSelectors| && page.titleText(TitleSelectors[i]) == r
                && forall j :: 0 <= j < i ==> page.titleText(TitleSelectors[j]).None?;
    }
  }

  /**
   * The content fallback chain: the first matching container cut to 10000; else
   * the first longest paragraph cut to 10000; else the page text cut to 5000.
   */
  lemma ContentSource(page: Page)
    ensures var c := ContentOf(page);
      (exists i :: 0 <= i < |ContainerSelectors| && page.containerText(ContainerSelectors[i]).Some?
         && (forall j :: 0 <= j < i ==> page.containerText(ContainerSelectors[j]).None?)
         && c == Prefix(page.containerText(ContainerSelectors[i]).value, ContainerCap))
      || ((forall i :: 0 <= i < |ContainerSelectors| ==> page.containerText(ContainerSelectors[i]).None?)
          && page.paragraphs != []
          && exists k :: 0 <= k < |page.paragraphs|
               && (forall j :: 0 <= j < |page.paragraphs| ==> |page.paragraphs[j].text| <= |page.paragraphs[k].text|)
               && (forall j :: 0 <= j < k ==> |page.paragraphs[j].text| < |page.paragraphs[k].text|)
               && c == Prefix(page.paragraphs[k].strippedText, ParagraphCap))
      || ((forall i :: 0 <= i < |ContainerSelectors| ==> page.containerText(ContainerSelectors[i]).None?)
          && page.paragraphs == [] && c == Prefix(page.pageText, PageTextCap))
  {
    var r := FirstMatch(ContainerSelectors, page.containerText);
    FirstMatchSpec(ContainerSelectors, page.containerText);
    if r.Some? {
      var i :| 0 <= i < |ContainerSelectors| && page.containerText(ContainerSelectors[i]) == r
                && forall j :: 0 <= j < i ==> page.containerText(ContainerSelectors[j]).None?;
    } else if page.paragraphs != [] {
      var k := Longest(page.paragraphs);
      assert ContentOf(page) == Prefix(page.paragraphs[k].strippedText, ParagraphCap);
    }
  }

  /** What `fetch_one` returns for one URL. */
  function Outcome(url: string, resp: Response, parse: string -> Page): Option<Article>
  {
    match resp
    case TimedOut => None
    case Raised => None
    case Answered(status, body, at) =>
      if status != 200 then Some(Article("", url, "", at, status))
      else
        var page := parse(Prefix(body, MaxHtml));
        Some(Article(TitleOf(page), url, ContentOf(page), at, 200))
  }

  /** Whether an outcome is one `fetch_many` keeps: an article with status 200. */
  predicate Fetched(r: Option<Article>)
  {
    r.Some? && r.value.status == 200
  }

  /** The outcome is a kept article exactly when the response was a 200. */
  lemma FetchedIffOk(url: string, resp: Response, parse: string -> Page)
    ensures Fetched(Outcome(url, resp, parse)) <==> resp.Answered? && resp.status == 200
    ensures Outcome(url, resp, parse).Some? ==> Outcome(url, resp, parse).value.url == url
  {
  }

  /**
   * A non-200 response gives an article with that status and no title or content;
   * a timeout or exception gives no article.
   */
  lemma FailureOutcomes(url: string, resp: Response, parse: string -> Page)
    ensures resp.Answered? && resp.status != 200 ==>
      Outcome(url, resp, parse) == Some(Article("", url, "", resp.at, resp.status))
    ensures !resp.Answered? ==> Outcome(url, resp, parse) == None
  {
  }

  /**
   * The parser only ever sees the first 1,000,000 characters: two bodies that agree
   * on them give the same outcome, and a shorter body reaches the parser unchanged.
   */
  lemma BodyCutBeforeParsing(url: string, status: int, b1: string, b2: string, at: int, parse: string -> Page)
    requires Prefix(b1, MaxHtml) == Prefix(b2, MaxHtml)
    ensures Outcome(url, Answered(status, b1, at), parse) == Outcome(url, Answered(status, b2, at), parse)
    ensures |b1| <= MaxHtml ==> Prefix(b1, MaxHtml) == b1
    ensures |b1| > MaxHtml ==> Prefix(b1, MaxHtml) == b1[..MaxHtml]
  {
  }

  /** The per-URL results `gather` collects, in URL order. */
  function Outcomes(urls: seq<string>, resps: seq<Response>, parse: string -> Page): (rs: seq<Option<Article>>)
    requires |resps| == |urls|
    ensures |rs| == |urls|
    ensures forall i :: 0 <= i < |urls| ==> rs[i] == Outcome(urls[i], resps[i], parse)
  {
    seq(|urls|, i requires 0 <= i < |urls| => Outcome(urls[i], resps[i], parse))
  }

  /** The articles `fetch_many` keeps from the per-URL results, in order. */
  function Successful(rs: seq<Option<Article>>): (r: seq<Article>)
    ensures |r| <= |rs|
  {
    if rs == [] then []
    else (if Fetched(rs[0]) then [rs[0].value] else []) + Successful(rs[1..])
  }

  /** `r` is `rs` with some entries dropped and the rest kept in order, unwrapped. */
  predicate Embeds(r: seq<Article>, rs: seq<Option<Article>>)
    decreases |rs|
  {
    if r == [] then true
    else if rs == [] then false
    else (rs[0] == Some(r[0]) && Embeds(r[1..], rs[1..])) || Embeds(r, rs[1..])
  }

  /** How many of the results are kept articles. */
  function CountFetched(rs: seq<Option<Article>>): nat
  {
    if rs == [] then 0 else (if Fetched(rs[0]) then 1 else 0) + CountFetched(rs[1..])
  }

  /**
   * `fetch_many` keeps exactly the status-200 articles: each one is a status-200
   * result, their number is the number of such results (so at most one per URL),
   * and they keep the order of the results.
   */
  lemma {:induction false} SuccessfulProperties(rs: seq<Option<Article>>)
    ensures forall a :: a in Successful(rs) ==> a.status == 200 && Some(a) in rs
    ensures |Successful(rs)| == CountFetched(rs) <= |rs|
    ensures Embeds(Successful(rs), rs)
  {
    if rs != [] {
      SuccessfulProperties(rs[1..]);
      var tail := Successful(rs[1..]);
      if Fetched(rs[0]) {
        assert Successful(rs) == [rs[0].value] + tail;
        assert Successful(rs)[1..] == tail;
        assert rs[0] == Some(Successful(rs)[0]);
        assert Embeds(Successful(rs)[1..], rs[1..]);
      } else {
        assert Successful(rs) == tail;
        EmbedsSkip(tail, rs);
      }
      assert forall x :: x in rs[1..] ==> x in rs;
    }
  }

  lemma EmbedsSkip(r: seq<Article>, rs: seq<Option<Article>>)
    requires rs != [] && Embeds(r, rs[1..])
    ensures Embeds(r, rs)
  {
  }

  /** Every URL's result is either kept or counted as a failure, never both. */
  lemma {:induction false} CountFetchedAppend(rs: seq<Option<Article>>, r: Option<Article>)
    ensures CountFetched(rs + [r]) == CountFetched(rs) + (if Fetched(r) then 1 else 0)
    ensures Successful(rs + [r]) == Successful(rs) + (if Fetched(r) then [r.value] else [])
  {
    if rs != [] {
      assert (rs + [r])[1..] == rs[1..] + [r];
      CountFetchedAppend(rs[1..], r);
    } else {
      assert [r][1..] == [];
    }
  }

  /** The crawler's `stats` counters and its two fetch operations. */
  class Crawler {
    var success: nat
    var failed: nat

    constructor ()
      ensures success == 0 && failed == 0
    {
      success, failed := 0, 0;
    }

    /** `_extract_title`: the selectors in order, the first that matches wins. */
    static method ExtractTitle(page: Page) returns (title: string)
      ensures title == TitleOf(page)
    {
      var i := 0;
      while i < |TitleSelectors|
        invariant 0 <= i <= |TitleSelectors|
        invariant FirstMatch(TitleSelectors, page.titleText) == FirstMatch(TitleSelectors[i..], page.titleText)
      {
        var tag := page.titleText(TitleSelectors[i]);
        if tag.Some? {
          return Prefix(tag.value, TitleCap);
        }
        assert TitleSelectors[i..][1..] == TitleSelectors[i + 1..];
        i := i + 1;
      }
      return NoTitle;
    }

    /** `_extract_content`: containers first, then the longest paragraph, then the page text. */
    static method ExtractContent(page: Page) returns (content: string)
      ensures content == ContentOf(page)
    {
      var i := 0;
      while i < |ContainerSelectors|
        invariant 0 <= i <= |ContainerSelectors|
        invariant FirstMatch(ContainerSelectors, page.containerText)
               == FirstMatch(ContainerSelectors[i..], page.containerText)
      {
        var container := page.containerText(ContainerSelectors[i]);
        if container.Some? {
          return Prefix(container.value, ContainerCap);
        }
        assert ContainerSelectors[i..][1..] == ContainerSelectors[i + 1..];
        i := i + 1;
      }
      if page.paragraphs != [] {
        var longest := page.paragraphs[Longest(page.paragraphs)];
        return Prefix(longest.strippedText, ParagraphCap);
      }
      return Prefix(page.pageText, PageTextCap);
    }

    /**
     * `fetch_one`: classifies one response and bumps exactly one counter, `success`
     * on the status-200 path and `failed` on every other.
     */
    method FetchOne(url: string, resp: Response, parse: string -> Page) returns (r: Option<Article>)
      modifies this
      ensures r == Outcome(url, resp, parse)
      ensures success == old(success) + (if Fetched(r) then 1 else 0)
      ensures failed == old(failed) + (if Fetched(r) then 0 else 1)
    {
      match resp {
        case TimedOut =>
          failed := failed + 1;
          return None;
        case Raised =>
          failed := failed + 1;
          return None;
        case Answered(status, body, at) =>
          if status != 200 {
            failed := failed + 1;
            return Some(Article("", url, "", at, status));
          }
          var html := body;
          if |html| > MaxHtml {
            html := html[..MaxHtml];
          }
          assert html == Prefix(body, MaxHtml);
          var page := parse(html);
          var title := ExtractTitle(page);
          var content := ExtractContent(page);
          success := success + 1;
          return Some(Article(title, url, content, at, 200));
      }
    }

    /**
     * `fetch_many`: one `fetch_one` per URL, then the status-200 articles in order.
     * Every URL adds one to `success + failed`; `success` grows by the number kept.
     */
    method FetchMany(urls: seq<string>, resps: seq<Response>, parse: string -> Page) returns (articles: seq<Article>)
      requires |resps| == |urls|
      modifies this
      ensures articles == Successful(Outcomes(urls, resps, parse))
      ensures success == old(success) + |articles|
      ensures failed == old(failed) + (|urls| - |articles|)
    {
      var results: seq<Option<Article>> := [];
      var i := 0;
      while i < |urls|
        invariant 0 <= i <= |urls|
        invariant results == Outcomes(urls, resps, parse)[..i]
        invariant success == old(success) + CountFetched(results)
        invariant failed == old(failed) + (i - CountFetched(results))
        invariant CountFetched(results) <= i
      {
        var r := FetchOne(urls[i], resps[i], parse);
        assert CountFetched(results + [r]) == CountFetched(results) + (if Fetched(r) then 1 else 0) by {
          CountFetchedAppend(results, r);
        }
        assert Outcomes(urls, resps, parse)[..i + 1] == results + [r];
        results := results + [r];
        i := i + 1;
      }
      assert results == Outcomes(urls, resps, parse);
      articles := KeepFetched(results);
      assert |articles| == CountFetched(results) by {
        SuccessfulProperties(results);
      }
    }

    /** The filter loop of `fetch_many`: keep each result that is an article with status 200. */
    static method KeepFetched(results: seq<Option<Article>>) returns (articles: seq<Article>)
      ensures articles == Successful(results)
    {
      articles := [];
      var k := 0;
      while k < |results|
        invariant 0 <= k <= |results|
        invariant articles == Successful(results[..k])
      {
        var r := results[k];
        CountFetchedAppend(results[..k], r);
        if r.Some? && r.value.status == 200 {
          articles := articles + [r.value];
        }
        assert results[..k + 1] == results[..k] + [r];
        k := k + 1;
      }
      assert results[..k] == results;
    }
  }
}
