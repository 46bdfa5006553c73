/** What `fetch_and_parse` discovers on a seed page, and what it records as a
    failure. The network and the HTML parser are abstract: a fetch is given
    as its outcome, and a page as what the parser would find in it. */
module Fetching {
  import opened Text
  import opened Links

  /** The result of one `session.get`: the status with what came back, or an
      exception raised by the request. */
  datatype Outcome<+T> = Status(code: int, content: T) | TransportError

  /** An HTML document as the parser sees it: the hrefs of its anchors
      (`None` when the parser raised inside `get_files`), and its `frame`
      elements followed by its `iframe` elements, in document order (`None`
      when one of the two frame parses raised). Only the anchors of a
      frame's own document are ever looked at. */
  datatype Page = Page(anchors: Option<seq<string>>, frames: Option<seq<Frame>>)

  /** A `frame` or `iframe` element: its `src` (empty when absent) and what
      the GET of the resolved `src` returns. */
  datatype Frame = Frame(src: string, fetched: Outcome<Page>)

  /** A frame that is fetched and answers 200 contributes its file links. */
  predicate Loads(f: Frame) {
    f.src != [] && f.fetched.Status? && f.fetched.code == 200
  }

  /** A frame whose fetch raises aborts the whole `fetch_and_parse` call. */
  predicate Raises(f: Frame) {
    f.src != [] && f.fetched.TransportError?
  }

  predicate AnyRaises(frames: seq<Frame>) {
    exists i | 0 <= i < |frames| :: Raises(frames[i])
  }

  function FrameContribution(f: Frame): set<string> {
    if Loads(f) then FileLinks(f.fetched.content.anchors) else {}
  }

  /** The file links the frames of a page contribute, frame by frame. */
  function FrameLinks(frames: seq<Frame>): set<string>
    decreases |frames|
  {
    if frames == [] then {}
    else FrameLinks(frames[..|frames| - 1]) + FrameContribution(frames[|frames| - 1])
  }

  /** Something inside the `try` of `fetch_and_parse` raises after a 200:
      a frame parse, or the GET of a frame. */
  predicate FramesFail(page: Page) {
    page.frames.None? || AnyRaises(page.frames.value)
  }

  /** The set `fetch_and_parse(url)` returns, given what the GET of `url`
      returns: the page's own file links and those of its loading frames
      after a 200; nothing otherwise, and nothing once anything raised. */
  function Discovered(fetch: Outcome<Page>): set<string> {
    match fetch
    case TransportError => {}
    case Status(code, page) =>
      if code == 200 && !FramesFail(page) then FileLinks(page.anchors) + FrameLinks(page.frames.value)
      else {}
  }

  /** `failed_urls` after `fetch_and_parse(url)`: a status other than 200 and
      404 is recorded under `url`; nothing else is. */
  function PageFailures(failed: map<string, int>, url: string, fetch: Outcome<Page>): map<string, int> {
    if fetch.Status? && fetch.code != 200 && fetch.code != 404 then failed[url := fetch.code]
    else failed
  }

  /** A link comes from the frames exactly when some loading frame's anchors
      offer it as a chess file. */
  lemma {:induction false} FrameLinksMembers(frames: seq<Frame>, h: string)
    ensures h in FrameLinks(frames) <==>
      exists i | 0 <= i < |frames| :: Loads(frames[i]) && h in FileLinks(frames[i].fetched.content.anchors)
    decreases |frames|
  {
    if frames != [] {
      var init := frames[..|frames| - 1];
      FrameLinksMembers(init, h);
      assert forall i | 0 <= i < |init| :: init[i] == frames[i];
    }
  }

  /** Everything discovered is a chess-file link found on the page or in one
      of its frames. */
  lemma DiscoveredAreChessFiles(fetch: Outcome<Page>)
    ensures forall h | h in Discovered(fetch) :: IsChessFile(h)
  {
    if fetch.Status? {
      if fetch.content.frames.Some? {
        forall h | h in FrameLinks(fetch.content.frames.value) ensures IsChessFile(h) {
          FrameLinksMembers(fetch.content.frames.value, h);
        }
      }
    }
  }

  /** The status branches of `fetch_and_parse`: 200 yields the page's links
      (and its frames'); 404 yields nothing and records nothing; any other
      status yields nothing and records `url -> status`; an exception yields
      nothing and records nothing. A frame parse or frame request that
      raises discards everything, the page's own links included. */
  lemma FetchClassification(failed: map<string, int>, url: string, fetch: Outcome<Page>)
    ensures fetch.Status? && fetch.code == 200 && !FramesFail(fetch.content) ==>
      Discovered(fetch) == FileLinks(fetch.content.anchors) + FrameLinks(fetch.content.frames.value)
      && PageFailures(failed, url, fetch) == failed
    ensures fetch.Status? && fetch.code == 404 ==>
      Discovered(fetch) == {} && PageFailures(failed, url, fetch) == failed
    ensures fetch.Status? && fetch.code != 200 && fetch.code != 404 ==>
      Discovered(fetch) == {} && PageFailures(failed, url, fetch) == failed[url := fetch.code]
    ensures fetch.TransportError? ==>
      Discovered(fetch) == {} && PageFailures(failed, url, fetch) == failed
    ensures fetch.Status? && FramesFail(fetch.content) ==> Discovered(fetch) == {}
  {
  }
}
