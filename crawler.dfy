/** The stateful part of the scraper: the process-wide `failed_urls` map and
    the three procedures that write to it, `fetch_and_parse`, `download_file`
    and the per-seed step of the main loop. */
module Crawler {
  import opened Text
  import opened Links
  import opened Fetching
  import opened Downloading

  /** The loop over the `frame` and `iframe` elements of a page that answered
      200: each one with a `src` is fetched, and the file links of those
      answering 200 are collected. `raised` tells that a frame's GET raised,
      which abandons `fetch_and_parse` altogether. */
  method LoadFrames(frames: seq<Frame>) returns (links: set<string>, raised: bool)
    ensures raised <==> AnyRaises(frames)
    ensures !raised ==> links == FrameLinks(frames)
  {
    links := {};
    for i := 0 to |frames|
      invariant links == FrameLinks(frames[..i])
      invariant !AnyRaises(frames[..i])
    {
      var frame := frames[i];
      FramesStep(frames, i);
      if frame.src != [] {
        match frame.fetched {
          case TransportError =>
            assert Raises(frames[i]);
            return {}, true;
          case Status(frameCode, framePage) =>
            if frameCode == 200 {
              var more := GetFiles(framePage.anchors);
              links := links + more;
            }
        }
      }
    }
    assert frames[..|frames|] == frames;
    raised := false;
  }

  /** One more frame: its contribution is added, and the prefix raises when
      the frame does or an earlier one did. */
  lemma FramesStep(frames: seq<Frame>, i: nat)
    requires i < |frames|
    ensures FrameLinks(frames[..i + 1]) == FrameLinks(frames[..i]) + FrameContribution(frames[i])
    ensures AnyRaises(frames[..i + 1]) <==> AnyRaises(frames[..i]) || Raises(frames[i])
  {
    var prefix := frames[..i + 1];
    assert prefix[..i] == frames[..i];
    assert prefix[i] == frames[i];
    if AnyRaises(prefix) {
      var j :| 0 <= j < |prefix| && Raises(prefix[j]);
      if j < i {
        assert Raises(frames[..i][j]);
      }
    }
    if AnyRaises(frames[..i]) {
      var j :| 0 <= j < i && Raises(frames[..i][j]);
      assert Raises(prefix[j]);
    }
    if Raises(frames[i]) {
      assert Raises(prefix[i]);
    }
  }

  class Scraper {
    /** `failed_urls`: each URL that failed, with the last status recorded. */
    var failed: map<string, int>

    constructor ()
      ensures failed == map[]
    {
      failed := map[];
    }

    /** `fetch_and_parse(url)`, given what the GET of `url` returns. */
    method FetchAndParse(url: string, fetch: Outcome<Page>) returns (links: set<string>)
      modifies this
      ensures links == Discovered(fetch)
      ensures failed == PageFailures(old(failed), url, fetch)
    {
      match fetch {
        case TransportError =>
          return {};
        case Status(code, page) =>
          if code == 200 {
            var found := GetFiles(page.anchors);
            if page.frames.None? {
              // A frame parse raised: the whole try block is abandoned.
              return {};
            }
            var more, raised := LoadFrames(page.frames.value);
            if raised {
              return {};
            }
            links := found + more;
          } else {
            if code != 404 {
              failed := failed[url := code];
            }
            links := {};
          }
      }
    }

    /** The retry loop of `download_file` on `link`. `outcomes[i]` is what
        the GET of attempt `i` returns; only the attempts the loop makes are
        consumed. Returns how many attempts were made, the sleeps requested,
        and the response the function goes on to save, if it does not return
        early. */
    method Retry(link: string, outcomes: seq<Outcome<Reply>>)
      returns (made: nat, sleeps: seq<nat>, response: Option<Reply>)
      requires |outcomes| >= MaxRetries
      modifies this
      ensures 1 <= made <= MaxRetries
      ensures forall i | 0 <= i < made - 1 :: Continues(Decide(i, outcomes[i]))
      ensures made < MaxRetries ==> !Continues(Decide(made - 1, outcomes[made - 1]))
      ensures sleeps == Backoffs(outcomes[..made])
      ensures failed == Record(old(failed), link, outcomes[..made])
      ensures response.Some? <==> Saves(Decide(made - 1, outcomes[made - 1]))
      ensures response.Some? ==> outcomes[made - 1] == Status(outcomes[made - 1].code, response.value)
    {
      made, sleeps, response := 0, [], None;
      for attempt := 0 to MaxRetries
        invariant made == attempt
        invariant forall i | 0 <= i < attempt :: Continues(Decide(i, outcomes[i]))
        invariant sleeps == Backoffs(outcomes[..attempt])
        invariant failed == Record(old(failed), link, outcomes[..attempt])
        invariant 0 < attempt && outcomes[attempt - 1].Status? ==> response == Some(outcomes[attempt - 1].content)
      {
        made := attempt + 1;
        AttemptStep(old(failed), link, outcomes, attempt);
        match outcomes[attempt] {
          case Status(code, reply) =>
            response := Some(reply);
            if code == 200 {
              break;
            } else if code == 404 {
              failed := failed[link := 404];
              return made, sleeps, None;
            } else {
              failed := failed[link := code];
            }
          case TransportError =>
            if attempt < MaxRetries - 1 {
              sleeps := sleeps + [Pow2(attempt)];
            } else {
              return made, sleeps, None;
            }
        }
      }
      // The loop either broke on a 200 or ended after a third answer that
      // was neither 200 nor 404: either way `response` holds the last one.
    }

    /** `download_file(seed, href)`: resolve the link, run the retry loop,
        and save the response it kept. */
    method DownloadFile(lib: Library, seed: string, href: string, outcomes: seq<Outcome<Reply>>,
                        dirToken: string, nameToken: string)
      returns (made: nat, sleeps: seq<nat>, saving: Saving)
      requires |outcomes| >= MaxRetries
      modifies this
      ensures 1 <= made <= MaxRetries
      ensures forall i | 0 <= i < made - 1 :: Continues(Decide(i, outcomes[i]))
      ensures made < MaxRetries ==> !Continues(Decide(made - 1, outcomes[made - 1]))
      ensures sleeps == Backoffs(outcomes[..made])
      ensures failed == Record(old(failed), Resolve(lib, seed, href), outcomes[..made])
      ensures saving ==
        if Saves(Decide(made - 1, outcomes[made - 1]))
        then SaveAs(lib, seed, Resolve(lib, seed, href), outcomes[made - 1].content, dirToken, nameToken)
        else NoFile
    {
      var link := href;
      if !StartsWith(link, "http") {
        link := lib.urljoin(seed, link);
      }
      var response;
      made, sleeps, response := Retry(link, outcomes);
      if response.None? {
        return made, sleeps, NoFile;
      }
      saving := SaveAs(lib, seed, link, response.value, dirToken, nameToken);
    }

    /** One turn of the main loop for `seed`: a seed that itself names a chess
        file is the only link and the page is not fetched; otherwise the links
        are those `fetch_and_parse` discovers. The download phase runs only on
        a non-empty link set. */
    method VisitSeed(seed: string, page: Outcome<Page>) returns (links: set<string>, download: bool)
      modifies this
      ensures EndsWithAny(seed, ChessFiles) ==> links == {seed} && failed == old(failed)
      ensures !EndsWithAny(seed, ChessFiles) ==>
        links == Discovered(page) && failed == PageFailures(old(failed), seed, page)
      ensures download <==> links != {}
    {
      links := {seed};
      if !EndsWithAny(seed, ChessFiles) {
        links := FetchAndParse(seed, page);
      }
      download := |links| != 0;
    }
  }
}
