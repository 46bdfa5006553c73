/** Runs of the scraper on small concrete sequences of answers, for any
    absolute link and any behaviour of the library calls. Each is a client of
    the `Scraper` contracts: it sees only their `ensures` clauses, so each
    shows that those contracts pin the behaviour down on that input. */
module Scenarios {
  import opened Text
  import opened Sanitizer
  import opened Links
  import opened Fetching
  import opened Downloading
  import opened Crawler

  /** A response with no `content-disposition` header. */
  function Plain(code: int, body: seq<bv8>): Outcome<Reply> {
    Status(code, Reply(None, body))
  }

  /** Three answers that are errors other than 404: three attempts, no
      sleep, the last status recorded, and the third answer is still saved. */
  method ServerErrorEveryTime(lib: Library, seed: string, link: string, os: seq<Outcome<Reply>>,
                              dirToken: string, nameToken: string)
    returns (made: nat, sleeps: seq<nat>, saving: Saving, failed: map<string, int>)
    requires StartsWith(link, "http")
    requires |os| == MaxRetries
    requires forall i | 0 <= i < |os| :: os[i].Status? && os[i].code != 200 && os[i].code != 404
    ensures made == 3 && sleeps == []
    ensures saving == SaveAs(lib, seed, link, os[2].content, dirToken, nameToken)
    ensures failed == map[link := os[2].code]
  {
    var s := new Scraper();
    made, sleeps, saving := s.DownloadFile(lib, seed, link, os, dirToken, nameToken);
    assert made == 3 by {
      assert Continues(Decide(made - 1, os[made - 1]));
    }
    assert os[..3] == os;
    assert sleeps == [] by {
      BackoffSchedule(os);
    }
    assert s.failed == map[link := os[2].code] by {
      RecordKeepsLastError(map[], link, os);
    }
    failed := s.failed;
  }

  /** Three exceptions: three attempts, sleeps of 1 and 2 seconds, nothing
      written and nothing recorded. */
  method TransportErrorEveryTime(lib: Library, seed: string, link: string, dirToken: string, nameToken: string) returns (made: nat, sleeps: seq<nat>, saving: Saving, failed: map<string, int>)
    requires StartsWith(link, "http")
    ensures made == 3 && sleeps == [1, 2]
    ensures saving == NoFile
    ensures failed == map[]
  {
    var s := new Scraper();
    var os: seq<Outcome<Reply>> := [TransportError, TransportError, TransportError];
    made, sleeps, saving := s.DownloadFile(lib, seed, link, os, dirToken, nameToken);
    assert made == 3 by {
      assert Continues(Decide(0, os[0])) && Continues(Decide(1, os[1]));
    }
    assert os[..3] == os;
    assert os[..3][..2] == [TransportError, TransportError];
    assert os[..3][..2][..1] == [TransportError];
    assert Backoffs([TransportError]) == [1];
    assert Backoffs([TransportError, TransportError]) == [1, 2];
    assert !Saves(Decide(2, os[2]));
    RecordKeepsLastError(map[], link, os);
    failed := s.failed;
  }

  /** An error other than 404 and then a 200: two attempts, the 200 saved,
      and the earlier error stays recorded. */
  method ErrorThenSuccess(lib: Library, seed: string, link: string, os: seq<Outcome<Reply>>,
                          dirToken: string, nameToken: string)
    returns (made: nat, sleeps: seq<nat>, saving: Saving, failed: map<string, int>)
    requires StartsWith(link, "http")
    requires |os| >= MaxRetries
    requires os[0].Status? && os[0].code != 200 && os[0].code != 404
    requires os[1].Status? && os[1].code == 200
    ensures made == 2 && sleeps == []
    ensures saving == SaveAs(lib, seed, link, os[1].content, dirToken, nameToken)
    ensures failed == map[link := os[0].code]
  {
    var s := new Scraper();
    made, sleeps, saving := s.DownloadFile(lib, seed, link, os, dirToken, nameToken);
    assert made == 2 by {
      assert Decide(0, os[0]) == HttpError(os[0].code);
      assert Decide(1, os[1]) == Succeeded;
    }
    assert os[..0] == [];
    AttemptStep(map[], link, os, 0);
    AttemptStep(map[], link, os, 1);
    failed := s.failed;
  }

  /** A 404 on the first attempt: one attempt, nothing written, the 404
      recorded. */
  method NotFoundAtOnce(lib: Library, seed: string, link: string, body: seq<bv8>, dirToken: string, nameToken: string) returns (made: nat, sleeps: seq<nat>, saving: Saving, failed: map<string, int>)
    requires StartsWith(link, "http")
    ensures made == 1 && sleeps == []
    ensures saving == NoFile
    ensures failed == map[link := 404]
  {
    var s := new Scraper();
    var os := [Plain(404, body), Plain(200, body), Plain(200, body)];
    made, sleeps, saving := s.DownloadFile(lib, seed, link, os, dirToken, nameToken);
    assert made == 1 by {
      assert !Continues(Decide(0, os[0]));
    }
    assert os[..1] == [Plain(404, body)];
    BackoffSchedule(os[..1]);
    assert IsErrorStatus(os[..1][0]);
    RecordKeepsLastError(map[], link, os[..1]);
    failed := s.failed;
  }

  /** A page answering 200 whose anchors repeat a game, link a web page and
      have an empty href: the game alone is discovered, nothing recorded. */
  method PageWithOneGame(url: string, stem: string) returns (links: set<string>, failed: map<string, int>)
    ensures links == {stem + ".pgn"}
    ensures failed == map[]
  {
    var game, web := stem + ".pgn", stem + ".html";
    var s := new Scraper();
    var page := Page(Some([game, web, game, ""]), Some([]));
    links := s.FetchAndParse(url, Status(200, page));
    assert IsChessFile(game) by {
      EverySuffixKept(stem, 0);
    }
    HtmlAndUpperCaseExcluded(stem);
    assert FileLinks(page.anchors) == {game} by {
      assert forall h | h in page.anchors.value :: h == game || h == web || h == "";
    }
    failed := s.failed;
  }

  /** A frame whose request raises discards the page's own links too. */
  method RaisingFrameLosesEverything(url: string) returns (links: set<string>)
    ensures links == {}
  {
    var s := new Scraper();
    var page := Page(Some(["a.pgn"]), Some([Frame("menu.html", TransportError)]));
    links := s.FetchAndParse(url, Status(200, page));
    assert Raises(page.frames.value[0]);
  }

  /** A page whose frame parse raises loses its own links as well. */
  method UnparsableFramesLoseEverything(url: string, game: string) returns (links: set<string>)
    ensures links == {}
  {
    var s := new Scraper();
    links := s.FetchAndParse(url, Status(200, Page(Some([game]), None)));
  }
}
