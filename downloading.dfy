/** The decisions of `download_file`: what each attempt leads to, what ends up
    in `failed_urls`, which back-off sleeps are requested, and where a
    response is saved. The retry loop itself is `Crawler.Scraper.DownloadFile`. */
module Downloading {
  import opened Text
  import opened Sanitizer
  import opened Fetching

  /** `max_retries`. */
  const MaxRetries: nat := 3

  /** What a download response carries besides its status: the value of its
      `content-disposition` header, if present, and its body. */
  datatype Reply = Reply(disposition: Option<string>, body: seq<bv8>)

  /** The library calls `download_file` makes whose semantics are not
      modelled: `urlparse(url).netloc`, `urljoin` and the two text
      normalisations inside `sanitize_filename`. */
  datatype Library = Library(
    netloc: string -> string,
    urljoin: (string, string) -> string,
    norm: Normalizer)

  /** What one attempt of the retry loop leads to. */
  datatype Step =
    | Succeeded            // 200: leave the loop and save
    | NotFound             // 404: record it and return
    | HttpError(code: int) // any other status: record it and go on
    | Backoff(seconds: nat) // an exception with attempts left: sleep, then go on
    | GiveUp               // an exception on the last attempt: return

  /** What `download_file` leaves on disk: nothing, a file, or (when the
      `content-disposition` header has no `filename=`) an `IndexError` raised
      after the directory was created. */
  datatype Saving =
    | NoFile
    | Written(dir: string, name: string, body: seq<bv8>)
    | HeaderError(dir: string)

  function Pow2(n: nat): nat {
    if n == 0 then 1 else 2 * Pow2(n - 1)
  }

  /** Lines 113 to 126 for attempt number `attempt` (counting from 0). */
  function Decide(attempt: nat, o: Outcome<Reply>): Step {
    match o
    case Status(code, _) =>
      if code == 200 then Succeeded
      else if code == 404 then NotFound
      else HttpError(code)
    case TransportError =>
      if attempt < MaxRetries - 1 then Backoff(Pow2(attempt)) else GiveUp
  }

  /** The loop goes on to the next attempt after this step. */
  predicate Continues(s: Step) {
    s.HttpError? || s.Backoff?
  }

  /** The response is saved when the loop ends on this step. */
  predicate Saves(s: Step) {
    s.Succeeded? || s.HttpError?
  }

  /** `failed_urls` after the attempts `os` on `link`: every status other than
      200 overwrites the entry for `link`; a 200 or an exception leaves it. */
  function Record(failed: map<string, int>, link: string, os: seq<Outcome<Reply>>): map<string, int>
    decreases |os|
  {
    if os == [] then failed
    else
      var before := Record(failed, link, os[..|os| - 1]);
      match os[|os| - 1]
      case Status(code, _) => if code == 200 then before else before[link := code]
      case TransportError => before
  }

  /** The sleeps requested during the attempts `os`, in order. */
  function Backoffs(os: seq<Outcome<Reply>>): seq<nat>
    decreases |os|
  {
    if os == [] then []
    else
      var i := |os| - 1;
      Backoffs(os[..i]) + match Decide(i, os[i]) { case Backoff(s) => [s] case _ => [] }
  }

  /** `url_to_dir` on the host `urlparse` found. */
  function UrlToDir(host: string): (dir: string)
    ensures StartsWith(host, "www.") ==> "www." + dir == host
    ensures !StartsWith(host, "www.") ==> dir == host
  {
    if StartsWith(host, "www.") then host[4..] else host
  }

  /** Lines 107 and 108: a link that does not start with `http` is joined to
      the seed URL. */
  function Resolve(lib: Library, seed: string, href: string): string {
    if StartsWith(href, "http") then href else lib.urljoin(seed, href)
  }

  /** Lines 128 to 140, once the loop has kept `reply`: the directory comes
      from the seed's host, the file name from `content-disposition` when the
      header is there and from the link's last path segment otherwise. */
  function SaveAs(lib: Library, seed: string, link: string, reply: Reply, dirToken: string, nameToken: string): (s: Saving)
    ensures !s.NoFile?
  {
    var fileDir := Sanitize(lib.norm, UrlToDir(lib.netloc(seed)), dirToken);
    match reply.disposition
    case None => Written(fileDir, Sanitize(lib.norm, LastSegment(link), nameToken), reply.body)
    case Some(value) =>
      var parts := Split(value, "filename=");
      if |parts| < 2 then HeaderError(fileDir)
      else Written(fileDir, Sanitize(lib.norm, parts[1], nameToken), reply.body)
  }

  predicate IsErrorStatus(o: Outcome<Reply>) {
    o.Status? && o.code != 200
  }

  /** What one more attempt adds to `Record` and to `Backoffs`. */
  lemma AttemptStep(failed: map<string, int>, link: string, os: seq<Outcome<Reply>>, i: nat)
    requires i < |os|
    ensures Record(failed, link, os[..i + 1]) ==
      if IsErrorStatus(os[i]) then Record(failed, link, os[..i])[link := os[i].code]
      else Record(failed, link, os[..i])
    ensures Backoffs(os[..i + 1]) ==
      Backoffs(os[..i]) + if Decide(i, os[i]).Backoff? then [Decide(i, os[i]).seconds] else []
  {
    assert os[..i + 1][..i] == os[..i];
  }

  // ---------------------------------------------------------------------
  // Host to directory

  /** Exactly one leading `www.` is removed: `www.www.x` becomes `www.x`. */
  lemma UrlToDirStripsOnce(h: string)
    ensures UrlToDir("www." + h) == h
    ensures UrlToDir("www.www.x") == "www.x"
  {
    assert ("www." + h)[..4] == "www.";
    assert "www.www.x"[..4] == "www.";
  }

  // ---------------------------------------------------------------------
  // The failure map

  /** `failed_urls` changes only under `link`. */
  lemma {:induction false} RecordOnlyTouchesLink(failed: map<string, int>, link: string, os: seq<Outcome<Reply>>)
    ensures forall k | k != link :: (k in Record(failed, link, os) <==> k in failed)
    ensures forall k | k != link && k in failed :: Record(failed, link, os)[k] == failed[k]
    decreases |os|
  {
    if os != [] {
      RecordOnlyTouchesLink(failed, link, os[..|os| - 1]);
    }
  }

  /** Attempts that never answered an error status leave the map as it was. */
  lemma {:induction false} RecordNoError(failed: map<string, int>, link: string, os: seq<Outcome<Reply>>)
    requires forall j | 0 <= j < |os| :: !IsErrorStatus(os[j])
    ensures Record(failed, link, os) == failed
    decreases |os|
  {
    if os != [] {
      var init := os[..|os| - 1];
      assert forall j | 0 <= j < |init| :: init[j] == os[j];
      RecordNoError(failed, link, init);
      assert !IsErrorStatus(os[|os| - 1]);
    }
  }

  /** After the last attempt `j` that answered an error status, the entry for
      `link` is that status, whatever came before. */
  lemma {:induction false} RecordLastError(failed: map<string, int>, link: string, os: seq<Outcome<Reply>>, j: nat)
    requires j < |os| && IsErrorStatus(os[j])
    requires forall k | j < k < |os| :: !IsErrorStatus(os[k])
    ensures Record(failed, link, os) == failed[link := os[j].code]
    decreases |os|
  {
    var i := |os| - 1;
    var init := os[..i];
    assert forall k | 0 <= k < |init| :: init[k] == os[k];
    var before := Record(failed, link, init);
    if j == i {
      assert Record(failed, link, os) == before[link := os[i].code];
      RecordOnlyTouchesLink(failed, link, init);
      assert before[link := os[i].code] == failed[link := os[i].code];
    } else {
      assert !IsErrorStatus(os[i]);
      assert Record(failed, link, os) == before;
      RecordLastError(failed, link, init, j);
    }
  }

  /** The entry for `link` is the status of the last attempt that answered
      with something other than 200; with no such attempt nothing is recorded.
      So a later 200 or a later exception does not clear an earlier failure. */
  lemma RecordKeepsLastError(failed: map<string, int>, link: string, os: seq<Outcome<Reply>>)
    ensures (forall j | 0 <= j < |os| :: !IsErrorStatus(os[j])) ==> Record(failed, link, os) == failed
    ensures forall j | 0 <= j < |os| && IsErrorStatus(os[j]) ::
      (forall k | j < k < |os| :: !IsErrorStatus(os[k])) ==> Record(failed, link, os) == failed[link := os[j].code]
  {
    if forall j | 0 <= j < |os| :: !IsErrorStatus(os[j]) {
      RecordNoError(failed, link, os);
    }
    RecordEachLastError(failed, link, os);
  }

  /** `RecordLastError` for every attempt that could be the last error. */
  lemma RecordEachLastError(failed: map<string, int>, link: string, os: seq<Outcome<Reply>>)
    ensures forall j | 0 <= j < |os| && IsErrorStatus(os[j]) ::
      (forall k | j < k < |os| :: !IsErrorStatus(os[k])) ==> Record(failed, link, os) == failed[link := os[j].code]
  {
    forall j | 0 <= j < |os| && IsErrorStatus(os[j])
      ensures (forall k | j < k < |os| :: !IsErrorStatus(os[k])) ==> Record(failed, link, os) == failed[link := os[j].code]
    {
      if forall k | j < k < |os| :: !IsErrorStatus(os[k]) {
        RecordLastError(failed, link, os, j);
      }
    }
  }


  // ---------------------------------------------------------------------
  // The back-off schedule

  /** The sleep that attempt `i` requests, read off lines 121 to 124: `2**i`
      seconds after an exception that leaves another attempt, none otherwise. */
  function SleepAfter(i: nat, o: Outcome<Reply>): seq<nat> {
    if o.TransportError? && i < MaxRetries - 1 then [Pow2(i)] else []
  }

  /** One more attempt adds its own sleep, if any, to the sleeps so far. */
  lemma BackoffsStep(os: seq<Outcome<Reply>>, i: nat)
    requires i < |os|
    ensures Backoffs(os[..i + 1]) == Backoffs(os[..i]) + SleepAfter(i, os[i])
  {
    assert os[..i + 1][..i] == os[..i];
  }

  /** Each sleep belongs to its own attempt: the sleeps are those of attempt
      0, then of attempt 1, then of attempt 2, as far as the attempts go. */
  lemma BackoffsPerAttempt(os: seq<Outcome<Reply>>)
    requires |os| <= MaxRetries
    ensures |os| == 1 ==> Backoffs(os) == SleepAfter(0, os[0])
    ensures |os| == 2 ==> Backoffs(os) == SleepAfter(0, os[0]) + SleepAfter(1, os[1])
    ensures |os| == 3 ==> Backoffs(os) == SleepAfter(0, os[0]) + SleepAfter(1, os[1]) + SleepAfter(2, os[2])
  {
    assert os[..0] == [];
    if |os| > 0 { BackoffsStep(os, 0); }
    if |os| > 1 { BackoffsStep(os, 1); }
    if |os| > 2 { BackoffsStep(os, 2); }
    assert os[..|os|] == os;
  }

  /** Within the three attempts, the sleeps requested are 1 and then 2
      seconds at most: each is 1 or 2, each longer than the one before, and
      there is one only after an exception. */
  lemma BackoffSchedule(os: seq<Outcome<Reply>>)
    requires |os| <= MaxRetries
    ensures var b := Backoffs(os);
      && |b| <= 2
      && (forall j | 0 <= j < |b| :: b[j] == 1 || b[j] == 2)
      && (forall j | 0 < j < |b| :: b[j - 1] < b[j])
      && (b != [] ==> exists i | 0 <= i < |os| :: os[i].TransportError?)
    ensures |os| > 0 && Backoffs(os) != [] ==> Backoffs(os)[|Backoffs(os)| - 1] <= Pow2(|os| - 1)
  {
    BackoffsPerAttempt(os);
    SleepsOfAttempts(os, Backoffs(os));
  }

  /** The schedule facts for any list of sleeps made of the attempts' own
      sleeps, in order. */
  lemma SleepsOfAttempts(os: seq<Outcome<Reply>>, b: seq<nat>)
    requires |os| <= MaxRetries
    requires |os| == 0 ==> b == []
    requires |os| == 1 ==> b == SleepAfter(0, os[0])
    requires |os| == 2 ==> b == SleepAfter(0, os[0]) + SleepAfter(1, os[1])
    requires |os| == 3 ==> b == SleepAfter(0, os[0]) + SleepAfter(1, os[1]) + SleepAfter(2, os[2])
    ensures |b| <= 2
    ensures forall j | 0 <= j < |b| :: b[j] == 1 || b[j] == 2
    ensures forall j | 0 < j < |b| :: b[j - 1] < b[j]
    ensures b != [] ==> exists i | 0 <= i < |os| :: os[i].TransportError?
    ensures |os| > 0 && b != [] ==> b[|b| - 1] <= Pow2(|os| - 1)
  {
    if os != [] {
      var first := SleepAfter(0, os[0]);
      var second := if |os| > 1 then SleepAfter(1, os[1]) else [];
      assert b == first + second by {
        if |os| == 3 {
          assert SleepAfter(2, os[2]) == [];
        }
      }
      assert first != [] ==> first == [1] && os[0].TransportError?;
      assert second != [] ==> second == [2] && os[1].TransportError? by {
        assert Pow2(1) == 2;
      }
      assert |os| > 1 ==> Pow2(|os| - 1) >= 2 by {
        assert Pow2(1) == 2 && Pow2(2) == 4;
      }
      OneThenTwo(first, second);
    }
  }

  /** At most a 1 followed by at most a 2 is a short, increasing list of 1s
      and 2s. */
  lemma OneThenTwo(first: seq<nat>, second: seq<nat>)
    requires first == [] || first == [1]
    requires second == [] || second == [2]
    ensures var b := first + second;
      && |b| <= 2
      && (forall j | 0 <= j < |b| :: b[j] == 1 || b[j] == 2)
      && (forall j | 0 < j < |b| :: b[j - 1] < b[j])
      && (b != [] ==> b[|b| - 1] == (if second == [] then 1 else 2))
  {
  }

  // ---------------------------------------------------------------------
  // Where a response is saved

  /** The directory depends on the seed alone (and on the token, when the
      host name needs the fallback): never on the link or the response. */
  lemma SaveDirFromSeed(lib: Library, seed: string, link1: string, reply1: Reply, link2: string, reply2: Reply, dirToken: string, name1: string, name2: string)
    ensures SaveAs(lib, seed, link1, reply1, dirToken, name1).dir
         == SaveAs(lib, seed, link2, reply2, dirToken, name2).dir
         == Sanitize(lib.norm, UrlToDir(lib.netloc(seed)), dirToken)
  {
  }

  /** The file name: the sanitized text after the first `filename=` (up to
      any second one) when the header is there; an `IndexError` when the
      header has no `filename=`; the sanitized last path segment of the link
      when there is no header. */
  lemma SaveNaming(lib: Library, seed: string, link: string, reply: Reply, dirToken: string, nameToken: string)
    ensures reply.disposition.None? ==>
      SaveAs(lib, seed, link, reply, dirToken, nameToken).Written?
      && SaveAs(lib, seed, link, reply, dirToken, nameToken).name == Sanitize(lib.norm, LastSegment(link), nameToken)
    ensures reply.disposition.Some? && Contains(reply.disposition.value, "filename=") ==>
      SaveAs(lib, seed, link, reply, dirToken, nameToken).Written?
      && SaveAs(lib, seed, link, reply, dirToken, nameToken).name
         == Sanitize(lib.norm, Split(reply.disposition.value, "filename=")[1], nameToken)
    ensures reply.disposition.Some? && !Contains(reply.disposition.value, "filename=") ==>
      SaveAs(lib, seed, link, reply, dirToken, nameToken).HeaderError?
    ensures SaveAs(lib, seed, link, reply, dirToken, nameToken).Written? ==>
      SaveAs(lib, seed, link, reply, dirToken, nameToken).body == reply.body
  {
  }

  /** `filename=` cannot overlap itself: its last character, `=`, occurs
      nowhere else in it. */
  lemma FilenameKeyUnbordered()
    ensures Unbordered("filename=")
  {
    var key := "filename=";
    forall k | 0 < k < |key| ensures key[..k] != key[|key| - k..] {
      assert key[|key| - k..][k - 1] == '=';
      assert key[..k][k - 1] == key[k - 1] != '=';
    }
  }

  /** A header `<prefix>filename="<name>"` names the file `<name>`, whatever
      the link: the first `filename=` is the one shown when the prefix holds
      none, and the sanitizer drops the quotes around a clean name. */
  lemma QuotedFilenameNamesFile(lib: Library, seed: string, link: string, body: seq<bv8>,
                                prefix: string, name: string, dirToken: string, nameToken: string)
    requires !Contains(prefix, "filename=")
    requires IsClean(name) && name != [] && name[0] != '.'
    requires lib.norm.unquote("\"" + name + "\"") == "\"" + name + "\""
    requires lib.norm.nfkd("\"" + name + "\"") == "\"" + name + "\""
    ensures SaveAs(lib, seed, link, Reply(Some(prefix + "filename=" + ("\"" + name + "\"")), body), dirToken, nameToken)
         == Written(Sanitize(lib.norm, UrlToDir(lib.netloc(seed)), dirToken), name, body)
  {
    var quoted := "\"" + name + "\"";
    assert '=' !in quoted by {
      forall i | 0 <= i < |quoted| ensures quoted[i] != '=' {
        if 0 < i < |quoted| - 1 {
          assert quoted[i] == name[i - 1] && IsCleanChar(name[i - 1]);
        }
      }
    }
    AbsentLastChar(quoted, "filename=");
    FilenameKeyUnbordered();
    SplitAtFirst(prefix, "filename=", quoted);
    SanitizeDropsQuotes(lib.norm, name, nameToken);
  }

  lemma GameNameIsClean()
    ensures IsClean("game.pgn")
  {
    var name := "game.pgn";
    forall i | 0 <= i < |name| ensures IsCleanChar(name[i]) && name[i] != '-' {}
  }

  /** `content-disposition: attachment; filename="game.pgn"` saves the body
      as `game.pgn`, whatever the link's own last segment is. */
  lemma GamePgnHeader(lib: Library, seed: string, link: string, body: seq<bv8>, dirToken: string, nameToken: string)
    requires lib.norm.unquote("\"game.pgn\"") == "\"game.pgn\""
    requires lib.norm.nfkd("\"game.pgn\"") == "\"game.pgn\""
    ensures SaveAs(lib, seed, link, Reply(Some("attachment; filename=\"game.pgn\""), body), dirToken, nameToken).Written?
    ensures SaveAs(lib, seed, link, Reply(Some("attachment; filename=\"game.pgn\""), body), dirToken, nameToken).name == "game.pgn"
  {
    var name := "game.pgn";
    GameNameIsClean();
    assert "\"" + name + "\"" == "\"game.pgn\"";
    assert "attachment; " + "filename=" + ("\"" + name + "\"") == "attachment; filename=\"game.pgn\"";
    AbsentFirstChar("attachment; ", "filename=");
    QuotedFilenameNamesFile(lib, seed, link, body, "attachment; ", name, dirToken, nameToken);
  }

  lemma ExampleComIsClean()
    ensures IsClean("example.com")
  {
    var host := "example.com";
    forall i | 0 <= i < |host| ensures IsCleanChar(host[i]) && host[i] != '-' {}
  }

  /** Every download from the seed `http://www.example.com/` is saved under
      `example.com`, whatever the link and the response. */
  lemma ExampleComDirectory(lib: Library, link: string, reply: Reply, dirToken: string, nameToken: string)
    requires lib.netloc("http://www.example.com/") == "www.example.com"
    requires lib.norm.unquote("example.com") == "example.com"
    requires lib.norm.nfkd("example.com") == "example.com"
    ensures SaveAs(lib, "http://www.example.com/", link, reply, dirToken, nameToken).dir == "example.com"
  {
    var host := "example.com";
    assert UrlToDir("www.example.com") == host by {
      UrlToDirStripsOnce(host);
      assert "www." + host == "www.example.com";
    }
    assert Sanitize(lib.norm, host, dirToken) == host by {
      ExampleComIsClean();
      SanitizeFixesPlain(lib.norm, host, dirToken);
    }
    SaveDirFromSeed(lib, "http://www.example.com/", link, reply, link, reply, dirToken, nameToken, nameToken);
  }
}
