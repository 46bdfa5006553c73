/** The suffix filter of `get_files` and of the crawl driver: an href names a
    chess file when it ends with one of the sixteen `chess_files` suffixes. */
module Links {
  import opened Text

  /** `chess_files`, in the order the tuple lists them. */
  const ChessFiles: seq<string> := [
    ".pgn", ".zip", ".cbv", ".cbz", ".cbf", ".7z", ".s7z", ".zz",
    ".si4", ".sn4", ".sg4", ".epd", ".cbb", ".cbh", ".cbt", "download=1"
  ]

  /** Python's `s.endswith(suffixes)` with a tuple of suffixes. */
  predicate EndsWithAny(s: string, suffixes: seq<string>) {
    exists k | 0 <= k < |suffixes| :: EndsWith(s, suffixes[k])
  }

  /** The test at line 71: `href and href.endswith(chess_files)`. */
  predicate IsChessFile(href: string) {
    href != [] && EndsWithAny(href, ChessFiles)
  }

  /** What `get_files` returns for the hrefs of the anchors the parser found;
      `None` stands for a parser exception, which `get_files` turns into an
      empty set. */
  function FileLinks(anchors: Option<seq<string>>): set<string> {
    match anchors
    case None => {}
    case Some(hrefs) => set h | h in hrefs && IsChessFile(h)
  }

  /** `get_files`: collects, into a set, every href that names a chess file. */
  method GetFiles(anchors: Option<seq<string>>) returns (links: set<string>)
    ensures forall h :: h in links <==> anchors.Some? && h in anchors.value && IsChessFile(h)
    ensures links == FileLinks(anchors)
  {
    links := {};
    match anchors {
      case None =>
        return {};
      case Some(hrefs) =>
        for i := 0 to |hrefs|
          invariant forall h :: h in links <==> h in hrefs[..i] && IsChessFile(h)
        {
          var href := hrefs[i];
          assert hrefs[..i + 1] == hrefs[..i] + [href];
          if href != [] && EndsWithAny(href, ChessFiles) {
            links := links + {href};
          }
        }
        assert hrefs[..|hrefs|] == hrefs;
    }
  }

  /** The last characters of the sixteen suffixes. */
  lemma SuffixEnds()
    ensures forall k | 0 <= k < |ChessFiles| ::
      ChessFiles[k] != [] && ChessFiles[k][|ChessFiles[k]| - 1] in "npvzf4dbht1"
  {
  }

  /** An href that ends in a character no suffix ends in is not a chess file. */
  lemma {:induction false} ExcludedByLastChar(href: string)
    requires href != [] && href[|href| - 1] !in "npvzf4dbht1"
    ensures !IsChessFile(href)
  {
    SuffixEnds();
    forall k | 0 <= k < |ChessFiles| ensures !EndsWith(href, ChessFiles[k]) {
      var suf := ChessFiles[k];
      if |suf| <= |href| {
        assert href[|href| - |suf|..][|suf| - 1] == href[|href| - 1];
      }
    }
  }

  /** The suffix test is case-sensitive, and web pages are not files:
      `.html` and `.PGN` links are dropped. */
  lemma HtmlAndUpperCaseExcluded(stem: string)
    ensures !IsChessFile(stem + ".html")
    ensures !IsChessFile(stem + ".PGN")
  {
    ExcludedByLastChar(stem + ".html");
    ExcludedByLastChar(stem + ".PGN");
  }

  /** A link ending in any of the sixteen suffixes is kept, the query-style
      `download=1` included. */
  lemma EverySuffixKept(stem: string, k: nat)
    requires k < |ChessFiles|
    ensures IsChessFile(stem + ChessFiles[k])
  {
    var s := stem + ChessFiles[k];
    assert s[|s| - |ChessFiles[k]|..] == ChessFiles[k];
    assert EndsWith(s, ChessFiles[k]);
  }

  /** Every suffix is non-empty, so the `href and` guard changes nothing:
      the driver's bare `endswith` test on the seed is the same filter. */
  lemma {:induction false} GuardIsRedundant(s: string)
    ensures IsChessFile(s) <==> EndsWithAny(s, ChessFiles)
  {
    SuffixEnds();
    if s == [] {
      forall k | 0 <= k < |ChessFiles| ensures !EndsWith(s, ChessFiles[k]) {
        assert |ChessFiles[k]| > 0;
      }
    }
  }

  /** Repeating an href adds nothing: the result is a set. */
  lemma DuplicatesCollapse(hrefs: seq<string>, h: string)
    requires h in hrefs
    ensures FileLinks(Some(hrefs + [h])) == FileLinks(Some(hrefs))
  {
    assert forall x :: x in hrefs + [h] <==> x in hrefs;
  }

  /** There are never more links than hrefs. */
  lemma {:induction false} AtMostOneLinkPerHref(hrefs: seq<string>)
    ensures |FileLinks(Some(hrefs))| <= |hrefs|
  {
    if hrefs != [] {
      var init := hrefs[..|hrefs| - 1];
      var last := hrefs[|hrefs| - 1];
      AtMostOneLinkPerHref(init);
      assert hrefs == init + [last];
      var added: set<string> := if IsChessFile(last) then {last} else {};
      assert FileLinks(Some(hrefs)) == FileLinks(Some(init)) + added;
      assert |added| <= 1;
    }
  }
}
