/** `sanitize_filename`: turns an untrusted string (a URL path segment, a
    content-disposition value, a host name) into a safe file or directory
    name. The model starts from the raw value; the two library steps it
    cannot see, percent-decoding and NFKD decomposition, are parameters. */
module Sanitizer {
  import opened Text

  /** `urllib.parse.unquote` and `unicodedata.normalize("NFKD", _)`. */
  datatype Normalizer = Normalizer(unquote: string -> string, nfkd: string -> string)

  const Degenerate: set<string> := {"", ".", "..", "-"}

  predicate IsAscii(c: char) { c as int < 128 }

  predicate IsUpper(c: char) { 'A' <= c <= 'Z' }

  predicate IsHyphen(c: char) { c == '-' }

  /** Python's `str.isspace()` on ASCII: space, `\t` to `\r`, and the four
      separator controls 0x1c to 0x1f. */
  predicate IsSpace(c: char) {
    c == ' ' || 9 <= c as int <= 13 || 28 <= c as int <= 31
  }

  /** The characters of `valid_chars`: `-_.()'&! `, ASCII letters and digits. */
  predicate IsAllowed(c: char) {
    c in "-_.()'&! " || 'a' <= c <= 'z' || 'A' <= c <= 'Z' || '0' <= c <= '9'
  }

  /** A character of the regular-expression class `[-\s]`. */
  predicate IsRunChar(c: char) { c == '-' || IsSpace(c) }

  /** What a cleaned name may contain: an allowed character that is neither a
      space nor an upper-case letter. */
  predicate IsCleanChar(c: char) { IsAllowed(c) && c != ' ' && !IsUpper(c) }

  /** The shape the cleaning steps promise: clean characters only, no two
      hyphens in a row, no hyphen at either end. */
  predicate IsClean(t: string) {
    && (forall i | 0 <= i < |t| :: IsCleanChar(t[i]))
    && (forall i | 0 < i < |t| :: t[i - 1] != '-' || t[i] != '-')
    && (t != [] ==> t[0] != '-' && t[|t| - 1] != '-')
  }

  /** Keeps the characters `keep` accepts, in order (a generator filter). */
  function Filter(s: string, keep: char -> bool): (r: string)
    ensures |r| <= |s|
    ensures forall i | 0 <= i < |r| :: keep(r[i])
    ensures forall c :: c in r ==> c in s
    ensures (forall i | 0 <= i < |s| :: keep(s[i])) ==> r == s
    decreases |s|
  {
    if s == [] then []
    else (if keep(s[0]) then [s[0]] else []) + Filter(s[1..], keep)
  }

  /** `.encode("ascii", "ignore").decode("ascii")`. */
  function DropNonAscii(s: string): (r: string)
    ensures forall i | 0 <= i < |r| :: IsAscii(r[i])
    ensures (forall i | 0 <= i < |s| :: IsAscii(s[i])) ==> r == s
  {
    Filter(s, IsAscii)
  }

  function LowerChar(c: char): char {
    if IsUpper(c) then (c as int + 32) as char else c
  }

  /** `str.lower()` on an ASCII string. */
  function Lower(s: string): (r: string)
    ensures |r| == |s|
    ensures forall i | 0 <= i < |r| :: !IsUpper(r[i])
    ensures forall i | 0 <= i < |s| :: !IsUpper(s[i]) ==> r[i] == s[i]
    ensures forall i | 0 <= i < |s| :: IsUpper(s[i]) ==> r[i] as int == s[i] as int + 32
  {
    seq(|s|, i requires 0 <= i < |s| => LowerChar(s[i]))
  }

  /** `str.replace(" ", "-")`. */
  function ReplaceSpaces(s: string): (r: string)
    ensures |r| == |s|
    ensures forall i | 0 <= i < |r| :: r[i] != ' '
    ensures forall i | 0 <= i < |s| :: s[i] == ' ' ==> r[i] == '-'
    ensures forall i | 0 <= i < |s| :: s[i] != ' ' ==> r[i] == s[i]
  {
    seq(|s|, i requires 0 <= i < |s| => if s[i] == ' ' then '-' else s[i])
  }

  /** `str.lstrip` with the characters `drop` accepts. */
  function StripLeft(s: string, drop: char -> bool): (r: string)
    ensures |r| <= |s| && r == s[|s| - |r|..]
    ensures r == [] || !drop(r[0])
    ensures s != [] && drop(s[0]) ==> |r| < |s|
    ensures s == [] || !drop(s[0]) ==> r == s
    decreases |s|
  {
    if s != [] && drop(s[0]) then StripLeft(s[1..], drop) else s
  }

  /** `str.rstrip` with the characters `drop` accepts. */
  function StripRight(s: string, drop: char -> bool): (r: string)
    ensures |r| <= |s| && r == s[..|r|]
    ensures r == [] || !drop(r[|r| - 1])
    ensures s == [] || !drop(s[|s| - 1]) ==> r == s
    decreases |s|
  {
    if s != [] && drop(s[|s| - 1]) then StripRight(s[..|s| - 1], drop) else s
  }

  /** `lstrip` removes nothing but droppable characters: the whole run of
      them at the front, and no more. */
  lemma {:induction false} StripLeftRemovesRun(s: string, drop: char -> bool)
    ensures var r := StripLeft(s, drop);
      forall i | 0 <= i < |s| - |r| :: drop(s[i])
    decreases |s|
  {
    if s != [] && drop(s[0]) {
      StripLeftRemovesRun(s[1..], drop);
      assert forall i | 1 <= i < |s| :: s[i] == s[1..][i - 1];
    }
  }

  /** `rstrip` removes nothing but droppable characters: the whole run of
      them at the back, and no more. */
  lemma {:induction false} StripRightRemovesRun(s: string, drop: char -> bool)
    ensures var r := StripRight(s, drop);
      forall i | |r| <= i < |s| :: drop(s[i])
    decreases |s|
  {
    if s != [] && drop(s[|s| - 1]) {
      StripRightRemovesRun(s[..|s| - 1], drop);
    }
  }

  /** `str.strip` with the characters `drop` accepts. */
  function Strip(s: string, drop: char -> bool): string {
    StripRight(StripLeft(s, drop), drop)
  }

  /** `re.sub(r"[-\s]+", "-", s)`: each maximal run of hyphens and whitespace
      becomes a single hyphen. */
  function Collapse(s: string): string
    decreases |s|
  {
    if s == [] then []
    else if IsRunChar(s[0]) then "-" + Collapse(StripLeft(s, IsRunChar))
    else [s[0]] + Collapse(s[1..])
  }

  /** Lines 46 to 48 on the ASCII text: lower-case, trim, hyphenate spaces,
      keep the allowed characters, collapse runs, trim hyphens. */
  function Clean(ascii: string): string {
    var lower := ReplaceSpaces(Strip(Lower(ascii), IsSpace));
    var valid := Filter(lower, IsAllowed);
    Strip(Collapse(valid), IsHyphen)
  }

  function Generated(token: string): string {
    "generated_" + token
  }

  /** Lines 49 and 50: a name whose part before the first `.` is empty gets
      the generated prefix. */
  function AvoidHidden(out: string, token: string): string {
    if Split(out, ".")[0] == [] then Generated(token) + out else out
  }

  /** Lines 51 and 52: a degenerate name is replaced by a generated one. */
  function AvoidDegenerate(out: string, token: string): string {
    if out in Degenerate then Generated(token) else out
  }

  /** `sanitize_filename(value)` with `allow_unicode` false; `token` is what
      `token_urlsafe(5)` returns for this call. */
  function Sanitize(norm: Normalizer, value: string, token: string): string {
    if value != [] then
      var ascii := DropNonAscii(norm.nfkd(norm.unquote(value)));
      AvoidDegenerate(AvoidHidden(Clean(ascii), token), token)
    else
      Generated(token)
  }

  /** The characters `token_urlsafe` draws from. */
  predicate IsUrlSafe(token: string) {
    forall i | 0 <= i < |token| ::
      token[i] == '-' || token[i] == '_' || 'a' <= token[i] <= 'z' || 'A' <= token[i] <= 'Z' || '0' <= token[i] <= '9'
  }

  // ---------------------------------------------------------------------
  // Collapsing runs

  /** A non-empty string that does not start a run keeps its first character. */
  lemma CollapseHead(s: string)
    requires s != [] && !IsRunChar(s[0])
    ensures Collapse(s) != [] && Collapse(s)[0] == s[0]
  {
  }

  /** A hyphen put in front of a string not starting with one, or any other
      character put in front, makes no new pair of hyphens. */
  lemma ConsNoDoubleHyphen(x: char, t: string)
    requires forall i | 0 < i < |t| :: t[i - 1] != '-' || t[i] != '-'
    requires x == '-' ==> t == [] || t[0] != '-'
    ensures forall i | 0 < i < |[x] + t| :: ([x] + t)[i - 1] != '-' || ([x] + t)[i] != '-'
  {
    var u := [x] + t;
    forall i | 0 < i < |u| ensures u[i - 1] != '-' || u[i] != '-' {
      if i > 1 {
        assert u[i - 1] == t[i - 2] && u[i] == t[i - 1];
      }
    }
  }

  /** A clean character put in front of clean characters. */
  lemma ConsCleanChars(u: string, x: char, t: string)
    requires u == [x] + t
    requires IsCleanChar(x)
    requires forall i | 0 <= i < |t| :: IsCleanChar(t[i])
    ensures forall i | 0 <= i < |u| :: IsCleanChar(u[i])
  {
    forall i | 0 <= i < |u| ensures IsCleanChar(u[i]) {
      if i > 0 {
        assert u[i] == t[i - 1];
      }
    }
  }

  /** Collapsing never leaves two hyphens in a row, whatever the input. */
  lemma {:induction false} CollapseNoDoubleHyphen(s: string)
    ensures forall i | 0 < i < |Collapse(s)| :: Collapse(s)[i - 1] != '-' || Collapse(s)[i] != '-'
    decreases |s|
  {
    if s == [] {
    } else if IsRunChar(s[0]) {
      var rest := StripLeft(s, IsRunChar);
      CollapseNoDoubleHyphen(rest);
      if rest != [] { CollapseHead(rest); }
      CollapseStep(s);
      ConsNoDoubleHyphen('-', Collapse(rest));
    } else {
      var tail := s[1..];
      CollapseNoDoubleHyphen(tail);
      assert s == [s[0]] + tail;
      CollapseCons(s[0], tail);
      ConsNoDoubleHyphen(s[0], Collapse(tail));
    }
  }

  /** A suffix of clean characters is clean characters. */
  lemma SuffixCleanChars(s: string, k: nat)
    requires k <= |s|
    requires forall i | 0 <= i < |s| :: IsCleanChar(s[i])
    ensures forall i | 0 <= i < |s[k..]| :: IsCleanChar(s[k..][i])
  {
    forall i | 0 <= i < |s[k..]| ensures IsCleanChar(s[k..][i]) {
      assert s[k..][i] == s[k + i];
    }
  }

  /** Collapsing clean characters gives clean characters. */
  lemma {:induction false} CollapseCleanChars(s: string)
    requires forall i | 0 <= i < |s| :: IsCleanChar(s[i])
    ensures forall i | 0 <= i < |Collapse(s)| :: IsCleanChar(Collapse(s)[i])
    decreases |s|
  {
    if s == [] {
    } else if IsRunChar(s[0]) {
      var rest := StripLeft(s, IsRunChar);
      SuffixCleanChars(s, |s| - |rest|);
      CollapseCleanChars(rest);
      CollapseStep(s);
      ConsCleanChars(Collapse(s), '-', Collapse(rest));
    } else {
      var tail := s[1..];
      SuffixCleanChars(s, 1);
      CollapseCleanChars(tail);
      assert s == [s[0]] + tail;
      CollapseCons(s[0], tail);
      ConsCleanChars(Collapse(s), s[0], Collapse(tail));
    }
  }

  /** On clean characters, collapsing keeps them clean and leaves no two
      hyphens in a row. */
  lemma CollapseShape(s: string)
    requires forall i | 0 <= i < |s| :: IsCleanChar(s[i])
    ensures forall i | 0 <= i < |Collapse(s)| :: IsCleanChar(Collapse(s)[i])
    ensures forall i | 0 < i < |Collapse(s)| :: Collapse(s)[i - 1] != '-' || Collapse(s)[i] != '-'
  {
    CollapseCleanChars(s);
    CollapseNoDoubleHyphen(s);
  }

  /** Collapsing changes nothing in a string without whitespace and without
      two hyphens in a row. */
  lemma {:induction false} CollapseFixes(t: string)
    requires forall i | 0 <= i < |t| :: !IsSpace(t[i])
    requires forall i | 0 < i < |t| :: t[i - 1] != '-' || t[i] != '-'
    ensures Collapse(t) == t
    decreases |t|
  {
    if t != [] {
      var tail := t[1..];
      forall i | 0 <= i < |tail| ensures !IsSpace(tail[i]) {
        assert tail[i] == t[i + 1];
      }
      forall i | 0 < i < |tail| ensures tail[i - 1] != '-' || tail[i] != '-' {
        assert tail[i - 1] == t[i] && tail[i] == t[i + 1];
      }
      CollapseFixes(tail);
      assert t == [t[0]] + tail;
      if t[0] == '-' {
        assert tail == [] || (tail[0] == t[1] && !IsRunChar(tail[0]));
        StripLeftStep(t);
        assert StripLeft(tail, IsRunChar) == tail;
        CollapseStep(t);
      } else {
        CollapseCons(t[0], tail);
      }
    }
  }

  /** A character that does not start or continue a run. */
  predicate NotRun(c: char) { !IsRunChar(c) }

  /** Filtering out every character leaves nothing. */
  lemma {:induction false} FilterNone(t: string, keep: char -> bool)
    requires forall i | 0 <= i < |t| :: !keep(t[i])
    ensures Filter(t, keep) == []
    decreases |t|
  {
    if t != [] {
      FilterNone(t[1..], keep);
    }
  }

  /** A leading character is kept by the filter exactly when it passes. */
  lemma FilterHead(x: char, c: string, keep: char -> bool)
    ensures Filter([x] + c, keep) == if keep(x) then [x] + Filter(c, keep) else Filter(c, keep)
  {
    assert ([x] + c)[1..] == c;
  }

  /** A prefix the filter rejects entirely contributes nothing. */
  lemma FilterDropsPrefix(run: string, rest: string, keep: char -> bool)
    requires forall i | 0 <= i < |run| :: !keep(run[i])
    ensures Filter(run + rest, keep) == Filter(rest, keep)
  {
    FilterNone(run, keep);
    FilterConcat(run, rest, keep);
  }

  /** A leading run of hyphens and whitespace contributes nothing once the
      run characters are filtered out. */
  lemma RunPrefixVanishes(s: string)
    ensures Filter(s, NotRun) == Filter(StripLeft(s, IsRunChar), NotRun)
  {
    var rest := StripLeft(s, IsRunChar);
    var n := |s| - |rest|;
    var run := s[..n];
    assert s == run + rest by {
      assert rest == s[n..];
    }
    assert forall i | 0 <= i < |run| :: !NotRun(run[i]) by {
      StripLeftRemovesRun(s, IsRunChar);
      forall i | 0 <= i < |run| ensures !NotRun(run[i]) {
        assert run[i] == s[i] && IsRunChar(s[i]);
      }
    }
    FilterDropsPrefix(run, rest, NotRun);
  }

  /** Collapsing touches only the runs: the characters outside them survive,
      all of them and in order. */
  lemma {:induction false} CollapseKeepsOthers(s: string)
    ensures Filter(Collapse(s), NotRun) == Filter(s, NotRun)
    decreases |s|
  {
    if s == [] {
    } else if IsRunChar(s[0]) {
      var rest := StripLeft(s, IsRunChar);
      CollapseKeepsOthers(rest);
      assert Collapse(s) == ['-'] + Collapse(rest);
      FilterHead('-', Collapse(rest), NotRun);
      RunPrefixVanishes(s);
    } else {
      CollapseKeepsOthers(s[1..]);
      assert Collapse(s) == [s[0]] + Collapse(s[1..]);
      FilterHead(s[0], Collapse(s[1..]), NotRun);
      FilterHead(s[0], s[1..], NotRun);
      assert s == [s[0]] + s[1..];
    }
  }

  /** `lstrip` past one droppable character. */
  lemma StripLeftStep(s: string)
    requires s != [] && IsRunChar(s[0])
    ensures StripLeft(s, IsRunChar) == StripLeft(s[1..], IsRunChar)
  {
  }

  /** `lstrip` of a string starting with a kept character. */
  lemma StripLeftStop(x: string, y: string)
    requires x != [] && !IsRunChar(x[0])
    ensures StripLeft(x + y, IsRunChar) == x + y
  {
    assert (x + y)[0] == x[0];
  }

  /** The first character of `x + y` and what follows it. */
  lemma AppendHead(x: string, y: string)
    requires x != []
    ensures (x + y)[0] == x[0] && (x + y)[1..] == x[1..] + y
  {
  }

  /** `lstrip` stops inside the first piece when that piece does not consist
      of droppable characters only. */
  lemma {:induction false} StripLeftAppend(x: string, y: string)
    requires StripLeft(x, IsRunChar) != []
    ensures StripLeft(x + y, IsRunChar) == StripLeft(x, IsRunChar) + y
    decreases |x|
  {
    AppendHead(x, y);
    if IsRunChar(x[0]) {
      StripLeftStep(x);
      StripLeftAppend(x[1..], y);
      StripLeftStep(x + y);
    } else {
      StripLeftStop(x, y);
    }
  }

  /** `lstrip` removes a whole run and stops at the first other character. */
  lemma {:induction false} StripLeftRun(r: string, b: string)
    requires forall i | 0 <= i < |r| :: IsRunChar(r[i])
    requires b == [] || !IsRunChar(b[0])
    ensures StripLeft(r + b, IsRunChar) == b
    decreases |r|
  {
    if r == [] {
      assert r + b == b;
    } else {
      AppendHead(r, b);
      var tail := r[1..];
      assert forall i | 0 <= i < |tail| :: IsRunChar(tail[i]) by {
        forall i | 0 <= i < |tail| ensures IsRunChar(tail[i]) {
          assert tail[i] == r[i + 1];
        }
      }
      StripLeftRun(tail, b);
      StripLeftStep(r + b);
    }
  }

  /** A run at the front becomes one hyphen before the rest is collapsed. */
  lemma CollapseStep(s: string)
    requires s != [] && IsRunChar(s[0])
    ensures Collapse(s) == "-" + Collapse(StripLeft(s, IsRunChar))
  {
  }

  /** A character outside the runs is copied through. */
  lemma CollapseCons(x: char, t: string)
    requires !IsRunChar(x)
    ensures Collapse([x] + t) == [x] + Collapse(t)
  {
    assert ([x] + t)[1..] == t;
  }

  /** A non-empty run followed by something else becomes one hyphen. */
  lemma CollapseRunThen(r: string, b: string)
    requires r != [] && forall i | 0 <= i < |r| :: IsRunChar(r[i])
    requires b == [] || !IsRunChar(b[0])
    ensures Collapse(r + b) == "-" + Collapse(b)
  {
    AppendHead(r, b);
    StripLeftRun(r, b);
    CollapseStep(r + b);
  }

  /** Concatenation regroups freely. */
  lemma AppendAssoc(x: string, y: string, z: string)
    ensures x + y + z == x + (y + z)
  {
  }

  /** `lstrip` of a string ending outside the runs keeps that last
      character. */
  lemma StripLeftKeepsLast(s: string)
    requires s != [] && !IsRunChar(s[|s| - 1])
    ensures StripLeft(s, IsRunChar) != []
    ensures StripLeft(s, IsRunChar)[|StripLeft(s, IsRunChar)| - 1] == s[|s| - 1]
  {
    StripLeftRemovesRun(s, IsRunChar);
  }

  /** Collapsing `a + t` agrees with collapsing `a` then appending `c`, when
      it does so without `a`'s first character and that character is not in
      a run. */
  lemma CollapseOtherFirst(a: string, t: string, c: string)
    requires a != [] && !IsRunChar(a[0])
    requires Collapse(a[1..] + t) == Collapse(a[1..]) + c
    ensures Collapse(a + t) == Collapse(a) + c
  {
    var x, u := a[0], a[1..];
    assert a == [x] + u;
    AppendAssoc([x], u, t);
    CollapseCons(x, u + t);
    CollapseCons(x, u);
    AppendAssoc([x], Collapse(u), c);
  }

  /** Collapsing `a + t` agrees with collapsing `a` then appending `c`, when
      it does so without `a`'s leading run and `a` is more than that run. */
  lemma CollapseRunFirst(a: string, t: string, c: string)
    requires a != [] && IsRunChar(a[0])
    requires StripLeft(a, IsRunChar) != []
    requires Collapse(StripLeft(a, IsRunChar) + t) == Collapse(StripLeft(a, IsRunChar)) + c
    ensures Collapse(a + t) == Collapse(a) + c
  {
    var rest := StripLeft(a, IsRunChar);
    CollapseStep(a);
    AppendHead(a, t);
    StripLeftAppend(a, t);
    CollapseStep(a + t);
    AppendAssoc("-", Collapse(rest), c);
  }

  /** A maximal run of hyphens and whitespace, wherever it stands, becomes
      exactly one hyphen, and the text on either side is collapsed on its
      own. */
  lemma {:induction false} CollapseRun(a: string, r: string, b: string)
    requires a == [] || !IsRunChar(a[|a| - 1])
    requires r != [] && forall i | 0 <= i < |r| :: IsRunChar(r[i])
    requires b == [] || !IsRunChar(b[0])
    ensures Collapse(a + r + b) == Collapse(a) + "-" + Collapse(b)
    decreases |a|
  {
    var rb := r + b;
    var c := "-" + Collapse(b);
    AppendAssoc(a, r, b);
    AppendAssoc(Collapse(a), "-", Collapse(b));
    if a == [] {
      assert a + rb == rb;
      CollapseRunThen(r, b);
    } else if !IsRunChar(a[0]) {
      var tail := a[1..];
      assert tail == [] || tail[|tail| - 1] == a[|a| - 1];
      CollapseRun(tail, r, b);
      AppendAssoc(tail, r, b);
      AppendAssoc(Collapse(tail), "-", Collapse(b));
      CollapseOtherFirst(a, rb, c);
    } else {
      var rest := StripLeft(a, IsRunChar);
      StripLeftKeepsLast(a);
      CollapseRun(rest, r, b);
      AppendAssoc(rest, r, b);
      AppendAssoc(Collapse(rest), "-", Collapse(b));
      CollapseRunFirst(a, rb, c);
    }
  }

  // ---------------------------------------------------------------------
  // The cleaning steps

  /** Stripping keeps a contiguous piece of the string. */
  lemma StripSlice(s: string, drop: char -> bool) returns (a: nat, b: nat)
    ensures a <= b <= |s| && Strip(s, drop) == s[a..b]
  {
    var left := StripLeft(s, drop);
    var right := StripRight(left, drop);
    a, b := |s| - |left|, |s| - |left| + |right|;
    assert left == s[a..];
    assert right == left[..|right|];
    assert s[a..b] == s[a..][..|right|];
  }

  /** Stripping leaves neither end droppable. */
  lemma StripEnds(s: string, drop: char -> bool)
    ensures var r := Strip(s, drop); r == [] || (!drop(r[0]) && !drop(r[|r| - 1]))
  {
    var left := StripLeft(s, drop);
    var r := StripRight(left, drop);
    if r != [] {
      assert r[0] == left[0];
    }
  }

  /** Lower-casing and trimming leave no upper-case letter. */
  lemma TrimmedLowerHasNoUpper(ascii: string)
    ensures forall i | 0 <= i < |Strip(Lower(ascii), IsSpace)| :: !IsUpper(Strip(Lower(ascii), IsSpace)[i])
  {
    var lowered := Lower(ascii);
    forall i | 0 <= i < |lowered| ensures !IsUpper(lowered[i]) {
      assert lowered[i] == LowerChar(ascii[i]);
    }
    var a, b := StripSlice(lowered, IsSpace);
    forall i | 0 <= i < b - a ensures !IsUpper(lowered[a..b][i]) {
      assert lowered[a..b][i] == lowered[a + i];
    }
  }

  /** After spaces become hyphens, the allowed-character filter keeps only
      clean characters. */
  lemma FilteredAreClean(stripped: string)
    requires forall i | 0 <= i < |stripped| :: !IsUpper(stripped[i])
    ensures forall i | 0 <= i < |Filter(ReplaceSpaces(stripped), IsAllowed)| ::
      IsCleanChar(Filter(ReplaceSpaces(stripped), IsAllowed)[i])
  {
    var lower := ReplaceSpaces(stripped);
    var valid := Filter(lower, IsAllowed);
    assert forall c :: c in lower ==> c != ' ' && !IsUpper(c);
    forall i | 0 <= i < |valid| ensures IsCleanChar(valid[i]) {
      assert valid[i] in lower;
    }
  }

  /** Trimming hyphens from a collapsed string gives a clean string. */
  lemma TrimmedIsClean(collapsed: string)
    requires forall i | 0 <= i < |collapsed| :: IsCleanChar(collapsed[i])
    requires forall i | 0 < i < |collapsed| :: collapsed[i - 1] != '-' || collapsed[i] != '-'
    ensures IsClean(Strip(collapsed, IsHyphen))
  {
    var a, b := StripSlice(collapsed, IsHyphen);
    SliceKeepsShape(collapsed, a, b);
    StripEnds(collapsed, IsHyphen);
  }

  /** A contiguous piece of a string with clean characters and no two
      hyphens in a row has the same two properties. */
  lemma SliceKeepsShape(t: string, a: nat, b: nat)
    requires a <= b <= |t|
    requires forall i | 0 <= i < |t| :: IsCleanChar(t[i])
    requires forall i | 0 < i < |t| :: t[i - 1] != '-' || t[i] != '-'
    ensures forall i | 0 <= i < b - a :: IsCleanChar(t[a..b][i])
    ensures forall i | 0 < i < b - a :: t[a..b][i - 1] != '-' || t[a..b][i] != '-'
  {
    var out := t[a..b];
    forall i | 0 <= i < |out| ensures IsCleanChar(out[i]) {
      assert out[i] == t[a + i];
    }
    forall i | 0 < i < |out| ensures out[i - 1] != '-' || out[i] != '-' {
      assert out[i - 1] == t[a + i - 1] && out[i] == t[a + i];
    }
  }

  /** Every output of the cleaning steps is clean. */
  lemma CleanIsClean(ascii: string)
    ensures IsClean(Clean(ascii))
  {
    TrimmedLowerHasNoUpper(ascii);
    var stripped := Strip(Lower(ascii), IsSpace);
    FilteredAreClean(stripped);
    var valid := Filter(ReplaceSpaces(stripped), IsAllowed);
    CollapseShape(valid);
    TrimmedIsClean(Collapse(valid));
  }

  /** The steps before the filter leave alone a string with no upper-case
      letter and no whitespace. */
  lemma PrefilterFixes(t: string)
    requires forall i | 0 <= i < |t| :: !IsUpper(t[i]) && !IsSpace(t[i])
    ensures ReplaceSpaces(Strip(Lower(t), IsSpace)) == t
  {
    assert Lower(t) == t;
    assert t == [] || (!IsSpace(t[0]) && !IsSpace(t[|t| - 1]));
    assert Strip(t, IsSpace) == t;
    assert ReplaceSpaces(t) == t;
  }

  /** Filtering distributes over concatenation. */
  lemma {:induction false} FilterConcat(a: string, b: string, keep: char -> bool)
    ensures Filter(a + b, keep) == Filter(a, keep) + Filter(b, keep)
    decreases |a|
  {
    if a == [] {
      assert a + b == b;
    } else {
      FilterConcat(a[1..], b, keep);
      assert (a + b)[0] == a[0];
      assert (a + b)[1..] == a[1..] + b;
    }
  }

  /** Filtering keeps every occurrence of every accepted character and none
      of the others. */
  lemma {:induction false} FilterCounts(s: string, keep: char -> bool)
    ensures forall c :: multiset(Filter(s, keep))[c] == if keep(c) then multiset(s)[c] else 0
    decreases |s|
  {
    if s != [] {
      FilterCounts(s[1..], keep);
      assert s == [s[0]] + s[1..];
      assert multiset(s) == multiset([s[0]]) + multiset(s[1..]);
    }
  }

  /** The steps from the filter on leave a clean string unchanged. */
  lemma PostfilterFixesClean(t: string)
    requires IsClean(t)
    ensures Strip(Collapse(Filter(t, IsAllowed)), IsHyphen) == t
  {
    CleanCharsAllowed(t);
    assert Filter(t, IsAllowed) == t;
    CollapseFixes(t);
    StripFixesUnhyphenated(t);
  }

  /** The characters of a clean name are allowed ones and none is
      whitespace. */
  lemma CleanCharsAllowed(t: string)
    requires IsClean(t)
    ensures forall i | 0 <= i < |t| :: IsAllowed(t[i]) && !IsSpace(t[i])
  {
    forall i | 0 <= i < |t| ensures IsAllowed(t[i]) && !IsSpace(t[i]) {
      assert IsCleanChar(t[i]);
    }
  }

  /** Stripping hyphens changes nothing when neither end is one. */
  lemma StripFixesUnhyphenated(t: string)
    requires t == [] || (t[0] != '-' && t[|t| - 1] != '-')
    ensures Strip(t, IsHyphen) == t
  {
    assert t == [] || !IsHyphen(t[0]);
    assert StripLeft(t, IsHyphen) == t;
    assert t == [] || !IsHyphen(t[|t| - 1]);
  }

  /** A clean string holds no upper-case letter and no whitespace. */
  lemma CleanHasNoUpperOrSpace(t: string)
    requires IsClean(t)
    ensures forall i | 0 <= i < |t| :: !IsUpper(t[i]) && !IsSpace(t[i])
  {
    forall i | 0 <= i < |t| ensures !IsUpper(t[i]) && !IsSpace(t[i]) {
      assert IsCleanChar(t[i]);
    }
  }

  /** The cleaning steps leave a clean string unchanged. */
  lemma CleanFixesClean(t: string)
    requires IsClean(t)
    ensures Clean(t) == t
  {
    CleanHasNoUpperOrSpace(t);
    PrefilterFixes(t);
    PostfilterFixesClean(t);
  }

  /** Cleaning is idempotent. */
  lemma CleanIdempotent(ascii: string)
    ensures Clean(Clean(ascii)) == Clean(ascii)
  {
    CleanIsClean(ascii);
    CleanFixesClean(Clean(ascii));
  }

  // ---------------------------------------------------------------------
  // The fallback names

  /** The prefix is added exactly to a cleaned name that is empty or starts
      with a dot. */
  lemma AvoidHiddenCases(c: string, token: string)
    ensures AvoidHidden(c, token) == if c == [] || c[0] == '.' then Generated(token) + c else c
  {
    FirstPartEmpty(c, ".");
    assert c != [] ==> (StartsWith(c, ".") <==> c[0] == '.');
  }

  /** Once lines 49 and 50 have run on a cleaned name, the test at line 51
      can never succeed. */
  lemma DegenerateCheckIsDead(c: string, token: string)
    requires IsClean(c)
    ensures AvoidHidden(c, token) !in Degenerate
    ensures AvoidDegenerate(AvoidHidden(c, token), token) == AvoidHidden(c, token)
  {
    AvoidHiddenCases(c, token);
    if c == [] || c[0] == '.' {
      assert |AvoidHidden(c, token)| >= 10;
    } else {
      assert c != "-";
    }
  }

  /** The three outcomes of `sanitize_filename`: an empty value gives a
      generated name; otherwise the cleaned text, prefixed by a generated name
      when it is empty or starts with a dot. */
  lemma SanitizeCases(norm: Normalizer, value: string, token: string)
    ensures value == [] ==> Sanitize(norm, value, token) == Generated(token)
    ensures value != [] ==>
      var c := Clean(DropNonAscii(norm.nfkd(norm.unquote(value))));
      Sanitize(norm, value, token) == if c == [] || c[0] == '.' then Generated(token) + c else c
  {
    if value != [] {
      var c := Clean(DropNonAscii(norm.nfkd(norm.unquote(value))));
      CleanIsClean(DropNonAscii(norm.nfkd(norm.unquote(value))));
      DegenerateCheckIsDead(c, token);
      AvoidHiddenCases(c, token);
    }
  }

  /** A sanitized name is never empty and never `.`, `..` or `-`. */
  lemma SanitizeNeverDegenerate(norm: Normalizer, value: string, token: string)
    ensures Sanitize(norm, value, token) != []
    ensures Sanitize(norm, value, token) !in Degenerate
  {
    SanitizeCases(norm, value, token);
    if value != [] {
      var c := Clean(DropNonAscii(norm.nfkd(norm.unquote(value))));
      CleanIsClean(DropNonAscii(norm.nfkd(norm.unquote(value))));
      DegenerateCheckIsDead(c, token);
    }
  }

  /** Outside the generated prefix a sanitized name is clean: allowed
      characters only, no whitespace, no upper case, no doubled, leading or
      trailing hyphen. Without the prefix it does not start with a dot. */
  lemma SanitizeShape(norm: Normalizer, value: string, token: string)
    ensures var r := Sanitize(norm, value, token);
      || (IsClean(r) && r != [] && r[0] != '.')
      || (StartsWith(r, Generated(token)) && IsClean(r[|Generated(token)|..]))
  {
    SanitizeCases(norm, value, token);
    var r := Sanitize(norm, value, token);
    var g := Generated(token);
    if value == [] {
      assert r[|g|..] == [];
    } else {
      var c := Clean(DropNonAscii(norm.nfkd(norm.unquote(value))));
      CleanIsClean(DropNonAscii(norm.nfkd(norm.unquote(value))));
      if c == [] || c[0] == '.' {
        assert r == g + c && r[|g|..] == c;
      }
    }
  }

  /** A generated name built from a URL-safe token uses allowed characters. */
  lemma GeneratedAllowed(token: string)
    requires IsUrlSafe(token)
    ensures IsSafeName(Generated(token))
  {
    var g := Generated(token);
    forall i | 0 <= i < |g| ensures IsAllowed(g[i]) && !IsSpace(g[i]) {
      if i >= 10 {
        assert g[i] == token[i - 10];
      }
    }
  }

  /** A name is safe when each character is allowed and none is whitespace. */
  predicate IsSafeName(r: string) {
    forall i | 0 <= i < |r| :: IsAllowed(r[i]) && !IsSpace(r[i])
  }

  /** A clean name, alone or after a generated prefix, is safe. */
  lemma ShapeIsSafe(r: string, token: string)
    requires IsUrlSafe(token)
    requires IsClean(r) || (StartsWith(r, Generated(token)) && IsClean(r[|Generated(token)|..]))
    ensures IsSafeName(r)
  {
    var g := Generated(token);
    if IsClean(r) {
      CleanIsSafe(r);
    } else {
      var tail := r[|g|..];
      assert r == g + tail;
      GeneratedAllowed(token);
      CleanIsSafe(tail);
      SafeConcat(g, tail);
    }
  }

  lemma CleanIsSafe(t: string)
    requires IsClean(t)
    ensures IsSafeName(t)
  {
    forall i | 0 <= i < |t| ensures IsAllowed(t[i]) && !IsSpace(t[i]) {
      assert IsCleanChar(t[i]);
    }
  }

  lemma SafeConcat(a: string, b: string)
    requires IsSafeName(a) && IsSafeName(b)
    ensures IsSafeName(a + b)
  {
    forall i | 0 <= i < |a + b| ensures IsAllowed((a + b)[i]) && !IsSpace((a + b)[i]) {
      if i >= |a| {
        assert (a + b)[i] == b[i - |a|];
      }
    }
  }

  /** With a token drawn from the URL-safe alphabet, every character of a
      sanitized name is one `valid_chars` allows, and none is whitespace. */
  lemma SanitizeAllowed(norm: Normalizer, value: string, token: string)
    requires IsUrlSafe(token)
    ensures IsSafeName(Sanitize(norm, value, token))
  {
    SanitizeShape(norm, value, token);
    ShapeIsSafe(Sanitize(norm, value, token), token);
  }

  /** A name the cleaning steps produce without a prefix is sanitized to
      itself, provided the two library steps leave it alone (they do on
      ASCII text without `%`). */
  lemma SanitizeFixesPlain(norm: Normalizer, r: string, token: string)
    requires IsClean(r) && r != [] && r[0] != '.'
    requires norm.unquote(r) == r && norm.nfkd(r) == r
    ensures Sanitize(norm, r, token) == r
  {
    assert forall i | 0 <= i < |r| :: IsAscii(r[i]);
    assert DropNonAscii(r) == r;
    CleanFixesClean(r);
    SanitizeCases(norm, r, token);
  }

  /** Sanitizing a name that did not need the fallback gives it back. */
  lemma SanitizeIdempotent(norm: Normalizer, value: string, token: string, token': string)
    requires value != []
    requires var c := Clean(DropNonAscii(norm.nfkd(norm.unquote(value)))); c != [] && c[0] != '.'
    requires var r := Sanitize(norm, value, token); norm.unquote(r) == r && norm.nfkd(r) == r
    ensures Sanitize(norm, Sanitize(norm, value, token), token') == Sanitize(norm, value, token)
  {
    SanitizeCases(norm, value, token);
    CleanIsClean(DropNonAscii(norm.nfkd(norm.unquote(value))));
    SanitizeFixesPlain(norm, Sanitize(norm, value, token), token');
  }

  /** The steps before the filter leave a quoted clean name alone. */
  lemma QuotedPrefilter(name: string)
    requires IsClean(name)
    ensures ReplaceSpaces(Strip(Lower("\"" + name + "\""), IsSpace)) == "\"" + name + "\""
  {
    var quoted := "\"" + name + "\"";
    forall i | 0 <= i < |quoted| ensures !IsUpper(quoted[i]) && !IsSpace(quoted[i]) {
      if 0 < i < |quoted| - 1 {
        assert quoted[i] == name[i - 1];
        assert IsCleanChar(name[i - 1]);
      }
    }
    PrefilterFixes(quoted);
  }

  /** The filter drops the double quotes. */
  lemma QuotesFiltered(name: string)
    ensures Filter("\"" + name + "\"", IsAllowed) == Filter(name, IsAllowed)
  {
    var q := "\"";
    assert Filter(q, IsAllowed) == [] by {
      assert !IsAllowed(q[0]) && q[1..] == [];
    }
    FilterConcat(q + name, q, IsAllowed);
    FilterConcat(q, name, IsAllowed);
  }

  /** Double quotes are not allowed characters: cleaning a quoted clean
      name gives the bare name. */
  lemma CleanDropsQuotes(name: string)
    requires IsClean(name)
    ensures Clean("\"" + name + "\"") == name
  {
    QuotedPrefilter(name);
    QuotesFiltered(name);
    PostfilterFixesClean(name);
  }

  /** The double quotes around a `content-disposition` file name are dropped:
      a quoted clean name is sanitized to the bare name. */
  lemma SanitizeDropsQuotes(norm: Normalizer, name: string, token: string)
    requires IsClean(name) && name != [] && name[0] != '.'
    requires norm.unquote("\"" + name + "\"") == "\"" + name + "\""
    requires norm.nfkd("\"" + name + "\"") == "\"" + name + "\""
    ensures Sanitize(norm, "\"" + name + "\"", token) == name
  {
    var quoted := "\"" + name + "\"";
    forall i | 0 <= i < |quoted| ensures IsAscii(quoted[i]) {
      if 0 < i < |quoted| - 1 { assert quoted[i] == name[i - 1]; }
    }
    assert DropNonAscii(quoted) == quoted;
    CleanDropsQuotes(name);
    SanitizeCases(norm, quoted, token);
  }
}
