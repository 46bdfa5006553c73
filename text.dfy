/** String helpers with Python's semantics: `startswith`, `endswith` and
    `str.split(sep)` for a non-empty separator. */
module Text {

  datatype Option<+T> = None | Some(value: T)

  predicate StartsWith(s: string, prefix: string) {
    |prefix| <= |s| && s[..|prefix|] == prefix
  }

  predicate EndsWith(s: string, suffix: string) {
    |suffix| <= |s| && s[|s| - |suffix|..] == suffix
  }

  /** `sep` occurs in `s` starting at index `i`. */
  predicate OccursAt(s: string, sep: string, i: nat) {
    i + |sep| <= |s| && s[i..i + |sep|] == sep
  }

  predicate Contains(s: string, sep: string) {
    exists i: nat | i <= |s| :: OccursAt(s, sep, i)
  }

  /** Index of the first occurrence of `sep` in `s` at or after `from`. */
  function FindFrom(s: string, sep: string, from: nat): (r: Option<nat>)
    ensures r.Some? ==> from <= r.value && OccursAt(s, sep, r.value)
    ensures r.Some? ==> forall j: nat :: from <= j < r.value ==> !OccursAt(s, sep, j)
    ensures r.None? ==> forall j: nat :: from <= j ==> !OccursAt(s, sep, j)
    decreases |s| - from
  {
    if |s| < from + |sep| then None
    else if OccursAt(s, sep, from) then Some(from)
    else FindFrom(s, sep, from + 1)
  }

  /** Index of the first occurrence of `sep` in `s` (Python's `str.find`). */
  function Find(s: string, sep: string): (r: Option<nat>)
    ensures r.Some? ==> OccursAt(s, sep, r.value)
    ensures r.Some? ==> forall j: nat :: j < r.value ==> !OccursAt(s, sep, j)
    ensures r.None? <==> !Contains(s, sep)
  {
    FindFrom(s, sep, 0)
  }

  /** Python's `s.split(sep)` for a non-empty separator: the pieces between
      successive non-overlapping occurrences, scanned from the left. */
  function Split(s: string, sep: string): (parts: seq<string>)
    requires sep != []
    ensures |parts| >= 1
    ensures |parts| >= 2 <==> Contains(s, sep)
    decreases |s|
  {
    match Find(s, sep)
    case None => [s]
    case Some(i) => [s[..i]] + Split(s[i + |sep|..], sep)
  }

  /** Python's `sep.join(parts)`. */
  function Join(parts: seq<string>, sep: string): string {
    if parts == [] then ""
    else if |parts| == 1 then parts[0]
    else parts[0] + sep + Join(parts[1..], sep)
  }

  /** Splitting and joining back with the same separator gives the string back. */
  lemma {:induction false} JoinSplit(s: string, sep: string)
    requires sep != []
    ensures Join(Split(s, sep), sep) == s
    decreases |s|
  {
    match Find(s, sep)
    case None =>
    case Some(i) =>
      var head, rest := s[..i], s[i + |sep|..];
      var tail := Split(rest, sep);
      SplitAround(s, sep, i);
      JoinCons(head, tail, sep);
      JoinSplit(rest, sep);
  }

  /** Around its first occurrence of `sep`, `s` is the piece before, `sep`
      and the rest, and splitting it starts with the piece before. */
  lemma SplitAround(s: string, sep: string, i: nat)
    requires sep != [] && Find(s, sep) == Some(i)
    ensures s == s[..i] + sep + s[i + |sep|..]
    ensures Split(s, sep) == [s[..i]] + Split(s[i + |sep|..], sep)
  {
    var after := s[i..];
    assert s == s[..i] + after;
    assert after[..|sep|] == sep && after[|sep|..] == s[i + |sep|..];
    assert after == after[..|sep|] + after[|sep|..];
  }

  /** Joining a piece in front of a non-empty list of pieces. */
  lemma JoinCons(head: string, tail: seq<string>, sep: string)
    requires tail != []
    ensures Join([head] + tail, sep) == head + sep + Join(tail, sep)
  {
    assert ([head] + tail)[1..] == tail;
  }

  /** The text before the first occurrence holds no occurrence. */
  lemma BeforeFirstIsFree(s: string, sep: string, i: nat)
    requires sep != [] && Find(s, sep) == Some(i)
    ensures !Contains(s[..i], sep)
  {
    var head := s[..i];
    forall j: nat | j <= |head| ensures !OccursAt(head, sep, j) {
      if j + |sep| <= |head| {
        assert !OccursAt(s, sep, j);
        assert s[j..j + |sep|] == head[j..j + |sep|];
      }
    }
  }

  /** No piece produced by `Split` contains the separator. */
  lemma {:induction false} SplitPartsFree(s: string, sep: string)
    requires sep != []
    ensures forall k :: 0 <= k < |Split(s, sep)| ==> !Contains(Split(s, sep)[k], sep)
    decreases |s|
  {
    match Find(s, sep)
    case None =>
    case Some(i) =>
      var rest := s[i + |sep|..];
      SplitPartsFree(rest, sep);
      var head := s[..i];
      BeforeFirstIsFree(s, sep, i);
      var tail := Split(rest, sep);
      assert Split(s, sep) == [head] + tail;
      assert forall k | 1 <= k < |tail| + 1 :: ([head] + tail)[k] == tail[k - 1];
  }

  /** The first piece is empty exactly when `s` is empty or starts with `sep`. */
  lemma FirstPartEmpty(s: string, sep: string)
    requires sep != []
    ensures Split(s, sep)[0] == [] <==> s == [] || StartsWith(s, sep)
  {
    assert StartsWith(s, sep) ==> OccursAt(s, sep, 0);
  }

  /** A string without the separator's first character does not contain it. */
  lemma AbsentFirstChar(s: string, sep: string)
    requires sep != [] && sep[0] !in s
    ensures !Contains(s, sep)
  {
    forall i: nat | i <= |s| ensures !OccursAt(s, sep, i) {
      if i + |sep| <= |s| {
        assert s[i..i + |sep|][0] == s[i];
      }
    }
  }

  /** A string without the separator's last character does not contain it. */
  lemma AbsentLastChar(s: string, sep: string)
    requires sep != [] && sep[|sep| - 1] !in s
    ensures !Contains(s, sep)
  {
    forall i: nat | i <= |s| ensures !OccursAt(s, sep, i) {
      if i + |sep| <= |s| {
        assert s[i..i + |sep|][|sep| - 1] == s[i + |sep| - 1];
      }
    }
  }

  /** No proper prefix of `sep` is also a suffix of it, so two occurrences of
      `sep` can never overlap. */
  predicate Unbordered(sep: string) {
    forall k | 0 < k < |sep| :: sep[..k] != sep[|sep| - k..]
  }

  /** When the text before a separator holds none, the separator cannot
      overlap itself, and the text after it holds none, splitting gives
      exactly those two pieces. */
  lemma SplitAtFirst(p: string, sep: string, rest: string)
    requires sep != [] && Unbordered(sep)
    requires !Contains(p, sep) && !Contains(rest, sep)
    ensures Split(p + sep + rest, sep) == [p, rest]
  {
    var s := p + sep + rest;
    assert s[|p|..|p| + |sep|] == sep;
    assert OccursAt(s, sep, |p|);
    forall j: nat | j < |p| ensures !OccursAt(s, sep, j) {
      if j + |sep| <= |p| {
        assert s[j..j + |sep|] == p[j..j + |sep|];
        assert !OccursAt(p, sep, j);
      } else {
        // An occurrence at `j` would overlap the one at `|p|` by `k` characters.
        var k := j + |sep| - |p|;
        assert sep[..k] != sep[|sep| - k..];
        assert s[|p|..|p| + |sep|][..k] == s[|p|..|p| + k];
        assert s[j..j + |sep|][|sep| - k..] == s[|p|..|p| + k];
      }
    }
    var i := Find(s, sep).value;
    assert i == |p|;
    assert s[..i] == p;
    assert s[i + |sep|..] == rest;
  }

  /** Python's `s.split("/")[-1]`: the text after the last `/`. */
  function LastSegment(s: string): string {
    var parts := Split(s, "/");
    parts[|parts| - 1]
  }

  /** The last segment is a suffix of `s` with no `/` in it, and it is either
      the whole of `s` or preceded by a `/`. */
  lemma LastSegmentIsTail(s: string)
    ensures '/' !in LastSegment(s)
    ensures EndsWith(s, LastSegment(s))
    ensures LastSegment(s) == s || EndsWith(s, "/" + LastSegment(s))
  {
    SplitLastFree(s, "/");
    JoinSplit(s, "/");
    LastPartIsTail(s, Split(s, "/"));
  }

  /** The last part of a split holds no separator. */
  lemma SplitLastFree(s: string, sep: string)
    requires sep != []
    ensures !Contains(Split(s, sep)[|Split(s, sep)| - 1], sep)
  {
    SplitPartsFree(s, sep);
  }

  /** The last of any parts that join back to `s` with `/`, and that hold no
      `/`, is a tail of `s` after a `/` or all of it. */
  lemma LastPartIsTail(s: string, parts: seq<string>)
    requires |parts| >= 1 && Join(parts, "/") == s
    requires !Contains(parts[|parts| - 1], "/")
    ensures '/' !in parts[|parts| - 1]
    ensures EndsWith(s, parts[|parts| - 1])
    ensures parts[|parts| - 1] == s || EndsWith(s, "/" + parts[|parts| - 1])
  {
    CharFree(parts[|parts| - 1], '/');
    JoinTail(parts, "/");
  }

  /** A string in which the one-character string `[c]` does not occur does
      not hold `c`. */
  lemma CharFree(t: string, c: char)
    requires !Contains(t, [c])
    ensures c !in t
  {
    if c in t {
      var j :| 0 <= j < |t| && t[j] == c;
      assert t[j..j + 1] == [c];
      assert OccursAt(t, [c], j);
    }
  }

  /** The last piece ends a join, after a separator when there are two or more. */
  lemma {:induction false} JoinTail(parts: seq<string>, sep: string)
    requires |parts| >= 1
    ensures EndsWith(Join(parts, sep), parts[|parts| - 1])
    ensures |parts| >= 2 ==> EndsWith(Join(parts, sep), sep + parts[|parts| - 1])
    ensures |parts| == 1 ==> Join(parts, sep) == parts[0]
  {
    if |parts| >= 2 {
      var last := parts[|parts| - 1];
      JoinTail(parts[1..], sep);
      assert parts[1..][|parts| - 2] == last;
      var rest := Join(parts[1..], sep);
      assert Join(parts, sep) == (parts[0] + sep) + rest;
      if |parts| == 2 {
        assert rest == last;
      } else {
        assert EndsWith(rest, sep + last);
      }
    }
  }
}
