/** The Python `str` operations the diff engine relies on, with Python's
    semantics: `isspace`, `rstrip`/`strip`, `startswith`/`endswith`,
    `split(sep)`, `split(c, maxsplit=1)` and `sep.join(parts)`. Also the
    source's own helper `remove_suffix`. */
module PyStrings {
  import opened Results

  type String = seq<char>

  /** `c.isspace()` in Python 3: the characters of Unicode category Zs and
      of bidirectional types WS, B and S. */
  predicate IsSpace(c: char) {
    || ('\t' <= c <= '\r')
    || ('\U{1C}' <= c <= ' ')
    || c == '\U{85}' || c == '\U{A0}' || c == '\U{1680}'
    || ('\U{2000}' <= c <= '\U{200A}')
    || c == '\U{2028}' || c == '\U{2029}' || c == '\U{202F}' || c == '\U{205F}' || c == '\U{3000}'
  }

  predicate IsCloseParen(c: char) { c == ')' }

  predicate StartsWith(s: String, prefix: String) {
    |prefix| <= |s| && s[..|prefix|] == prefix
  }

  predicate EndsWith(s: String, suffix: String) {
    |suffix| <= |s| && s[|s| - |suffix|..] == suffix
  }

  /** `sep` occurs in `s` starting at index `i`. */
  predicate OccursAt(s: String, sep: String, i: int) {
    0 <= i && i + |sep| <= |s| && s[i..i + |sep|] == sep
  }

  /** `sep in s` */
  predicate Contains(s: String, sep: String) {
    exists i :: 0 <= i <= |s| && OccursAt(s, sep, i)
  }

  /** A one-character separator occurs exactly where that character is. */
  lemma OccursAtChar(s: String, c: char, j: int)
    requires OccursAt(s, [c], j)
    ensures s[j] == c
  {
    assert s[j..j + 1] == [c];
  }

  /** Dropping the first character keeps a string free of `sep`. */
  lemma TailFree(p: String, sep: String)
    requires p != [] && !Contains(p, sep)
    ensures !Contains(p[1..], sep)
  {
    forall j | OccursAt(p[1..], sep, j)
      ensures false
    {
      assert p[1..][j..j + |sep|] == p[j + 1..j + 1 + |sep|];
      assert OccursAt(p, sep, j + 1);
    }
  }

  /** `s.rstrip(chars)`: drops the longest suffix made of characters in `drop`. */
  function RStripBy(s: String, drop: char -> bool): (r: String)
    ensures |r| <= |s| && r == s[..|r|]
    ensures r == [] || !drop(r[|r| - 1])
    ensures forall i :: |r| <= i < |s| ==> drop(s[i])
  {
    if |s| > 0 && drop(s[|s| - 1]) then RStripBy(s[..|s| - 1], drop) else s
  }

  /** `s.rstrip()` */
  function RStrip(s: String): (r: String) {
    RStripBy(s, IsSpace)
  }

  /** `s.lstrip()` */
  function LStrip(s: String): (r: String)
    ensures |r| <= |s| && r == s[|s| - |r|..]
    ensures r == [] || !IsSpace(r[0])
    ensures forall i :: 0 <= i < |s| - |r| ==> IsSpace(s[i])
  {
    if |s| > 0 && IsSpace(s[0]) then LStrip(s[1..]) else s
  }

  /** `s.strip()` */
  function Strip(s: String): (r: String) {
    LStrip(RStrip(s))
  }

  /** A string whose first and last characters are not white space is its
      own `strip()`. */
  lemma StripNoEdgeSpace(s: String)
    requires s != [] && !IsSpace(s[0]) && !IsSpace(s[|s| - 1])
    ensures Strip(s) == s
  {
  }

  /** `rstrip()` ignores a trailing line terminator. */
  lemma RStripNewline(s: String)
    ensures RStrip(s + "\n") == RStrip(s)
  {
    assert (s + "\n")[..|s|] == s;
  }

  /** `sep.join(parts)` */
  function Join(parts: seq<String>, sep: String): String {
    if |parts| == 0 then []
    else if |parts| == 1 then parts[0]
    else parts[0] + sep + Join(parts[1..], sep)
  }

  /** A join whose last part is empty ends with the separator. */
  lemma {:induction false} JoinEmptyLast(parts: seq<String>, sep: String)
    requires |parts| >= 2 && parts[|parts| - 1] == []
    ensures EndsWith(Join(parts, sep), sep)
    decreases |parts|
  {
    if |parts| > 2 {
      JoinEmptyLast(parts[1..], sep);
    }
  }

  /** `s.split(sep)`: cuts at every occurrence of `sep`, found left to right
      without overlaps; always at least one piece. */
  function Split(s: String, sep: String): (r: seq<String>)
    requires sep != []
    ensures |r| >= 1
    decreases |s|
  {
    if |s| < |sep| then [s]
    else if s[..|sep|] == sep then [[]] + Split(s[|sep|..], sep)
    else
      var rest := Split(s[1..], sep);
      [[s[0]] + rest[0]] + rest[1..]
  }

  /** `s.count(sep)`: occurrences of `sep`, found left to right without
      overlaps. */
  function Count(s: String, sep: String): nat
    requires sep != []
    decreases |s|
  {
    if |s| < |sep| then 0
    else if s[..|sep|] == sep then 1 + Count(s[|sep|..], sep)
    else Count(s[1..], sep)
  }

  /** `split` yields one piece more than there are separators. */
  lemma {:induction false} SplitCount(s: String, sep: String)
    requires sep != []
    ensures |Split(s, sep)| == Count(s, sep) + 1
    decreases |s|
  {
    if |s| >= |sep| {
      if s[..|sep|] == sep {
        SplitCount(s[|sep|..], sep);
      } else {
        SplitCount(s[1..], sep);
      }
    }
  }

  /** Splitting then joining with the same separator gives the string back. */
  lemma {:induction false} JoinSplit(s: String, sep: String)
    requires sep != []
    ensures Join(Split(s, sep), sep) == s
    decreases |s|
  {
    if |s| < |sep| {
    } else if s[..|sep|] == sep {
      var rest := Split(s[|sep|..], sep);
      JoinSplit(s[|sep|..], sep);
      assert Split(s, sep) == [[]] + rest;
      assert Join([[]] + rest, sep) == [] + sep + Join(rest, sep);
      assert s == sep + s[|sep|..];
    } else {
      var rest := Split(s[1..], sep);
      JoinSplit(s[1..], sep);
      var r := [[s[0]] + rest[0]] + rest[1..];
      assert Split(s, sep) == r;
      if |rest| == 1 {
        assert Join(r, sep) == [s[0]] + rest[0];
      } else {
        assert Join(rest, sep) == rest[0] + sep + Join(rest[1..], sep);
        assert r[1..] == rest[1..];
        assert Join(r, sep) == ([s[0]] + rest[0]) + sep + Join(rest[1..], sep);
      }
      assert s == [s[0]] + s[1..];
    }
  }

  /** The first piece of a join is a prefix of the joined string. */
  lemma FirstPieceIsPrefix(parts: seq<String>, sep: String)
    requires |parts| >= 1
    ensures StartsWith(Join(parts, sep), parts[0])
  {
    if |parts| > 1 {
      assert Join(parts, sep) == parts[0] + (sep + Join(parts[1..], sep));
    }
  }

  /** No piece produced by `split` contains the separator. */
  lemma {:induction false} SplitPiecesFree(s: String, sep: String)
    requires sep != []
    ensures forall i :: 0 <= i < |Split(s, sep)| ==> !Contains(Split(s, sep)[i], sep)
    decreases |s|
  {
    var r := Split(s, sep);
    if |s| < |sep| {
      assert !Contains(s, sep);
    } else if s[..|sep|] == sep {
      SplitPiecesFree(s[|sep|..], sep);
      assert !Contains([], sep);
    } else {
      var rest := Split(s[1..], sep);
      SplitPiecesFree(s[1..], sep);
      JoinSplit(s[1..], sep);
      FirstPieceIsPrefix(rest, sep);
      var head := [s[0]] + rest[0];
      assert head == s[..|head|];
      forall j | OccursAt(head, sep, j)
        ensures false
      {
        if j != 0 {
          assert head[j..j + |sep|] == rest[0][j - 1..j - 1 + |sep|];
          assert OccursAt(rest[0], sep, j - 1);
        }
      }
      assert r[0] == head;
      assert forall i :: 1 <= i < |r| ==> r[i] == rest[i];
    }
  }

  /** A separator whose first character does not occur again in it cannot
      straddle the boundary between a piece and the separator that follows. */
  predicate HeadUnique(sep: String) {
    sep != [] && sep[0] !in sep[1..]
  }

  /** A piece without the separator is a single piece. */
  lemma {:induction false} SplitWithoutSep(p: String, sep: String)
    requires sep != [] && !Contains(p, sep)
    ensures Split(p, sep) == [p]
    decreases |p|
  {
    if |p| >= |sep| {
      assert !OccursAt(p, sep, 0);
      TailFree(p, sep);
      SplitWithoutSep(p[1..], sep);
      assert p == [p[0]] + p[1..];
    }
  }

  /** Splitting `p + sep + t` cuts exactly after `p` when `p` has no separator. */
  lemma {:induction false} SplitFront(p: String, sep: String, t: String)
    requires HeadUnique(sep) && !Contains(p, sep)
    ensures Split(p + sep + t, sep) == [p] + Split(t, sep)
    decreases |p|
  {
    var s := p + sep + t;
    if p == [] {
      assert s[..|sep|] == sep && s[|sep|..] == t;
    } else {
      assert s[..|sep|] != sep by {
        if |p| >= |sep| {
          assert !OccursAt(p, sep, 0);
          assert s[..|sep|] == p[..|sep|];
        } else {
          assert s[|p|] == sep[0];
          assert sep[|p|] == sep[1..][|p| - 1];
          assert s[..|sep|][|p|] != sep[|p|];
        }
      }
      TailFree(p, sep);
      SplitFront(p[1..], sep, t);
      assert s[1..] == p[1..] + sep + t;
      assert p == [p[0]] + p[1..];
    }
  }

  /** Joining pieces that are free of the separator, then splitting, gives
      the pieces back. */
  lemma {:induction false} SplitJoin(parts: seq<String>, sep: String)
    requires HeadUnique(sep) && |parts| >= 1
    requires forall i :: 0 <= i < |parts| ==> !Contains(parts[i], sep)
    ensures Split(Join(parts, sep), sep) == parts
  {
    if |parts| == 1 {
      SplitWithoutSep(parts[0], sep);
    } else {
      SplitJoin(parts[1..], sep);
      SplitFront(parts[0], sep, Join(parts[1..], sep));
      assert parts == [parts[0]] + parts[1..];
    }
  }

  /** `s.split(c, maxsplit=1)` when it yields two parts; `None` when `c`
      does not occur (the source then fails to unpack two values). */
  function SplitOnce(s: String, c: char): (r: Option<(String, String)>)
    ensures r.None? <==> c !in s
    ensures r.Some? ==> s == r.value.0 + [c] + r.value.1 && c !in r.value.0
  {
    if c !in s then None
    else if s[0] == c then Some(([], s[1..]))
    else
      var r := SplitOnce(s[1..], c);
      Some(([s[0]] + r.value.0, r.value.1))
  }

  /** The split point is the first occurrence, so the two parts are
      determined by it. */
  lemma {:induction false} SplitOnceAt(a: String, c: char, b: String)
    requires c !in a
    ensures SplitOnce(a + [c] + b, c) == Some((a, b))
  {
    if a != [] {
      var s := a + [c] + b;
      SplitOnceAt(a[1..], c, b);
      assert s[0] == a[0] && s[0] != c && c in s;
      assert s[1..] == a[1..] + [c] + b;
      assert a == [a[0]] + a[1..];
    }
  }

  /** The source's `remove_suffix(self, suffix)`: drops `suffix` when it is
      non-empty and ends `s`, and otherwise returns `s` unchanged. */
  function RemoveSuffix(s: String, suffix: String): (r: String)
    ensures suffix != [] && EndsWith(s, suffix) ==> r + suffix == s
    ensures !(suffix != [] && EndsWith(s, suffix)) ==> r == s
  {
    if suffix != [] && EndsWith(s, suffix) then s[..|s| - |suffix|] else s
  }

  /** Removing a suffix that was just appended gives back the original. */
  lemma RemoveAppendedSuffix(s: String, suffix: String)
    requires suffix != []
    ensures RemoveSuffix(s + suffix, suffix) == s
  {
    assert (s + suffix)[|s|..] == suffix;
  }
}
