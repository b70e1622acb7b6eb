/**
 The handful of Python `str` operations the order backend relies on, with
 their exact semantics: `split` on a one-character separator, `join`,
 `strip` with and without a character set, and the code-point ordering
 that `<` uses on strings.
 */
module PyStrings {

  /** The characters Python's `str.strip()` removes when called without arguments
      (those for which `str.isspace()` holds). */
  const Whitespace: set<char> := {
    '\t', '\n', '\U{000B}', '\U{000C}', '\r', '\U{001C}', '\U{001D}', '\U{001E}', '\U{001F}', ' ',
    '\U{0085}', '\U{00A0}', '\U{1680}', '\U{2000}', '\U{2001}', '\U{2002}', '\U{2003}', '\U{2004}',
    '\U{2005}', '\U{2006}', '\U{2007}', '\U{2008}', '\U{2009}', '\U{200A}', '\U{2028}', '\U{2029}',
    '\U{202F}', '\U{205F}', '\U{3000}'
  }

  // ---------------------------------------------------------------------------
  // split / join
  // ---------------------------------------------------------------------------

  /** Python's `s.split(c)`: the pieces between occurrences of `c`, empty pieces kept.
      There is always one piece more than there are separators. */
  function Split(s: string, c: char): (parts: seq<string>)
    ensures |parts| >= 1
  {
    if |s| == 0 then [""]
    else
      var rest := Split(s[1..], c);
      if s[0] == c then [""] + rest
      else [[s[0]] + rest[0]] + rest[1..]
  }

  /** Number of occurrences of `c` in `s`. */
  function Count(s: string, c: char): nat
  {
    if |s| == 0 then 0
    else (if s[0] == c then 1 else 0) + Count(s[1..], c)
  }

  /** There is one piece more than there are separators, and no piece holds one. */
  lemma {:induction false} SplitPieces(s: string, c: char)
    ensures |Split(s, c)| == Count(s, c) + 1
    ensures forall i :: 0 <= i < |Split(s, c)| ==> c !in Split(s, c)[i]
    decreases |s|
  {
    if |s| > 0 {
      SplitPieces(s[1..], c);
    }
  }

  /** Python's `sep.join(parts)`. */
  function Join(parts: seq<string>, sep: string): string
  {
    if |parts| == 0 then ""
    else if |parts| == 1 then parts[0]
    else parts[0] + sep + Join(parts[1..], sep)
  }

  /** Splitting at a separator placed between two strings splits each of them. */
  lemma {:induction false} SplitConcat(a: string, b: string, c: char)
    ensures Split(a + [c] + b, c) == Split(a, c) + Split(b, c)
    decreases |a|
  {
    if |a| == 0 {
      assert a + [c] + b == [c] + b;
      assert ([c] + b)[1..] == b;
    } else {
      var s := a + [c] + b;
      assert s[1..] == a[1..] + [c] + b;
      SplitConcat(a[1..], b, c);
    }
  }

  /** A string without the separator is a single piece. */
  lemma {:induction false} SplitNoSeparator(s: string, c: char)
    requires c !in s
    ensures Split(s, c) == [s]
    decreases |s|
  {
    if |s| > 0 {
      assert c !in s[1..];
      SplitNoSeparator(s[1..], c);
      assert [s[0]] + s[1..] == s;
    }
  }

  /** Round trip: splitting a join recovers the pieces, provided no piece holds the separator. */
  lemma {:induction false} SplitJoin(parts: seq<string>, c: char)
    requires |parts| > 0
    requires forall i :: 0 <= i < |parts| ==> c !in parts[i]
    ensures Split(Join(parts, [c]), c) == parts
    decreases |parts|
  {
    if |parts| == 1 {
      SplitNoSeparator(parts[0], c);
    } else {
      SplitJoin(parts[1..], c);
      SplitNoSeparator(parts[0], c);
      SplitConcat(parts[0], Join(parts[1..], [c]), c);
    }
  }

  /** Round trip the other way: joining the pieces of a split gives back the string. */
  lemma {:induction false} JoinSplit(s: string, c: char)
    ensures Join(Split(s, c), [c]) == s
    decreases |s|
  {
    if |s| > 0 {
      var rest := Split(s[1..], c);
      JoinSplit(s[1..], c);
      if s[0] == c {
        assert Split(s, c) == [""] + rest;
        assert ([""] + rest)[1..] == rest;
      } else {
        var parts := Split(s, c);
        assert parts == [[s[0]] + rest[0]] + rest[1..];
        if |rest| == 1 {
          assert parts == [[s[0]] + rest[0]];
        } else {
          assert parts[1..] == rest[1..];
          assert Join(rest, [c]) == rest[0] + [c] + Join(rest[1..], [c]);
        }
      }
    }
  }

  /** Joining with a multi-character separator that starts with `c`, then splitting at `c`:
      every piece after the first comes back with the separator's tail in front of it. */
  lemma {:induction false} SplitJoinWith(parts: seq<string>, c: char, tail: string)
    requires |parts| > 0
    requires c !in tail
    requires forall i :: 0 <= i < |parts| ==> c !in parts[i]
    ensures |Split(Join(parts, [c] + tail), c)| == |parts|
    ensures Split(Join(parts, [c] + tail), c)[0] == parts[0]
    ensures forall i :: 0 < i < |parts| ==> Split(Join(parts, [c] + tail), c)[i] == tail + parts[i]
    decreases |parts|
  {
    if |parts| == 1 {
      SplitNoSeparator(parts[0], c);
    } else {
      var rest := Join(parts[1..], [c] + tail);
      SplitJoinWith(parts[1..], c, tail);
      assert Join(parts, [c] + tail) == parts[0] + [c] + (tail + rest);
      SplitConcat(parts[0], tail + rest, c);
      SplitNoSeparator(parts[0], c);
      SplitPrefix(tail, rest, c);
    }
  }

  /** A separator-free prefix is glued onto the first piece. */
  lemma {:induction false} SplitPrefix(p: string, s: string, c: char)
    requires c !in p
    ensures var r := Split(p + s, c); |r| == |Split(s, c)| && r[0] == p + Split(s, c)[0] && r[1..] == Split(s, c)[1..]
    decreases |p|
  {
    if |p| > 0 {
      assert (p + s)[1..] == p[1..] + s;
      SplitPrefix(p[1..], s, c);
      assert [p[0]] + (p[1..] + Split(s, c)[0]) == p + Split(s, c)[0];
    } else {
      assert p + s == s;
    }
  }

  // ---------------------------------------------------------------------------
  // strip
  // ---------------------------------------------------------------------------

  /** Python's `s.lstrip(cs)`: the longest suffix of `s` that does not start with a character of `cs`. */
  function StripLeft(s: string, cs: set<char>): string
  {
    if |s| > 0 && s[0] in cs then StripLeft(s[1..], cs) else s
  }

  lemma {:induction false} StripLeftMeaning(s: string, cs: set<char>)
    ensures var r := StripLeft(s, cs);
      && |r| <= |s| && r == s[|s| - |r|..]
      && (forall k :: 0 <= k < |s| - |r| ==> s[k] in cs)
      && (|r| > 0 ==> r[0] !in cs)
    decreases |s|
  {
    if |s| > 0 && s[0] in cs {
      StripLeftMeaning(s[1..], cs);
    }
  }

  /** Python's `s.rstrip(cs)`: the longest prefix of `s` that does not end with a character of `cs`. */
  function StripRight(s: string, cs: set<char>): string
  {
    if |s| > 0 && s[|s| - 1] in cs then StripRight(s[..|s| - 1], cs) else s
  }

  lemma {:induction false} StripRightMeaning(s: string, cs: set<char>)
    ensures var r := StripRight(s, cs);
      && |r| <= |s| && r == s[..|r|]
      && (forall k :: |r| <= k < |s| ==> s[k] in cs)
      && (|r| > 0 ==> r[|r| - 1] !in cs)
    decreases |s|
  {
    if |s| > 0 && s[|s| - 1] in cs {
      StripRightMeaning(s[..|s| - 1], cs);
    }
  }

  /** Python's `s.strip(cs)`: both ends trimmed of characters in `cs`. */
  function Strip(s: string, cs: set<char>): (r: string)
  {
    StripRight(StripLeft(s, cs), cs)
  }

  /** The result of `Strip` is a slice of its input whose cut-off ends lie
      wholly in `cs` and whose own ends do not. */
  lemma StripIsTrim(s: string, cs: set<char>)
    ensures var r := Strip(s, cs);
      exists i, j :: 0 <= i <= j <= |s| && r == s[i..j]
        && (forall k :: 0 <= k < i ==> s[k] in cs)
        && (forall k :: j <= k < |s| ==> s[k] in cs)
        && (|r| > 0 ==> r[0] !in cs && r[|r| - 1] !in cs)
  {
    var l := StripLeft(s, cs);
    var r := StripRight(l, cs);
    StripLeftMeaning(s, cs);
    StripRightMeaning(l, cs);
    var i := |s| - |l|;
    var j := i + |r|;
    assert r == s[i..j];
    forall k | j <= k < |s| ensures s[k] in cs {
      assert s[k] == l[k - i];
    }
  }

  /** Stripping a frame of `cs` characters off a core whose ends are not in `cs`
      gives back the core exactly. */
  lemma {:induction false} StripFrame(p: string, u: string, q: string, cs: set<char>)
    requires forall k :: 0 <= k < |p| ==> p[k] in cs
    requires forall k :: 0 <= k < |q| ==> q[k] in cs
    requires |u| > 0 ==> u[0] !in cs && u[|u| - 1] !in cs
    ensures Strip(p + u + q, cs) == u
  {
    StripLeftFrame(p, u + q, cs);
    StripRightFrame(u, q, cs);
    assert p + u + q == p + (u + q);
  }

  /** Characters of `cs` in front of a string are stripped along with its own. */
  lemma {:induction false} StripLeftFrame(p: string, s: string, cs: set<char>)
    requires forall k :: 0 <= k < |p| ==> p[k] in cs
    ensures StripLeft(p + s, cs) == StripLeft(s, cs)
    decreases |p|
  {
    if |p| > 0 {
      assert (p + s)[1..] == p[1..] + s;
      StripLeftFrame(p[1..], s, cs);
    } else {
      assert p + s == s;
    }
  }

  /** Characters of `cs` after a string are stripped along with its own. */
  lemma {:induction false} StripRightFrameOnly(s: string, q: string, cs: set<char>)
    requires forall k :: 0 <= k < |q| ==> q[k] in cs
    ensures StripRight(s + q, cs) == StripRight(s, cs)
    decreases |q|
  {
    if |q| > 0 {
      var t := s + q;
      assert t[..|t| - 1] == s + q[..|q| - 1];
      StripRightFrameOnly(s, q[..|q| - 1], cs);
    } else {
      assert s + q == s;
    }
  }

  /** Left-stripping a concatenation stops inside the first string unless that
      string strips away entirely. */
  lemma {:induction false} StripLeftConcat(s: string, q: string, cs: set<char>)
    ensures StripLeft(s + q, cs) == if StripLeft(s, cs) == "" then StripLeft(q, cs) else StripLeft(s, cs) + q
    decreases |s|
  {
    if |s| > 0 {
      assert (s + q)[0] == s[0];
      assert (s + q)[1..] == s[1..] + q;
      StripLeftConcat(s[1..], q, cs);
    } else {
      assert s + q == q;
    }
  }

  lemma StripRightFrame(u: string, q: string, cs: set<char>)
    requires forall k :: 0 <= k < |q| ==> q[k] in cs
    requires |u| > 0 ==> u[0] !in cs && u[|u| - 1] !in cs
    ensures StripRight(StripLeft(u + q, cs), cs) == u
  {
    if |u| == 0 {
      assert u + q == q;
      AllStripped(q, cs);
    } else {
      assert (u + q)[0] == u[0];
      StripRightSuffix(u, q, cs);
    }
  }

  /** A string made only of `cs` characters strips to nothing. */
  lemma AllStripped(q: string, cs: set<char>)
    requires forall k :: 0 <= k < |q| ==> q[k] in cs
    ensures StripLeft(q, cs) == ""
  {
  }

  lemma {:induction false} StripRightSuffix(u: string, q: string, cs: set<char>)
    requires forall k :: 0 <= k < |q| ==> q[k] in cs
    requires |u| > 0 && u[|u| - 1] !in cs
    ensures StripRight(u + q, cs) == u
    decreases |q|
  {
    if |q| > 0 {
      var s := u + q;
      assert s[..|s| - 1] == u + q[..|q| - 1];
      StripRightSuffix(u, q[..|q| - 1], cs);
    } else {
      assert u + q == u;
    }
  }

  // ---------------------------------------------------------------------------
  // ordering
  // ---------------------------------------------------------------------------

  /** Python's `a < b` on strings: lexicographic by code point, a proper prefix first. */
  predicate Less(a: string, b: string)
  {
    if |a| == 0 then |b| > 0
    else if |b| == 0 then false
    else if a[0] == b[0] then Less(a[1..], b[1..])
    else a[0] < b[0]
  }

  lemma {:induction false} LessIrreflexive(a: string)
    ensures !Less(a, a)
    decreases |a|
  {
    if |a| > 0 {
      LessIrreflexive(a[1..]);
    }
  }

  lemma {:induction false} LessTransitive(a: string, b: string, c: string)
    requires Less(a, b) && Less(b, c)
    ensures Less(a, c)
    decreases |a|
  {
    if |a| > 0 && |b| > 0 && |c| > 0 && a[0] == b[0] && b[0] == c[0] {
      LessTransitive(a[1..], b[1..], c[1..]);
    }
  }

  /** Any two distinct strings are ordered one way or the other. */
  lemma {:induction false} LessTotal(a: string, b: string)
    ensures a == b || Less(a, b) || Less(b, a)
    decreases |a|
  {
    if |a| > 0 && |b| > 0 && a[0] == b[0] {
      LessTotal(a[1..], b[1..]);
      if a[1..] == b[1..] {
        assert a == [a[0]] + a[1..] && b == [b[0]] + b[1..];
      }
    }
  }

  lemma LessAsymmetric(a: string, b: string)
    requires Less(a, b)
    ensures !Less(b, a)
  {
    if Less(b, a) {
      LessTransitive(a, b, a);
      LessIrreflexive(a);
    }
  }
}
