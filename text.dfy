/**
  The few Python string and path operations the script relies on, restricted to
  ASCII: `str.lower()`, `str.strip()`, `str.split(sep)` and the POSIX flavour of
  `os.path.join` and `os.path.basename`.
 */
module Text {

  type String = seq<char>

  predicate IsUpper(c: char) {
    'A' <= c <= 'Z'
  }

  /** The characters Python's `str.isspace()` accepts below 128. */
  predicate IsSpace(c: char) {
    c == ' ' || 9 <= c as int <= 13 || 28 <= c as int <= 31
  }

  ghost predicate AllSpace(s: String) {
    forall k :: 0 <= k < |s| ==> IsSpace(s[k])
  }

  function LowerChar(c: char): (r: char)
    ensures !IsUpper(r)
    ensures !IsUpper(c) ==> r == c
    ensures IsUpper(c) ==> 'a' <= r <= 'z' && r as int - c as int == 'a' as int - 'A' as int
  {
    if IsUpper(c) then (c as int + ('a' as int - 'A' as int)) as char else c
  }

  /** `s.lower()` on ASCII text: letter by letter, nothing added or removed. */
  function Lower(s: String): String {
    seq(|s|, k requires 0 <= k < |s| => LowerChar(s[k]))
  }

  /** Drops leading whitespace. */
  function TrimStart(s: String): String {
    if s != [] && IsSpace(s[0]) then TrimStart(s[1..]) else s
  }

  /** Drops trailing whitespace. */
  function TrimEnd(s: String): String {
    if s != [] && IsSpace(s[|s| - 1]) then TrimEnd(s[..|s| - 1]) else s
  }

  /** `s.strip()`. */
  function Strip(s: String): String {
    TrimEnd(TrimStart(s))
  }

  /** `TrimStart` removes a whitespace prefix and stops at the first other character. */
  lemma {:induction false} TrimStartSpec(s: String)
    ensures var r := TrimStart(s);
      |r| <= |s| && r == s[|s| - |r|..] && AllSpace(s[..|s| - |r|]) && (r == [] || !IsSpace(r[0]))
  {
    if s != [] && IsSpace(s[0]) {
      TrimStartSpec(s[1..]);
      var r := TrimStart(s[1..]);
      assert s[..|s| - |r|] == [s[0]] + s[1..][..|s| - 1 - |r|];
    }
  }

  /** `TrimEnd` removes a whitespace suffix and stops at the last other character. */
  lemma {:induction false} TrimEndSpec(s: String)
    ensures var r := TrimEnd(s);
      |r| <= |s| && r == s[..|r|] && AllSpace(s[|r|..]) && (r == [] || !IsSpace(r[|r| - 1]))
  {
    if s != [] && IsSpace(s[|s| - 1]) {
      TrimEndSpec(s[..|s| - 1]);
      var r := TrimEnd(s[..|s| - 1]);
      assert s[|r|..] == s[..|s| - 1][|r|..] + [s[|s| - 1]];
    }
  }

  /**
    What `strip()` returns: a slice of `s` that neither starts nor ends with
    whitespace, everything cut off on either side being whitespace.
   */
  lemma StripSlice(s: String) returns (i: nat)
    ensures var r := Strip(s);
      i + |r| <= |s| && s[i..i + |r|] == r &&
      AllSpace(s[..i]) && AllSpace(s[i + |r|..]) &&
      (r == [] || (!IsSpace(r[0]) && !IsSpace(r[|r| - 1])))
  {
    var t := TrimStart(s);
    var r := TrimEnd(t);
    TrimStartSpec(s);
    TrimEndSpec(t);
    i := |s| - |t|;
    assert s[i..i + |r|] == r;
    assert s[i + |r|..] == t[|r|..];
  }

  lemma {:induction false} TrimStartAllSpace(s: String)
    requires AllSpace(s)
    ensures TrimStart(s) == []
  {
    if s != [] {
      TrimStartAllSpace(s[1..]);
    }
  }

  lemma {:induction false} TrimStartPadded(a: String, t: String)
    requires AllSpace(a)
    ensures TrimStart(a + t) == TrimStart(t)
  {
    if a != [] {
      assert (a + t)[0] == a[0];
      assert (a + t)[1..] == a[1..] + t;
      TrimStartPadded(a[1..], t);
    } else {
      assert a + t == t;
    }
  }

  lemma {:induction false} TrimEndPadded(t: String, b: String)
    requires AllSpace(b)
    ensures TrimEnd(t + b) == TrimEnd(t)
  {
    if b != [] {
      assert (t + b)[|t + b| - 1] == b[|b| - 1];
      assert (t + b)[..|t + b| - 1] == t + b[..|b| - 1];
      TrimEndPadded(t, b[..|b| - 1]);
    } else {
      assert t + b == t;
    }
  }

  /**
    The converse of Strip's contract: whatever is surrounded by whitespace and
    itself has non-space ends is what `strip()` returns.
   */
  lemma StripPadded(a: String, m: String, b: String)
    requires AllSpace(a) && AllSpace(b)
    requires m == [] || (!IsSpace(m[0]) && !IsSpace(m[|m| - 1]))
    ensures Strip(a + m + b) == m
  {
    TrimStartPadded(a, m + b);
    assert a + m + b == a + (m + b);
    if m == [] {
      assert m + b == b;
      TrimStartAllSpace(b);
    } else {
      TrimEndPadded(m, b);
    }
  }

  /** `JoinWith(parts, sep)` is `sep.join(parts)`. */
  function JoinWith(parts: seq<String>, sep: char): String
    requires |parts| >= 1
  {
    if |parts| == 1 then parts[0] else JoinWith(parts[..|parts| - 1], sep) + [sep] + parts[|parts| - 1]
  }

  /** `s.split(sep)` for a one-character separator, built from the end. */
  function Split(s: String, sep: char): (parts: seq<String>)
    ensures |parts| >= 1
  {
    if s == [] then [[]]
    else
      var init := Split(s[..|s| - 1], sep);
      var c := s[|s| - 1];
      if c == sep then init + [[]]
      else
        var n := |init| - 1;
        init[..n] + [init[n] + [c]]
  }

  /**
    What `split` promises: no part holds the separator, and joining the parts
    back with the separator gives `s` (so the empty string gives `['']`).
   */
  lemma {:induction false} SplitSpec(s: String, sep: char)
    ensures forall k :: 0 <= k < |Split(s, sep)| ==> sep !in Split(s, sep)[k]
    ensures JoinWith(Split(s, sep), sep) == s
  {
    if s != [] {
      var s', c := s[..|s| - 1], s[|s| - 1];
      SplitSpec(s', sep);
      var init := Split(s', sep);
      assert s == s' + [c];
      if c == sep {
        JoinWithEmptyLast(init, sep);
      } else {
        JoinWithExtendLast(init, sep, c);
        var n := |init| - 1;
        var parts := init[..n] + [init[n] + [c]];
        forall k | 0 <= k < |parts|
          ensures sep !in parts[k]
        {
          if k < n {
            assert parts[k] == init[k];
          }
        }
      }
    }
  }

  lemma JoinWithEmptyLast(parts: seq<String>, sep: char)
    requires |parts| >= 1
    ensures JoinWith(parts + [[]], sep) == JoinWith(parts, sep) + [sep]
  {
    assert (parts + [[]])[..|parts|] == parts;
  }

  lemma JoinWithExtendLast(parts: seq<String>, sep: char, c: char)
    requires |parts| >= 1
    ensures var n := |parts| - 1;
      JoinWith(parts[..n] + [parts[n] + [c]], sep) == JoinWith(parts, sep) + [c]
  {
    var n := |parts| - 1;
    var longer := parts[..n] + [parts[n] + [c]];
    assert longer[..n] == parts[..n];
  }

  /** The last of the parts, `s.split(sep)[-1]`. */
  function LastPart(s: String, sep: char): String {
    var parts := Split(s, sep);
    parts[|parts| - 1]
  }

  /** Appending separator-free text only extends the last part. */
  lemma {:induction false} SplitExtend(s: String, t: String, sep: char)
    requires sep !in t
    ensures |Split(s + t, sep)| == |Split(s, sep)|
    ensures Split(s + t, sep)[..|Split(s, sep)| - 1] == Split(s, sep)[..|Split(s, sep)| - 1]
    ensures LastPart(s + t, sep) == LastPart(s, sep) + t
    decreases |t|
  {
    if t == [] {
      assert s + t == s;
    } else {
      var t', c := t[..|t| - 1], t[|t| - 1];
      assert t == t' + [c];
      assert c != sep;
      assert (s + t)[..|s + t| - 1] == s + t';
      assert (s + t)[|s + t| - 1] == c;
      SplitExtend(s, t', sep);
      var init := Split(s + t', sep);
      var n := |init| - 1;
      assert Split(s + t, sep) == init[..n] + [init[n] + [c]];
      assert LastPart(s + t, sep) == init[n] + [c];
    }
  }

  /** A text without the separator is a single part. */
  lemma DotlessSplit(s: String, sep: char)
    requires sep !in s
    ensures Split(s, sep) == [s]
  {
    SplitExtend([], s, sep);
    assert [] + s == s;
  }

  /** After a separator, the last part is what follows it. */
  lemma SplitAfterSeparator(s: String, t: String, sep: char)
    requires sep !in t
    ensures |Split(s + [sep] + t, sep)| == |Split(s, sep)| + 1
    ensures Split(s + [sep] + t, sep)[..|Split(s, sep)|] == Split(s, sep)
    ensures LastPart(s + [sep] + t, sep) == t
  {
    SplitExtend(s + [sep], t, sep);
    assert (s + [sep])[..|s + [sep]| - 1] == s;
    var p := Split(s, sep);
    var q := Split(s + [sep], sep);
    assert q == p + [[]];
    assert [] + t == t;
    assert q[..|p|] == p;
  }

  /**
    The round trip in the other direction: splitting a join of separator-free
    parts gives the parts back.
   */
  lemma {:induction false} SplitJoinWith(parts: seq<String>, sep: char)
    requires |parts| >= 1
    requires forall k :: 0 <= k < |parts| ==> sep !in parts[k]
    ensures Split(JoinWith(parts, sep), sep) == parts
  {
    var n := |parts| - 1;
    if n == 0 {
      DotlessSplit(parts[0], sep);
    } else {
      var init := parts[..n];
      assert forall k :: 0 <= k < |init| ==> init[k] == parts[k];
      SplitJoinWith(init, sep);
      var j := JoinWith(init, sep);
      assert JoinWith(parts, sep) == j + [sep] + parts[n];
      SplitAfterSeparator(j, parts[n], sep);
      PartsRebuilt(Split(j + [sep] + parts[n], sep), init, parts[n]);
      PartsRebuilt(parts, init, parts[n]);
    }
  }

  lemma PartsRebuilt(r: seq<String>, init: seq<String>, last: String)
    requires |r| == |init| + 1 && r[..|init|] == init && r[|init|] == last
    ensures r == init + [last]
  {
    assert r == r[..|init|] + [r[|init|]];
  }

  /**
    The text after the last separator, or all of `s` when there is none,
    computed from the end.
   */
  function LastSegment(s: String, sep: char): String {
    if s == [] || s[|s| - 1] == sep then []
    else LastSegment(s[..|s| - 1], sep) + [s[|s| - 1]]
  }

  /** `LastSegment` is what `s.split(sep)[-1]` yields. */
  lemma {:induction false} LastSegmentIsLastPart(s: String, sep: char)
    ensures LastSegment(s, sep) == LastPart(s, sep)
  {
    if s != [] {
      LastSegmentIsLastPart(s[..|s| - 1], sep);
    }
  }

  /**
    What `LastSegment` is: a suffix of `s` without the separator, preceded by
    the separator unless it is all of `s`.
   */
  lemma LastSegmentIsSuffix(s: String, sep: char)
    ensures var e := LastSegment(s, sep);
      |e| <= |s| && s[|s| - |e|..] == e && sep !in e &&
      (|e| == |s| || s[|s| - |e| - 1] == sep)
  {
    LastSegmentTail(s, sep);
    LastSegmentSeparatorFree(s, sep);
    LastSegmentBoundary(s, sep);
  }

  lemma {:induction false} LastSegmentTail(s: String, sep: char)
    ensures |LastSegment(s, sep)| <= |s| && s[|s| - |LastSegment(s, sep)|..] == LastSegment(s, sep)
  {
    if s != [] && s[|s| - 1] != sep {
      var s' := s[..|s| - 1];
      LastSegmentTail(s', sep);
      var d := |s'| - |LastSegment(s', sep)|;
      assert s[d..] == s'[d..] + [s[|s| - 1]];
    }
  }

  lemma {:induction false} LastSegmentSeparatorFree(s: String, sep: char)
    ensures sep !in LastSegment(s, sep)
  {
    if s != [] && s[|s| - 1] != sep {
      LastSegmentSeparatorFree(s[..|s| - 1], sep);
    }
  }

  lemma {:induction false} LastSegmentBoundary(s: String, sep: char)
    ensures |LastSegment(s, sep)| <= |s|
    ensures |LastSegment(s, sep)| == |s| || s[|s| - |LastSegment(s, sep)| - 1] == sep
  {
    if s != [] && s[|s| - 1] != sep {
      var s' := s[..|s| - 1];
      LastSegmentBoundary(s', sep);
      var d := |s'| - |LastSegment(s', sep)|;
      if d > 0 {
        assert s[d - 1] == s'[d - 1];
      }
    }
  }

  /** After a separator, the last segment is what follows it. */
  lemma {:induction false} LastSegmentAfterSeparator(s: String, t: String, sep: char)
    requires sep !in t
    ensures LastSegment(s + [sep] + t, sep) == t
  {
    var u := s + [sep] + t;
    if t == [] {
      assert u[|u| - 1] == sep;
    } else {
      var t' := t[..|t| - 1];
      assert u[..|u| - 1] == s + [sep] + t';
      assert u[|u| - 1] == t[|t| - 1];
      LastSegmentAfterSeparator(s, t', sep);
      assert t == t' + [t[|t| - 1]];
    }
  }

  /** A text without the separator is its own last segment. */
  lemma {:induction false} DotlessLastSegment(s: String, sep: char)
    requires sep !in s
    ensures LastSegment(s, sep) == s
  {
    if s != [] {
      DotlessLastSegment(s[..|s| - 1], sep);
    }
  }

  /** `os.path.join(a, b)` with the POSIX rules and a `/` separator. */
  function JoinPath(a: String, b: String): String {
    if b != [] && b[0] == '/' then b
    else if a == [] || a[|a| - 1] == '/' then a + b
    else a + "/" + b
  }

  /** The joined path ends with `b`, and begins with `a` unless `b` is absolute. */
  lemma JoinPathSpec(a: String, b: String)
    ensures var p := JoinPath(a, b);
      |b| <= |p| && p[|p| - |b|..] == b &&
      ((b == [] || b[0] != '/') ==> |a| <= |p| && p[..|a|] == a)
  {
    var p := JoinPath(a, b);
    if !(b != [] && b[0] == '/') && !(a == [] || a[|a| - 1] == '/') {
      assert p == a + ("/" + b);
    }
  }

  /** `os.path.basename(p)`: what follows the last `/`. */
  function Basename(p: String): String {
    LastSegment(p, '/')
  }

  /** A file name joined onto any directory is recovered by `basename`. */
  lemma BasenameOfJoin(root: String, name: String)
    requires '/' !in name
    ensures Basename(JoinPath(root, name)) == name
  {
    if root == [] || root[|root| - 1] == '/' {
      if root == [] {
        DotlessLastSegment(name, '/');
        assert JoinPath(root, name) == name;
      } else {
        var r := root[..|root| - 1];
        assert root == r + ['/'];
        LastSegmentAfterSeparator(r, name, '/');
        assert JoinPath(root, name) == r + ['/'] + name;
      }
    } else {
      LastSegmentAfterSeparator(root, name, '/');
    }
  }
}
