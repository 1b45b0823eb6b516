/**
  String primitives used by the import transform, with Python's meaning:
  `str.strip()`, `str.replace(c, d)` on single characters, `str.upper()` and
  `str.lower()` (ASCII letters only), `sep.join(xs)` and `s.split(c)`.
 */
module Strings {
  import opened Seqs

  /** The characters Python's `str.isspace()` accepts, i.e. the ones a
      bare `str.strip()` removes. */
  const Whitespace: set<char> := {
    '\t', '\n', '\U{0B}', '\U{0C}', '\r', '\U{1C}', '\U{1D}', '\U{1E}', '\U{1F}', ' ',
    '\U{85}', '\U{A0}', '\U{1680}', '\U{2000}', '\U{2001}', '\U{2002}', '\U{2003}',
    '\U{2004}', '\U{2005}', '\U{2006}', '\U{2007}', '\U{2008}', '\U{2009}', '\U{200A}',
    '\U{2028}', '\U{2029}', '\U{202F}', '\U{205F}', '\U{3000}'
  }

  predicate IsWhitespace(c: char) {
    c in Whitespace
  }

  predicate AllWhitespace(s: string) {
    forall i :: 0 <= i < |s| ==> IsWhitespace(s[i])
  }

  /** Neither end of `s` is whitespace: `s` is its own `strip()`. */
  predicate IsStripped(s: string) {
    s == [] || (!IsWhitespace(s[0]) && !IsWhitespace(s[|s| - 1]))
  }

  function StripLeft(s: string): (r: string)
    ensures |r| <= |s|
    ensures r == [] || !IsWhitespace(r[0])
  {
    if s == [] || !IsWhitespace(s[0]) then s else StripLeft(s[1..])
  }

  function StripRight(s: string): (r: string)
    ensures |r| <= |s|
    ensures r == [] || !IsWhitespace(r[|r| - 1])
  {
    if s == [] || !IsWhitespace(s[|s| - 1]) then s else StripRight(s[..|s| - 1])
  }

  /** Python's `s.strip()`. */
  function Strip(s: string): (r: string)
    ensures IsStripped(r)
    ensures |r| <= |s|
  {
    var l := StripLeft(s);
    StripRightDropsWhitespace(l);
    StripRight(l)
  }

  /** `StripLeft` drops a whitespace-only prefix and keeps the rest. */
  lemma {:induction false} StripLeftDropsWhitespace(s: string)
    ensures StripLeft(s) == s[|s| - |StripLeft(s)|..]
    ensures AllWhitespace(s[..|s| - |StripLeft(s)|])
  {
    if s != [] && IsWhitespace(s[0]) {
      var t := s[1..];
      StripLeftDropsWhitespace(t);
      var k := |t| - |StripLeft(t)|;
      assert s[..k + 1] == [s[0]] + t[..k];
    }
  }

  /** `StripRight` drops a whitespace-only suffix and keeps the rest. */
  lemma {:induction false} StripRightDropsWhitespace(s: string)
    ensures StripRight(s) == s[..|StripRight(s)|]
    ensures AllWhitespace(s[|StripRight(s)|..])
  {
    if s != [] && IsWhitespace(s[|s| - 1]) {
      var t := s[..|s| - 1];
      StripRightDropsWhitespace(t);
      var k := |StripRight(t)|;
      assert s[k..] == t[k..] + [s[|s| - 1]];
    }
  }

  /** `Strip` leaves a whitespace-only prefix, the result, and a
      whitespace-only suffix: the result is a slice of the input. */
  lemma {:induction false} StripSlice(s: string) returns (i: nat, j: nat)
    ensures i <= j <= |s|
    ensures Strip(s) == s[i..j]
    ensures AllWhitespace(s[..i]) && AllWhitespace(s[j..])
  {
    var l := StripLeft(s);
    var r := StripRight(l);
    StripLeftDropsWhitespace(s);
    StripRightDropsWhitespace(l);
    i := |s| - |l|;
    j := i + |r|;
    assert l == s[i..];
    assert r == l[..|r|];
    assert l[|r|..] == s[j..];
  }

  /** `strip()` comes back empty exactly for whitespace-only strings. */
  lemma StripEmpty(s: string)
    ensures Strip(s) == [] <==> AllWhitespace(s)
  {
    var i, j := StripSlice(s);
    if Strip(s) == [] {
      assert s == s[..i] + s[j..];
    } else {
      assert s[i] == Strip(s)[0];
    }
  }

  lemma {:induction false} StripLeftOverWhitespace(a: string, t: string)
    requires AllWhitespace(a)
    ensures StripLeft(a + t) == StripLeft(t)
  {
    if a != [] {
      assert (a + t)[0] == a[0] && IsWhitespace(a[0]);
      assert (a + t)[1..] == a[1..] + t;
      assert AllWhitespace(a[1..]) by {
        forall k | 0 <= k < |a[1..]| ensures IsWhitespace(a[1..][k]) {
          assert a[1..][k] == a[k + 1];
        }
      }
      StripLeftOverWhitespace(a[1..], t);
    } else {
      assert a + t == t;
    }
  }

  lemma {:induction false} StripLeftAppend(m: string, b: string)
    requires !AllWhitespace(m)
    ensures StripLeft(m + b) == StripLeft(m) + b
  {
    assert m != [];
    if IsWhitespace(m[0]) {
      assert (m + b)[1..] == m[1..] + b;
      assert !AllWhitespace(m[1..]) by {
        var k :| 0 <= k < |m| && !IsWhitespace(m[k]);
        assert m[1..][k - 1] == m[k];
      }
      StripLeftAppend(m[1..], b);
    }
  }

  lemma {:induction false} StripRightOverWhitespace(t: string, b: string)
    requires AllWhitespace(b)
    ensures StripRight(t + b) == StripRight(t)
  {
    if b != [] {
      var b' := b[..|b| - 1];
      assert (t + b)[|t + b| - 1] == b[|b| - 1] && IsWhitespace(b[|b| - 1]);
      assert (t + b)[..|t + b| - 1] == t + b';
      assert AllWhitespace(b') by {
        forall k | 0 <= k < |b'| ensures IsWhitespace(b'[k]) {
          assert b'[k] == b[k];
        }
      }
      StripRightOverWhitespace(t, b');
    } else {
      assert t + b == t;
    }
  }

  /** Whitespace around a string does not change its `strip()`. */
  lemma {:induction false} StripPadded(a: string, m: string, b: string)
    requires AllWhitespace(a) && AllWhitespace(b)
    ensures Strip(a + m + b) == Strip(m)
  {
    assert a + m + b == a + (m + b);
    StripLeftOverWhitespace(a, m + b);
    StripEmpty(m);
    if AllWhitespace(m) {
      assert AllWhitespace(a + m + b);
      StripEmpty(a + m + b);
    } else {
      StripLeftAppend(m, b);
      StripRightOverWhitespace(StripLeft(m), b);
    }
  }

  /** `strip()` keeps the characters it does not drop in order, and keeps
      every character that is not whitespace. */
  lemma StripKeeps(s: string, c: char)
    requires !IsWhitespace(c)
    ensures IsSubsequence(Strip(s), s)
    ensures Count(Strip(s), c) == Count(s, c)
  {
    var i, j := StripSlice(s);
    SliceSubsequence(s, i, j);
    assert s == s[..i] + s[i..j] + s[j..];
    CountConcat(s[..i] + s[i..j], s[j..], c);
    CountConcat(s[..i], s[i..j], c);
    WhitespaceCount(s[..i], c);
    WhitespaceCount(s[j..], c);
  }

  lemma WhitespaceCount(w: string, c: char)
    requires AllWhitespace(w) && !IsWhitespace(c)
    ensures Count(w, c) == 0
  {
    assert c !in w;
    CountAbsent(w, c);
  }

  /** A stripped string is its own strip: `strip` is idempotent. */
  lemma StripStripped(s: string)
    requires IsStripped(s)
    ensures Strip(s) == s
  {
  }

  /** Python's `s.replace(x, y)` for single characters `x` and `y`. */
  function Replace(s: string, x: char, y: char): (r: string)
    ensures |r| == |s|
    ensures forall i :: 0 <= i < |s| ==> r[i] == (if s[i] == x then y else s[i])
  {
    if s == [] then [] else [if s[0] == x then y else s[0]] + Replace(s[1..], x, y)
  }

  /** Python's `s.replace(x, '')`: every `x` dropped, everything else kept
      in order. */
  function Remove(s: string, x: char): (r: string)
    ensures x !in r
    ensures forall c :: c in r <==> c in s && c != x
    ensures |r| <= |s|
    ensures x !in s ==> r == s
  {
    if s == [] then [] else (if s[0] == x then [] else [s[0]]) + Remove(s[1..], x)
  }

  lemma ReplaceConcat(a: string, b: string, x: char, y: char)
    ensures Replace(a + b, x, y) == Replace(a, x, y) + Replace(b, x, y)
  {
    var l, r := Replace(a + b, x, y), Replace(a, x, y) + Replace(b, x, y);
    assert |l| == |r|;
    forall i | 0 <= i < |l| ensures l[i] == r[i] {
      if i < |a| {
        assert (a + b)[i] == a[i];
      } else {
        assert (a + b)[i] == b[i - |a|];
      }
    }
  }

  lemma {:induction false} RemoveConcat(a: string, b: string, x: char)
    ensures Remove(a + b, x) == Remove(a, x) + Remove(b, x)
  {
    if a != [] {
      assert (a + b)[0] == a[0];
      assert (a + b)[1..] == a[1..] + b;
      RemoveConcat(a[1..], b, x);
    } else {
      assert a + b == b;
    }
  }

  /** `Remove` keeps everything but `x`, in order: it is a subsequence of
      `s` that leaves out exactly the `x`s. */
  lemma {:induction false} RemoveKeepsOrder(s: string, x: char)
    ensures IsSubsequence(Remove(s, x), s)
    ensures |Remove(s, x)| == |s| - Count(s, x)
  {
    if s != [] {
      var rest := Remove(s[1..], x);
      RemoveKeepsOrder(s[1..], x);
      var r := Remove(s, x);
      if s[0] != x {
        assert r == [s[0]] + rest;
        assert r[0] == s[0] && r[1..] == rest;
      } else {
        assert r == [] + rest == rest;
        assert IsSubsequence(r, s[1..]);
      }
    }
  }

  /** Only one subsequence of `s` leaves out exactly the `x`s, so the
      contract of `RemoveKeepsOrder` pins `Remove`. */
  lemma {:induction false} RemoveUnique(a: string, s: string, x: char)
    requires IsSubsequence(a, s) && x !in a && |a| == |s| - Count(s, x)
    ensures a == Remove(s, x)
    decreases |s|
  {
    if s != [] {
      if a != [] {
        assert a[0] in a;
        assert x !in a[1..] by {
          forall k | 0 <= k < |a[1..]| ensures a[1..][k] != x {
            assert a[1..][k] == a[k + 1];
          }
        }
      }
      if IsSubsequence(a, s[1..]) {
        SubsequenceAvoids(a, s[1..], x);
        RemoveUnique(a, s[1..], x);
      } else {
        RemoveUnique(a[1..], s[1..], x);
        assert a == [a[0]] + a[1..];
      }
    }
  }

  /** Removing `x` keeps the count of every other character. */
  lemma {:induction false} RemoveCount(s: string, x: char, c: char)
    requires c != x
    ensures Count(Remove(s, x), c) == Count(s, c)
  {
    if s != [] {
      RemoveCount(s[1..], x, c);
      CountConcat(if s[0] == x then [] else [s[0]], Remove(s[1..], x), c);
    }
  }

  /** Replacing `x` by `y` moves the count of `x` onto `y` and keeps every
      other count. */
  lemma {:induction false} ReplaceCount(s: string, x: char, y: char, c: char)
    requires c != x
    ensures Count(Replace(s, x, y), c) == Count(s, c) + (if c == y then Count(s, x) else 0)
  {
    if s != [] {
      var r := Replace(s, x, y);
      assert r[1..] == Replace(s[1..], x, y);
      ReplaceCount(s[1..], x, y, c);
    }
  }

  function UpperChar(c: char): char {
    if 'a' <= c <= 'z' then (c as int - 32) as char else c
  }

  function LowerChar(c: char): char {
    if 'A' <= c <= 'Z' then (c as int + 32) as char else c
  }

  /** `s.upper()`, restricted to ASCII letters. */
  function Upper(s: string): (r: string)
    ensures |r| == |s|
    ensures forall i :: 0 <= i < |s| ==> r[i] == UpperChar(s[i])
  {
    if s == [] then [] else [UpperChar(s[0])] + Upper(s[1..])
  }

  /** Upper-casing keeps the spaces where they are. */
  lemma {:induction false} UpperSpaces(s: string)
    ensures Count(Upper(s), ' ') == Count(s, ' ')
  {
    if s != [] {
      assert Upper(s)[1..] == Upper(s[1..]);
      UpperSpaces(s[1..]);
    }
  }

  /** `s.lower()`, restricted to ASCII letters. */
  function Lower(s: string): (r: string)
    ensures |r| == |s|
    ensures forall i :: 0 <= i < |s| ==> r[i] == LowerChar(s[i])
  {
    if s == [] then [] else [LowerChar(s[0])] + Lower(s[1..])
  }

  /** Python's `sep.join(xs)`. */
  function Join(sep: string, xs: seq<string>): string {
    if xs == [] then "" else if |xs| == 1 then xs[0] else xs[0] + sep + Join(sep, xs[1..])
  }

  /** Python's `s.split(c)` for a single character `c`: always at least one
      piece, and an empty string splits into one empty piece. */
  function Split(s: string, c: char): (r: seq<string>)
    ensures |r| >= 1
  {
    if s == [] then [""]
    else
      var rest := Split(s[1..], c);
      if s[0] == c then [""] + rest else [[s[0]] + rest[0]] + rest[1..]
  }

  lemma {:induction false} SplitPlain(x: string, c: char)
    requires c !in x
    ensures Split(x, c) == [x]
  {
    if x != [] {
      assert x[0] in x;
      SplitPlain(x[1..], c);
      assert [x[0]] + x[1..] == x;
    }
  }

  lemma {:induction false} SplitAtSeparator(x: string, c: char, y: string)
    requires c !in x
    ensures Split(x + [c] + y, c) == [x] + Split(y, c)
  {
    if x == [] {
      assert x + [c] + y == [c] + y;
      assert ([c] + y)[1..] == y;
    } else {
      assert x[0] in x;
      assert (x + [c] + y)[0] == x[0];
      assert (x + [c] + y)[1..] == x[1..] + [c] + y;
      SplitAtSeparator(x[1..], c, y);
      assert [x[0]] + x[1..] == x;
    }
  }

  /** Splitting a join on its one-character separator gives the pieces back,
      provided no piece contains the separator. */
  lemma {:induction false} SplitJoin(xs: seq<string>, c: char)
    requires |xs| >= 1
    requires forall i :: 0 <= i < |xs| ==> c !in xs[i]
    ensures Split(Join([c], xs), c) == xs
  {
    if |xs| == 1 {
      SplitPlain(xs[0], c);
    } else {
      SplitJoin(xs[1..], c);
      SplitAtSeparator(xs[0], c, Join([c], xs[1..]));
      assert xs == [xs[0]] + xs[1..];
    }
  }
}
