/**
 * String helpers shared by the models: trimming, ASCII case mapping,
 * prefix tests, splitting and joining on one separator character, and
 * the first-occurrence removal that JavaScript's `String.replace` performs
 * when its pattern is a one-character string.
 */
module Strings {

  /** The whitespace characters that JavaScript's `trim` and Python's `strip` both remove (ASCII part). */
  predicate IsSpace(c: char) {
    c == ' ' || c == '\t' || c == '\n' || c == '\r' || c == '\U{000B}' || c == '\U{000C}'
  }

  predicate AllSpace(s: string) {
    forall k :: 0 <= k < |s| ==> IsSpace(s[k])
  }

  /** Removes the leading whitespace. */
  function TrimStart(s: string): string
    decreases |s|
  {
    if s != [] && IsSpace(s[0]) then TrimStart(s[1..]) else s
  }

  /** Removes the trailing whitespace. */
  function TrimEnd(s: string): string
    decreases |s|
  {
    if s != [] && IsSpace(s[|s| - 1]) then TrimEnd(s[..|s| - 1]) else s
  }

  /** `TrimStart` keeps a suffix, drops only whitespace, and stops at the first other character. */
  lemma {:induction false} TrimStartShape(s: string)
    ensures var r := TrimStart(s);
      && |r| <= |s| && r == s[|s| - |r|..]
      && AllSpace(s[..|s| - |r|])
      && (r == [] || !IsSpace(r[0]))
    decreases |s|
  {
    if s != [] && IsSpace(s[0]) {
      TrimStartShape(s[1..]);
      var r := TrimStart(s);
      assert s[1..][|s| - 1 - |r|..] == s[|s| - |r|..];
      forall k | 0 <= k < |s| - |r| ensures IsSpace(s[k]) {
        if k > 0 {
          assert s[1..][..|s| - 1 - |r|][k - 1] == s[k];
        }
      }
    }
  }

  /** `TrimEnd` keeps a prefix, drops only whitespace, and stops at the last other character. */
  lemma {:induction false} TrimEndShape(s: string)
    ensures var r := TrimEnd(s);
      && |r| <= |s| && r == s[..|r|]
      && AllSpace(s[|r|..])
      && (r == [] || !IsSpace(r[|r| - 1]))
    decreases |s|
  {
    if s != [] && IsSpace(s[|s| - 1]) {
      var s' := s[..|s| - 1];
      TrimEndShape(s');
      var r := TrimEnd(s);
      assert s'[..|r|] == s[..|r|];
      forall k | |r| <= k < |s| ensures IsSpace(s[k]) {
        if k < |s| - 1 {
          assert s'[|r|..][k - |r|] == s[k];
        }
      }
    }
  }

  /** JavaScript `s.trim()` / Python `s.strip()`: the core of `s` between whitespace runs. */
  function Trim(s: string): (r: string)
    ensures |r| <= |s|
    ensures r == [] || (!IsSpace(r[0]) && !IsSpace(r[|r| - 1]))
  {
    TrimStartShape(s);
    TrimEndShape(TrimStart(s));
    TrimEnd(TrimStart(s))
  }

  /** `s` is its trimmed core with a whitespace run on either side. */
  lemma TrimSplits(s: string) returns (before: string, after: string)
    ensures s == before + Trim(s) + after
    ensures AllSpace(before) && AllSpace(after)
  {
    var t := TrimStart(s);
    var r := TrimEnd(t);
    TrimStartShape(s);
    TrimEndShape(t);
    var i := |s| - |t|;
    assert r == s[i..i + |r|];
    assert s[i + |r|..] == t[|r|..];
    before, after := s[..i], s[i + |r|..];
    assert s == s[..i] + s[i..i + |r|] + s[i + |r|..];
  }

  lemma {:induction false} TrimStartSkipsSpace(a: string, x: string)
    requires AllSpace(a)
    ensures TrimStart(a + x) == TrimStart(x)
    decreases |a|
  {
    if a == [] {
      assert a + x == x;
    } else {
      assert (a + x)[0] == a[0];
      assert IsSpace(a[0]);
      assert (a + x)[1..] == a[1..] + x;
      assert AllSpace(a[1..]) by {
        forall k | 0 <= k < |a[1..]| ensures IsSpace(a[1..][k]) { assert a[1..][k] == a[k + 1]; }
      }
      TrimStartSkipsSpace(a[1..], x);
      assert TrimStart(a + x) == TrimStart((a + x)[1..]);
    }
  }

  lemma {:induction false} TrimEndSkipsSpace(x: string, b: string)
    requires AllSpace(b)
    ensures TrimEnd(x + b) == TrimEnd(x)
    decreases |b|
  {
    if b == [] {
      assert x + b == x;
    } else {
      var b' := b[..|b| - 1];
      assert (x + b)[|x + b| - 1] == b[|b| - 1];
      assert IsSpace(b[|b| - 1]);
      assert (x + b)[..|x + b| - 1] == x + b';
      assert AllSpace(b') by {
        forall k | 0 <= k < |b'| ensures IsSpace(b'[k]) { assert b'[k] == b[k]; }
      }
      TrimEndSkipsSpace(x, b');
      assert TrimEnd(x + b) == TrimEnd((x + b)[..|x + b| - 1]);
    }
  }

  /** Trim has exactly one answer: the whitespace-free core between two whitespace runs. */
  lemma TrimUnique(a: string, m: string, b: string)
    requires AllSpace(a) && AllSpace(b)
    requires m == [] || (!IsSpace(m[0]) && !IsSpace(m[|m| - 1]))
    ensures Trim(a + m + b) == m
  {
    assert a + m + b == a + (m + b);
    TrimStartSkipsSpace(a, m + b);
    assert TrimStart(a + m + b) == TrimStart(m + b);
    if m == [] {
      assert m + b == b + [];
      TrimStartSkipsSpace(b, []);
      assert TrimStart(m + b) == [];
      assert Trim(a + m + b) == TrimEnd([]);
    } else {
      assert (m + b)[0] == m[0];
      assert TrimStart(m + b) == m + b;
      TrimEndSkipsSpace(m, b);
      assert TrimEnd(m) == m;
      assert Trim(a + m + b) == TrimEnd(m + b);
    }
  }

  lemma AllSpaceConcat(x: string, y: string)
    requires AllSpace(x) && AllSpace(y)
    ensures AllSpace(x + y)
  {
    forall k | 0 <= k < |x + y| ensures IsSpace((x + y)[k]) {
      if k < |x| { assert (x + y)[k] == x[k]; } else { assert (x + y)[k] == y[k - |x|]; }
    }
  }

  lemma Regroup(a: string, p: string, r: string, q: string, b: string)
    ensures a + (p + r + q) + b == (a + p) + r + (q + b)
  {
  }

  /** Whitespace added around a string never changes what `trim` gives. */
  lemma TrimIgnoresPadding(a: string, s: string, b: string)
    requires AllSpace(a) && AllSpace(b)
    ensures Trim(a + s + b) == Trim(s)
  {
    var r := Trim(s);
    var p, q := TrimSplits(s);
    Regroup(a, p, r, q, b);
    AllSpaceConcat(a, p);
    AllSpaceConcat(q, b);
    TrimUnique(a + p, r, q + b);
  }

  lemma TrimIdempotent(s: string)
    ensures Trim(Trim(s)) == Trim(s)
  {
    var r := Trim(s);
    var e: string := [];
    assert AllSpace(e);
    TrimUnique(e, r, e);
    assert e + r + e == r;
  }

  // ---------------------------------------------------------------- case mapping

  function LowerChar(c: char): char {
    if 'A' <= c <= 'Z' then (c as int + 32) as char else c
  }

  function UpperChar(c: char): char {
    if 'a' <= c <= 'z' then (c as int - 32) as char else c
  }

  /** JavaScript `toLowerCase` / Python `lower`, ASCII letters only. */
  function Lower(s: string): (r: string)
    ensures |r| == |s|
    ensures forall k :: 0 <= k < |s| ==> r[k] == LowerChar(s[k])
  {
    seq(|s|, k requires 0 <= k < |s| => LowerChar(s[k]))
  }

  /** JavaScript `toUpperCase` / Python `upper`, ASCII letters only. */
  function Upper(s: string): (r: string)
    ensures |r| == |s|
    ensures forall k :: 0 <= k < |s| ==> r[k] == UpperChar(s[k])
  {
    seq(|s|, k requires 0 <= k < |s| => UpperChar(s[k]))
  }

  /** Two strings are equal up to the case of their ASCII letters, compared character by character. */
  predicate EqualsIgnoringCase(a: string, b: string) {
    |a| == |b| && forall k :: 0 <= k < |a| ==> LowerChar(a[k]) == LowerChar(b[k])
  }

  lemma LowerEqualIffIgnoringCase(a: string, b: string)
    ensures Lower(a) == Lower(b) <==> EqualsIgnoringCase(a, b)
  {
    if EqualsIgnoringCase(a, b) {
      assert forall k :: 0 <= k < |a| ==> Lower(a)[k] == Lower(b)[k];
    }
    if Lower(a) == Lower(b) {
      assert forall k :: 0 <= k < |a| ==> LowerChar(a[k]) == Lower(a)[k] == Lower(b)[k] == LowerChar(b[k]);
    }
  }

  lemma LowerIdempotent(s: string)
    ensures Lower(Lower(s)) == Lower(s)
  {
    assert forall k :: 0 <= k < |s| ==> Lower(Lower(s))[k] == Lower(s)[k];
  }

  /** Upper-casing forgets any earlier lower-casing: case does not matter to `upper`. */
  lemma UpperOfLower(s: string)
    ensures Upper(Lower(s)) == Upper(s)
  {
    assert forall k :: 0 <= k < |s| ==> Upper(Lower(s))[k] == Upper(s)[k];
  }

  lemma LowerOfUpper(s: string)
    ensures Lower(Upper(s)) == Lower(s)
  {
    assert forall k :: 0 <= k < |s| ==> Lower(Upper(s))[k] == Lower(s)[k];
  }

  lemma LowerAllSpace(s: string)
    requires AllSpace(s)
    ensures Lower(s) == s
  {
    assert forall k :: 0 <= k < |s| ==> Lower(s)[k] == s[k];
  }

  lemma LowerConcat(a: string, b: string)
    ensures Lower(a + b) == Lower(a) + Lower(b)
  {
    assert forall k :: 0 <= k < |a + b| ==> Lower(a + b)[k] == (Lower(a) + Lower(b))[k];
  }

  /** Lower-casing leaves whitespace padding as it is. */
  lemma LowerOfPadded(p: string, r: string, q: string)
    requires AllSpace(p) && AllSpace(q)
    ensures Lower(p + r + q) == p + Lower(r) + q
  {
    LowerConcat(p + r, q);
    LowerConcat(p, r);
    LowerAllSpace(p);
    LowerAllSpace(q);
  }

  /** Lower-casing neither creates nor removes whitespace at the ends. */
  lemma LowerKeepsEnds(r: string)
    requires r == [] || (!IsSpace(r[0]) && !IsSpace(r[|r| - 1]))
    ensures var lr := Lower(r); lr == [] || (!IsSpace(lr[0]) && !IsSpace(lr[|lr| - 1]))
  {
  }

  /** Lower-casing and trimming commute, so `s.strip().lower()` is also `s.lower().strip()`. */
  lemma TrimLowerCommute(s: string)
    ensures Lower(Trim(s)) == Trim(Lower(s))
  {
    var r := Trim(s);
    var p, q := TrimSplits(s);
    LowerOfPadded(p, r, q);
    LowerKeepsEnds(r);
    TrimUnique(p, Lower(r), q);
  }

  /** A trimmed, lower-cased string is a fixed point of trimming and lower-casing. */
  lemma KeyIsNormal(s: string)
    ensures Lower(Trim(Lower(Trim(s)))) == Lower(Trim(s))
  {
    TrimLowerCommute(Trim(s));
    TrimIdempotent(s);
    LowerIdempotent(Trim(s));
  }

  // ---------------------------------------------------------------- prefixes

  predicate StartsWith(s: string, prefix: string) {
    |prefix| <= |s| && s[..|prefix|] == prefix
  }

  predicate EndsWith(s: string, suffix: string) {
    |suffix| <= |s| && s[|s| - |suffix|..] == suffix
  }

  /** Python `needle in s` for strings. */
  predicate Contains(s: string, needle: string) {
    StartsWith(s, needle) || (s != [] && Contains(s[1..], needle))
  }

  lemma {:induction false} ContainsAt(s: string, needle: string, i: nat)
    requires i + |needle| <= |s| && s[i..i + |needle|] == needle
    ensures Contains(s, needle)
    decreases i
  {
    if i > 0 {
      assert s[1..][i - 1..i - 1 + |needle|] == s[i..i + |needle|];
      ContainsAt(s[1..], needle, i - 1);
    }
  }

  /** The converse of `ContainsAt`: a string that contains `needle` holds it at some position. */
  lemma {:induction false} ContainsIndex(s: string, needle: string) returns (i: nat)
    requires Contains(s, needle)
    ensures i + |needle| <= |s| && s[i..i + |needle|] == needle
    decreases |s|
  {
    if StartsWith(s, needle) {
      i := 0;
    } else {
      var j := ContainsIndex(s[1..], needle);
      assert s[1..][j..j + |needle|] == s[j + 1..j + 1 + |needle|];
      i := j + 1;
    }
  }

  /** A string ending in `a + b` contains `b`. */
  lemma EndsWithContains(s: string, a: string, b: string)
    requires EndsWith(s, a + b)
    ensures Contains(s, b)
  {
    assert s[|s| - |b|..] == (a + b)[|a|..];
    ContainsAt(s, b, |s| - |b|);
  }

  // ---------------------------------------------------------------- split and join

  /** JavaScript `s.split(sep)` / Python `s.split(sep)` with a one-character separator. */
  function Split(s: string, sep: char): (r: seq<string>)
    ensures |r| >= 1
    ensures forall k :: 0 <= k < |r| ==> sep !in r[k]
    decreases |s|
  {
    if s == [] then [""]
    else
      var rest := Split(s[1..], sep);
      if s[0] == sep then [""] + rest else [[s[0]] + rest[0]] + rest[1..]
  }

  /** JavaScript `pieces.join(sep)` / Python `sep.join(pieces)`. */
  function Join(pieces: seq<string>, sep: char): string {
    if |pieces| == 0 then ""
    else if |pieces| == 1 then pieces[0]
    else pieces[0] + [sep] + Join(pieces[1..], sep)
  }

  /** Joining the pieces of a split gives back the original text. */
  lemma {:induction false} JoinSplit(s: string, sep: char)
    ensures Join(Split(s, sep), sep) == s
    decreases |s|
  {
    if s != [] {
      var rest := Split(s[1..], sep);
      JoinSplit(s[1..], sep);
      if s[0] == sep {
        assert Split(s, sep) == [""] + rest;
        assert s == [sep] + s[1..];
      } else {
        var r := Split(s, sep);
        assert r == [[s[0]] + rest[0]] + rest[1..];
        if |rest| == 1 {
          assert Join(r, sep) == [s[0]] + rest[0];
        } else {
          assert r[1..] == rest[1..];
          assert Join(rest, sep) == rest[0] + [sep] + Join(rest[1..], sep);
          assert Join(r, sep) == [s[0]] + rest[0] + [sep] + Join(rest[1..], sep);
        }
      }
    }
  }

  lemma {:induction false} SplitNoSep(a: string, sep: char)
    requires sep !in a
    ensures Split(a, sep) == [a]
    decreases |a|
  {
    if a != [] {
      assert sep !in a[1..];
      SplitNoSep(a[1..], sep);
      assert [a[0]] + a[1..] == a;
    }
  }

  lemma {:induction false} SplitConcat(a: string, sep: char, b: string)
    requires sep !in a
    ensures Split(a + [sep] + b, sep) == [a] + Split(b, sep)
    decreases |a|
  {
    if a == [] {
      assert a + [sep] + b == [sep] + b;
      assert ([sep] + b)[1..] == b;
    } else {
      assert (a + [sep] + b)[1..] == a[1..] + [sep] + b;
      assert sep !in a[1..];
      SplitConcat(a[1..], sep, b);
      assert [a[0]] + a[1..] == a;
    }
  }

  /** Splitting joined separator-free pieces gives the pieces back. */
  lemma {:induction false} SplitJoin(pieces: seq<string>, sep: char)
    requires |pieces| >= 1
    requires forall k :: 0 <= k < |pieces| ==> sep !in pieces[k]
    ensures Split(Join(pieces, sep), sep) == pieces
    decreases |pieces|
  {
    if |pieces| == 1 {
      SplitNoSep(pieces[0], sep);
    } else {
      SplitJoin(pieces[1..], sep);
      SplitConcat(pieces[0], sep, Join(pieces[1..], sep));
      assert [pieces[0]] + pieces[1..] == pieces;
    }
  }

  lemma {:induction false} JoinAppend(pieces: seq<string>, last: string, sep: char)
    requires |pieces| >= 1
    ensures Join(pieces + [last], sep) == Join(pieces, sep) + [sep] + last
    decreases |pieces|
  {
    if |pieces| == 1 {
      assert (pieces + [last])[1..] == [last];
    } else {
      assert (pieces + [last])[1..] == pieces[1..] + [last];
      JoinAppend(pieces[1..], last, sep);
    }
  }

  /** Every piece appears in the joined text, at the position the pieces before it and their separators take. */
  lemma {:induction false} JoinPieceAt(pieces: seq<string>, sep: char, k: nat) returns (at: nat)
    requires k < |pieces|
    ensures at + |pieces[k]| <= |Join(pieces, sep)|
    ensures Join(pieces, sep)[at..at + |pieces[k]|] == pieces[k]
    decreases k
  {
    var joined := Join(pieces, sep);
    if |pieces| == 1 {
      at := 0;
    } else if k == 0 {
      at := 0;
      assert joined == pieces[0] + ([sep] + Join(pieces[1..], sep));
    } else {
      var rest := Join(pieces[1..], sep);
      var inner := JoinPieceAt(pieces[1..], sep, k - 1);
      at := |pieces[0]| + 1 + inner;
      assert joined == (pieces[0] + [sep]) + rest;
      assert joined[at..at + |pieces[k]|] == rest[inner..inner + |pieces[k]|];
    }
  }

  // ---------------------------------------------------------------- replace

  /** JavaScript `s.replace(c, "")` for a one-character string `c`: drops the first occurrence only. */
  function RemoveFirst(s: string, c: char): (r: string)
    ensures c in s ==> |r| == |s| - 1
    ensures c !in s ==> r == s
    decreases |s|
  {
    if s == [] then []
    else if s[0] == c then s[1..]
    else [s[0]] + RemoveFirst(s[1..], c)
  }

  /** Removing a character that occurs only at the end strips exactly that last character ("1080p" to "1080"). */
  lemma {:induction false} RemoveFirstOfSuffix(d: string, c: char)
    requires c !in d
    ensures RemoveFirst(d + [c], c) == d
    decreases |d|
  {
    if d != [] {
      assert (d + [c])[1..] == d[1..] + [c];
      assert c !in d[1..];
      RemoveFirstOfSuffix(d[1..], c);
      assert [d[0]] + d[1..] == d;
    }
  }
}
