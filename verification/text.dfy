/** The Python `str` operations the scraper relies on, over `string`
    (a sequence of Unicode scalar values): `strip`, `rstrip('/')`, `lower`,
    the `in` substring test, `startswith`/`endswith`, the piece count of
    `split`, and `str` of a natural number. */
module Text {

  /** Python's `str.isspace()` for a single character: the characters that
      `strip()` removes and `split()` splits on. */
  predicate IsSpace(c: char) {
    || c == ' '
    || ('\t' <= c <= '\r')
    || ('\U{1c}' <= c <= '\U{1f}')
    || c == '\U{85}' || c == '\U{a0}' || c == '\U{1680}'
    || ('\U{2000}' <= c <= '\U{200a}')
    || c == '\U{2028}' || c == '\U{2029}' || c == '\U{202f}' || c == '\U{205f}' || c == '\U{3000}'
  }

  predicate AllSpace(s: string) {
    forall k :: 0 <= k < |s| ==> IsSpace(s[k])
  }

  /** Python's `s.strip()`: drops leading and trailing whitespace.
      `StripEdges` and `StripEmpty` state what the result is. */
  function Strip(s: string): (r: string)
    ensures |r| <= |s|
    decreases |s|
  {
    if |s| > 0 && IsSpace(s[0]) then Strip(s[1..])
    else if |s| > 0 && IsSpace(s[|s| - 1]) then Strip(s[..|s| - 1])
    else s
  }

  /** How many whitespace characters `Strip(s)` drops from the front of `s`. */
  function StripOffset(s: string): (o: nat)
    ensures o <= |s|
    decreases |s|
  {
    if |s| > 0 && IsSpace(s[0]) then 1 + StripOffset(s[1..]) else 0
  }

  /** Python's `s.rstrip('/')`: drops every trailing slash. */
  function RStripSlash(s: string): (r: string)
    ensures |r| <= |s| && r == s[..|r|]
    ensures forall k :: |r| <= k < |s| ==> s[k] == '/'
    ensures r == [] || r[|r| - 1] != '/'
    decreases |s|
  {
    if |s| > 0 && s[|s| - 1] == '/' then RStripSlash(s[..|s| - 1]) else s
  }

  /** Lower-casing of one character, for the ASCII letters. */
  function LowerChar(c: char): char {
    if 'A' <= c <= 'Z' then (c as int + 32) as char else c
  }

  /** Python's `s.lower()`, restricted to ASCII letters. */
  function Lower(s: string): (r: string)
    ensures |r| == |s|
    ensures forall k :: 0 <= k < |s| ==> r[k] == LowerChar(s[k])
  {
    seq(|s|, k requires 0 <= k < |s| => LowerChar(s[k]))
  }

  /** Python's `s.startswith(p)`. */
  predicate StartsWith(s: string, p: string) {
    |p| <= |s| && s[..|p|] == p
  }

  /** Python's `s.endswith(p)`. */
  predicate EndsWith(s: string, p: string) {
    |p| <= |s| && s[|s| - |p|..] == p
  }

  /** Python's `p in s` for strings: `p` occurs somewhere in `s`. */
  predicate Contains(s: string, p: string)
    decreases |s|
  {
    StartsWith(s, p) || (|s| > 0 && Contains(s[1..], p))
  }

  /** Python's `any(p in s for p in ps)`. */
  predicate ContainsAny(s: string, ps: seq<string>) {
    exists k :: 0 <= k < |ps| && Contains(s, ps[k])
  }

  /** The number of maximal runs of non-separator characters in `s`, given
      whether the character before `s` was a separator (or `s` starts the
      string). This is the number of pieces `[p for p in s.split(sep) if p]`
      keeps, and `len(s.split())` when the separators are the whitespace. */
  function RunCount(s: string, isSep: char -> bool, afterSep: bool): nat
    decreases |s|
  {
    if |s| == 0 then 0
    else (if !isSep(s[0]) && afterSep then 1 else 0) + RunCount(s[1..], isSep, isSep(s[0]))
  }

  predicate IsSlash(c: char) {
    c == '/'
  }

  /** `len([p for p in path.split('/') if p])`. */
  function SegmentCount(path: string): nat {
    RunCount(path, IsSlash, true)
  }

  /** `len(s.split())`. */
  function WordCount(s: string): nat {
    RunCount(s, IsSpace, true)
  }

  function DigitChar(d: nat): char
    requires d < 10
  {
    "0123456789"[d]
  }

  /** Python's `str(n)` for a natural number. */
  function NatToString(n: nat): (r: string)
    ensures 1 <= |r|
    ensures forall k :: 0 <= k < |r| ==> '0' <= r[k] <= '9'
    decreases n
  {
    if n < 10 then [DigitChar(n)] else NatToString(n / 10) + [DigitChar(n % 10)]
  }

  /** The number a string of decimal digits denotes. */
  function DecimalValue(s: string): nat
    requires forall k :: 0 <= k < |s| ==> '0' <= s[k] <= '9'
  {
    if |s| == 0 then 0
    else DecimalValue(s[..|s| - 1]) * 10 + (s[|s| - 1] as int - '0' as int)
  }

  // ---------------------------------------------------------------------
  // Lemmas

  /** The stripped string starts and ends with non-whitespace. */
  lemma {:induction false} StripEdges(s: string)
    ensures Strip(s) == [] || (!IsSpace(Strip(s)[0]) && !IsSpace(Strip(s)[|Strip(s)| - 1]))
    decreases |s|
  {
    if |s| > 0 && IsSpace(s[0]) {
      StripEdges(s[1..]);
    } else if |s| > 0 && IsSpace(s[|s| - 1]) {
      StripEdges(s[..|s| - 1]);
    }
  }

  /** Stripping leaves nothing exactly when the string is all whitespace. */
  lemma {:induction false} StripEmpty(s: string)
    ensures Strip(s) == [] <==> AllSpace(s)
    decreases |s|
  {
    if |s| > 0 && IsSpace(s[0]) {
      StripEmpty(s[1..]);
      if AllSpace(s[1..]) {
        forall k | 1 <= k < |s|
          ensures IsSpace(s[k])
        {
          assert s[k] == s[1..][k - 1];
        }
      }
    } else if |s| > 0 && IsSpace(s[|s| - 1]) {
      StripEmpty(s[..|s| - 1]);
    }
  }

  /** A string that starts and ends with non-whitespace is its own strip. */
  lemma StripKeepsTrimmed(s: string)
    requires s == [] || (!IsSpace(s[0]) && !IsSpace(s[|s| - 1]))
    ensures Strip(s) == s
  {
  }

  /** Stripping twice is stripping once. */
  lemma StripIdempotent(s: string)
    ensures Strip(Strip(s)) == Strip(s)
  {
    StripEdges(s);
    StripKeepsTrimmed(Strip(s));
  }

  /** `Strip(s)` is the contiguous piece of `s` between the leading and the
      trailing whitespace. */
  lemma {:induction false} StripIsSlice(s: string)
    ensures StripOffset(s) + |Strip(s)| <= |s|
    ensures Strip(s) == s[StripOffset(s)..StripOffset(s) + |Strip(s)|]
    decreases |s|
  {
    if |s| > 0 && IsSpace(s[0]) {
      var t := s[1..];
      StripIsSlice(t);
      var o := StripOffset(t);
      assert t[o..o + |Strip(t)|] == s[o + 1..o + 1 + |Strip(t)|];
    } else if |s| > 0 && IsSpace(s[|s| - 1]) {
      var t := s[..|s| - 1];
      StripIsSlice(t);
      assert StripOffset(t) == 0;
      assert t[..|Strip(t)|] == s[..|Strip(t)|];
    } else {
      assert s[0..|s|] == s;
    }
  }

  /** What `Strip(s)` drops from the front is whitespace. */
  lemma {:induction false} StripDropsLeadingSpace(s: string)
    ensures AllSpace(s[..StripOffset(s)])
    decreases |s|
  {
    if |s| > 0 && IsSpace(s[0]) {
      var t := s[1..];
      StripDropsLeadingSpace(t);
      var front := s[..StripOffset(s)];
      forall k | 0 <= k < |front|
        ensures IsSpace(front[k])
      {
        if k > 0 {
          assert front[k] == t[..StripOffset(t)][k - 1];
        }
      }
    }
  }

  /** What `Strip(s)` drops from the back is whitespace. */
  lemma {:induction false} StripDropsTrailingSpace(s: string)
    ensures StripOffset(s) + |Strip(s)| <= |s|
    ensures AllSpace(s[StripOffset(s) + |Strip(s)|..])
    decreases |s|
  {
    StripIsSlice(s);
    if |s| > 0 && IsSpace(s[0]) {
      var t := s[1..];
      StripDropsTrailingSpace(t);
      assert s[StripOffset(s) + |Strip(s)|..] == t[StripOffset(t) + |Strip(t)|..];
    } else if |s| > 0 && IsSpace(s[|s| - 1]) {
      var t := s[..|s| - 1];
      StripDropsTrailingSpace(t);
      assert StripOffset(t) == 0;
      var back := s[|Strip(t)|..];
      forall k | 0 <= k < |back|
        ensures IsSpace(back[k])
      {
        if |Strip(t)| + k < |t| {
          assert back[k] == t[|Strip(t)|..][k];
        }
      }
    }
  }

  /** `p in s` holds when `p` is found at position `i`. */
  lemma {:induction false} ContainsAt(s: string, p: string, i: nat)
    requires i + |p| <= |s| && s[i..i + |p|] == p
    ensures Contains(s, p)
    decreases i
  {
    if i > 0 {
      assert s[1..][i - 1..i - 1 + |p|] == s[i..i + |p|];
      ContainsAt(s[1..], p, i - 1);
    }
  }

  /** `p` occurs in `s` starting at position `i`. */
  predicate FoundAt(s: string, p: string, i: nat) {
    i + |p| <= |s| && s[i..i + |p|] == p
  }

  /** `p in s` holds only when `p` is found at some position. */
  lemma {:induction false} ContainsFoundAt(s: string, p: string)
    requires Contains(s, p)
    ensures exists i: nat :: FoundAt(s, p, i)
    decreases |s|
  {
    if !StartsWith(s, p) {
      ContainsFoundAt(s[1..], p);
      var i: nat :| FoundAt(s[1..], p, i);
      assert s[i + 1..i + 1 + |p|] == s[1..][i..i + |p|];
      assert FoundAt(s, p, i + 1);
    } else {
      assert FoundAt(s, p, 0);
    }
  }

  /** `any(p in s for p in ps)` holds exactly when some `ps[k]` is found at
      some position of `s`. */
  lemma ContainsAnyAt(s: string, ps: seq<string>)
    ensures ContainsAny(s, ps) <==> exists k: nat, i: nat :: k < |ps| && FoundAt(s, ps[k], i)
  {
    if ContainsAny(s, ps) {
      var k :| 0 <= k < |ps| && Contains(s, ps[k]);
      ContainsFoundAt(s, ps[k]);
    }
    if exists k: nat, i: nat :: k < |ps| && FoundAt(s, ps[k], i) {
      var k: nat, i: nat :| k < |ps| && FoundAt(s, ps[k], i);
      ContainsAt(s, ps[k], i);
    }
  }

  /** Finding a string finds each of its suffixes too. */
  lemma {:induction false} ContainsSuffix(s: string, p: string, q: string)
    requires Contains(s, p + q)
    ensures Contains(s, q)
    decreases |s|
  {
    if StartsWith(s, p + q) {
      assert s[|p|..|p| + |q|] == (p + q)[|p|..] == q;
      ContainsAt(s, q, |p|);
    } else {
      ContainsSuffix(s[1..], p, q);
    }
  }

  /** Finding a string finds each of its prefixes too. */
  lemma {:induction false} ContainsPrefix(s: string, p: string, q: string)
    requires Contains(s, p + q)
    ensures Contains(s, p)
    decreases |s|
  {
    if StartsWith(s, p + q) {
      assert s[..|p|] == (p + q)[..|p|] == p;
    } else {
      ContainsPrefix(s[1..], p, q);
    }
  }

  /** Splitting at a separator character adds the piece counts: this is what
      makes `RunCount` the piece count of `split`. */
  lemma {:induction false} RunCountAtSeparator(a: string, c: char, b: string, isSep: char -> bool, afterSep: bool)
    requires isSep(c)
    ensures RunCount(a + [c] + b, isSep, afterSep) == RunCount(a, isSep, afterSep) + RunCount(b, isSep, true)
    decreases |a|
  {
    if |a| == 0 {
      assert a + [c] + b == [c] + b;
      assert ([c] + b)[1..] == b;
    } else {
      assert (a + [c] + b)[1..] == a[1..] + [c] + b;
      RunCountAtSeparator(a[1..], c, b, isSep, isSep(a[0]));
    }
  }

  /** `str(n)` round-trips: its digits denote `n`. */
  lemma {:induction false} NatToStringValue(n: nat)
    ensures DecimalValue(NatToString(n)) == n
    decreases n
  {
    var r := NatToString(n);
    if n >= 10 {
      NatToStringValue(n / 10);
      assert r[..|r| - 1] == NatToString(n / 10);
    }
  }

  /** `str(n)` has no leading zero unless it is `"0"`. */
  lemma NatToStringNoLeadingZero(n: nat)
    ensures NatToString(n)[0] == '0' ==> n == 0
    decreases n
  {
    if n >= 10 {
      NatToStringNoLeadingZero(n / 10);
      assert NatToString(n)[0] == NatToString(n / 10)[0];
    }
  }
}
