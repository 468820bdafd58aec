/** The Python `str` operations the ingestion path relies on: `join` and
    `split` on a one-character separator, `replace("-", "_")`, `strip()` and
    `upper()`. */
module Strings {

  /** Total length of all parts. */
  function SumLengths(parts: seq<string>): nat
  {
    if |parts| == 0 then 0 else |parts[0]| + SumLengths(parts[1..])
  }

  /** `sep.join(parts)`. */
  function Join(parts: seq<string>, sep: char): (r: string)
    ensures |parts| == 0 ==> r == ""
    ensures |parts| > 0 ==> |r| == SumLengths(parts) + |parts| - 1
    ensures |parts| > 0 ==> r[..|parts[0]|] == parts[0]
  {
    if |parts| == 0 then ""
    else if |parts| == 1 then parts[0]
    else parts[0] + [sep] + Join(parts[1..], sep)
  }

  /** Joining five parts puts the separator between neighbours. */
  lemma JoinFive(parts: seq<string>, sep: char)
    requires |parts| == 5
    ensures Join(parts, sep)
         == parts[0] + [sep] + parts[1] + [sep] + parts[2] + [sep] + parts[3] + [sep] + parts[4]
  {
    assert parts[3..][1..] == parts[4..];
    assert parts[2..][1..] == parts[3..];
    assert parts[1..][1..] == parts[2..];
    assert Join(parts[4..], sep) == parts[4];
    var j3 := Join(parts[3..], sep);
    assert j3 == parts[3] + [sep] + parts[4];
    var j2 := Join(parts[2..], sep);
    assert j2 == parts[2] + [sep] + j3;
    var j1 := Join(parts[1..], sep);
    assert j1 == parts[1] + [sep] + j2;
    assert Join(parts, sep) == parts[0] + [sep] + j1;
  }

  /** Position of the first occurrence of `c` in `s`. */
  function IndexOf<T(==)>(s: seq<T>, c: T): (k: nat)
    requires c in s
    ensures k < |s| && s[k] == c && c !in s[..k]
  {
    if s[0] == c then 0 else 1 + IndexOf(s[1..], c)
  }

  /** `s.split(sep)`: always at least one piece, and no piece holds `sep`. */
  function Split(s: string, sep: char): (r: seq<string>)
    ensures |r| > 0
    ensures forall i :: 0 <= i < |r| ==> sep !in r[i]
    decreases |s|
  {
    if sep in s then
      var k := IndexOf(s, sep);
      [s[..k]] + Split(s[k + 1..], sep)
    else
      [s]
  }

  /** Splitting and re-joining on the same separator gives the string back. */
  lemma {:induction false} JoinSplit(s: string, sep: char)
    ensures Join(Split(s, sep), sep) == s
    decreases |s|
  {
    if sep in s {
      var k := IndexOf(s, sep);
      var rest := Split(s[k + 1..], sep);
      JoinSplit(s[k + 1..], sep);
      assert Split(s, sep) == [s[..k]] + rest;
      assert ([s[..k]] + rest)[1..] == rest;
      assert Join(Split(s, sep), sep) == s[..k] + [sep] + s[k + 1..];
      assert s == s[..k] + [s[k]] + s[k + 1..];
    }
  }

  /** Joining pieces free of the separator and splitting again gives the
      pieces back; `"".split(sep)` is `[""]`, so at least one piece is needed. */
  lemma {:induction false} SplitJoin(parts: seq<string>, sep: char)
    requires |parts| > 0
    requires forall i :: 0 <= i < |parts| ==> sep !in parts[i]
    ensures Split(Join(parts, sep), sep) == parts
  {
    if |parts| > 1 {
      var tail := Join(parts[1..], sep);
      var s := parts[0] + [sep] + tail;
      assert s[|parts[0]|] == sep;
      assert s[..|parts[0]|] == parts[0];
      var k := IndexOf(s, sep);
      assert k == |parts[0]|;
      assert s[k + 1..] == tail;
      SplitJoin(parts[1..], sep);
      assert parts == [parts[0]] + parts[1..];
    }
  }

  /** `s.replace("-", "_")`. */
  function ReplaceHyphens(s: string): (r: string)
    ensures |r| == |s|
    ensures forall i :: 0 <= i < |s| ==> r[i] == (if s[i] == '-' then '_' else s[i])
  {
    if s == [] then [] else [if s[0] == '-' then '_' else s[0]] + ReplaceHyphens(s[1..])
  }

  /** The replacement leaves no hyphen, changes a string exactly when it holds
      one, and so is idempotent. */
  lemma ReplaceHyphensProperties(s: string)
    ensures '-' !in ReplaceHyphens(s)
    ensures ReplaceHyphens(s) == s <==> '-' !in s
    ensures ReplaceHyphens(ReplaceHyphens(s)) == ReplaceHyphens(s)
  {
    var r := ReplaceHyphens(s);
    if '-' in s {
      var k :| 0 <= k < |s| && s[k] == '-';
      assert r[k] != s[k];
    }
  }

  /** Python's `str.isspace()`: the characters `str.strip()` removes. */
  predicate IsSpace(c: char)
  {
    || c == ' '
    || '\U{9}' <= c <= '\U{D}'
    || '\U{1C}' <= c <= '\U{1F}'
    || c == '\U{85}' || c == '\U{A0}' || c == '\U{1680}'
    || '\U{2000}' <= c <= '\U{200A}'
    || c == '\U{2028}' || c == '\U{2029}' || c == '\U{202F}' || c == '\U{205F}' || c == '\U{3000}'
  }

  predicate AllSpace(s: string)
  {
    forall i :: 0 <= i < |s| ==> IsSpace(s[i])
  }

  /** Number of leading whitespace characters. */
  function LeadingSpaces(s: string): (n: nat)
    ensures n <= |s|
    ensures AllSpace(s[..n])
    ensures n == |s| || !IsSpace(s[n])
  {
    if s != [] && IsSpace(s[0]) then 1 + LeadingSpaces(s[1..]) else 0
  }

  /** Number of trailing whitespace characters. */
  function TrailingSpaces(s: string): (n: nat)
    ensures n <= |s|
    ensures AllSpace(s[|s| - n..])
    ensures n == |s| || !IsSpace(s[|s| - n - 1])
  {
    if s != [] && IsSpace(s[|s| - 1]) then 1 + TrailingSpaces(s[..|s| - 1]) else 0
  }

  /** `r` is what is left of `s` once whitespace-only margins of lengths
      `i` and `|s| - i - |r|` are cut off, and `r` has no whitespace at
      either end. */
  predicate IsStripOf(s: string, i: int, r: string)
  {
    && 0 <= i <= i + |r| <= |s|
    && s[i..i + |r|] == r
    && AllSpace(s[..i])
    && AllSpace(s[i + |r|..])
    && (r == [] || (!IsSpace(r[0]) && !IsSpace(r[|r| - 1])))
  }

  /** `s.strip()`. */
  function Strip(s: string): (r: string)
    ensures exists i :: IsStripOf(s, i, r)
  {
    var i := LeadingSpaces(s);
    var t := s[i..];
    var r := t[..|t| - TrailingSpaces(t)];
    StripMargins(s, i, t, r);
    r
  }

  /** Cutting the leading whitespace and then the trailing whitespace of
      what is left leaves a string with whitespace-only margins. */
  lemma StripMargins(s: string, i: nat, t: string, r: string)
    requires i == LeadingSpaces(s) && t == s[i..] && r == t[..|t| - TrailingSpaces(t)]
    ensures IsStripOf(s, i, r)
  {
    var n := TrailingSpaces(t);
    assert s[i..i + |r|] == r;
    assert s[i + |r|..] == t[|t| - n..];
    if r != [] {
      assert r[0] == s[i];
      assert r[|r| - 1] == t[|t| - n - 1];
    }
  }

  /** Stripping is determined by its contract: whenever `s` is `m` with
      whitespace-only margins and `m` has no whitespace at either end,
      `s.strip()` is `m`. */
  lemma StripUnique(s: string, i: int, m: string)
    requires IsStripOf(s, i, m)
    ensures Strip(s) == m
  {
    var n := Strip(s);
    var j :| IsStripOf(s, j, n);
    StripEmptyIff(s, i, m);
    StripEmptyIff(s, j, n);
    if m != [] {
      StripPosition(s, i, m);
      StripPosition(s, j, n);
    }
  }

  /** What is left after stripping is empty exactly when `s` is all
      whitespace. */
  lemma StripEmptyIff(s: string, i: int, m: string)
    requires IsStripOf(s, i, m)
    ensures m == [] <==> AllSpace(s)
  {
    if m == [] {
      forall k | 0 <= k < |s| ensures IsSpace(s[k]) {
        if k < i {
          assert s[..i][k] == s[k];
        } else {
          assert s[i..][k - i] == s[k];
        }
      }
    } else {
      assert s[i] == m[0];
    }
  }

  /** A non-empty remainder starts right after the leading whitespace and
      ends right before the trailing whitespace. */
  lemma StripPosition(s: string, i: int, m: string)
    requires IsStripOf(s, i, m) && m != []
    ensures i == LeadingSpaces(s) && i + |m| == |s| - TrailingSpaces(s)
  {
    assert s[i] == m[0] && s[i + |m| - 1] == m[|m| - 1];
    StripStart(s, i);
    StripEnd(s, i + |m|);
  }

  /** A non-whitespace character preceded only by whitespace ends the
      leading whitespace. */
  lemma StripStart(s: string, i: int)
    requires 0 <= i < |s| && !IsSpace(s[i]) && AllSpace(s[..i])
    ensures i == LeadingSpaces(s)
  {
    AllSpacePrefix(s, LeadingSpaces(s));
    AllSpacePrefix(s, i);
  }

  /** A non-whitespace character followed only by whitespace starts the
      trailing whitespace. */
  lemma StripEnd(s: string, e: int)
    requires 0 < e <= |s| && !IsSpace(s[e - 1]) && AllSpace(s[e..])
    ensures e == |s| - TrailingSpaces(s)
  {
    var start := |s| - TrailingSpaces(s);
    AllSpaceSuffix(s, start);
    assert e - 1 < start;
    if start > 0 {
      AllSpaceSuffix(s, e);
      assert start - 1 < e;
    }
  }

  lemma AllSpacePrefix(s: string, n: int)
    requires 0 <= n <= |s| && AllSpace(s[..n])
    ensures forall k :: 0 <= k < n ==> IsSpace(s[k])
  {
    forall k | 0 <= k < n ensures IsSpace(s[k]) {
      assert s[..n][k] == s[k];
    }
  }

  lemma AllSpaceSuffix(s: string, n: int)
    requires 0 <= n <= |s| && AllSpace(s[n..])
    ensures forall k :: n <= k < |s| ==> IsSpace(s[k])
  {
    forall k | n <= k < |s| ensures IsSpace(s[k]) {
      assert s[n..][k - n] == s[k];
    }
  }

  /** Stripping twice is stripping once. */
  lemma StripIdempotent(s: string)
    ensures Strip(Strip(s)) == Strip(s)
  {
    var r := Strip(s);
    StripUnique(r, 0, r);
  }

  /** Python's `str.upper()` on one character, restricted to ASCII letters. */
  function UpperChar(c: char): char
  {
    if 'a' <= c <= 'z' then (c as int - 32) as char else c
  }

  predicate IsLowerAscii(c: char)
  {
    'a' <= c <= 'z'
  }

  /** `s.upper()` for ASCII letters: same length, no lower-case ASCII letter
      left, every other character unchanged. */
  function UpperAscii(s: string): (r: string)
    ensures |r| == |s|
    ensures forall i :: 0 <= i < |s| ==> !IsLowerAscii(r[i])
    ensures forall i :: 0 <= i < |s| && !IsLowerAscii(s[i]) ==> r[i] == s[i]
    ensures forall i :: 0 <= i < |s| && IsLowerAscii(s[i]) ==> r[i] as int == s[i] as int - 32
  {
    if s == [] then [] else [UpperChar(s[0])] + UpperAscii(s[1..])
  }
}
