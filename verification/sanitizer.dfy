/** The value sanitisation of the older revision: `re.sub(r"[^\w\d_]+", "_", v)`
    replaces every maximal run of non-word characters by one underscore.
    The word-character class is ASCII `[A-Za-z0-9_]` here. */
module Sanitizer {

  predicate IsWordChar(c: char)
  {
    'a' <= c <= 'z' || 'A' <= c <= 'Z' || '0' <= c <= '9' || c == '_'
  }

  predicate AllWord(s: string)
  {
    forall i :: 0 <= i < |s| ==> IsWordChar(s[i])
  }

  predicate NoWord(s: string)
  {
    forall i :: 0 <= i < |s| ==> !IsWordChar(s[i])
  }

  /** Length of the run of non-word characters that `s` starts with. */
  function NonWordRun(s: string): (n: nat)
    ensures n <= |s|
    ensures NoWord(s[..n])
    ensures n == |s| || IsWordChar(s[n])
  {
    if s != [] && !IsWordChar(s[0]) then 1 + NonWordRun(s[1..]) else 0
  }

  /** The sanitised value holds only word characters and is never longer
      than the input. */
  function Sanitize(s: string): (r: string)
    ensures AllWord(r)
    ensures |r| <= |s|
    decreases |s|
  {
    if s == [] then []
    else if IsWordChar(s[0]) then [s[0]] + Sanitize(s[1..])
    else "_" + Sanitize(s[NonWordRun(s)..])
  }

  /** A word-character prefix is copied through unchanged. */
  lemma {:induction false} SanitizeWordPrefix(a: string, b: string)
    requires AllWord(a)
    ensures Sanitize(a + b) == a + Sanitize(b)
  {
    if a != [] {
      var s := a + b;
      assert s[0] == a[0] && IsWordChar(s[0]);
      assert s[1..] == a[1..] + b;
      SanitizeWordPrefix(a[1..], b);
      assert Sanitize(s) == [a[0]] + Sanitize(s[1..]);
      assert a == [a[0]] + a[1..];
    } else {
      assert a + b == b;
    }
  }

  /** A maximal non-empty run of non-word characters becomes one underscore. */
  lemma SanitizeNonWordRun(n: string, b: string)
    requires |n| > 0 && NoWord(n)
    requires b == [] || IsWordChar(b[0])
    ensures Sanitize(n + b) == "_" + Sanitize(b)
  {
    var s := n + b;
    assert NonWordRun(s) == |n|;
    assert s[|n|..] == b;
  }

  /** Sanitisation leaves a value unchanged exactly when it holds only word
      characters. */
  lemma {:induction false} SanitizeUnchangedIff(s: string)
    ensures Sanitize(s) == s <==> AllWord(s)
  {
    if AllWord(s) {
      SanitizeWordPrefix(s, []);
      assert s + [] == s;
    }
  }

  /** Sanitising an already sanitised value is a no-op. */
  lemma SanitizeIdempotent(s: string)
    ensures Sanitize(Sanitize(s)) == Sanitize(s)
  {
    SanitizeUnchangedIff(Sanitize(s));
  }
}
