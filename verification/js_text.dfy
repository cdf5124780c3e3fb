/**
 * The few JavaScript string operations the site relies on: the white-space
 * class shared by `\s` and `String.prototype.trim`, `indexOf`, `startsWith`
 * and the ASCII lower-casing `Headers` applies to header names.
 */
module JsText {

  /** The WhiteSpace and LineTerminator code points of ECMAScript: tab, line feed,
      vertical tab, form feed, carriage return, every Unicode space separator (Zs),
      the byte-order mark, and the line and paragraph separators. */
  predicate IsWhiteSpace(c: char) {
    || '\t' <= c <= '\r'
    || c == ' ' || c == '\U{A0}' || c == '\U{1680}'
    || '\U{2000}' <= c <= '\U{200A}'
    || c == '\U{2028}' || c == '\U{2029}' || c == '\U{202F}' || c == '\U{205F}' || c == '\U{3000}'
    || c == '\U{FEFF}'
  }

  predicate AllWhiteSpace(s: string) {
    forall i :: 0 <= i < |s| ==> IsWhiteSpace(s[i])
  }

  /** Every character of `s` from `lo` up to (not including) `hi` is white space. */
  predicate SpaceBetween(s: string, lo: nat, hi: nat)
    requires lo <= hi <= |s|
  {
    forall k :: lo <= k < hi ==> IsWhiteSpace(s[k])
  }

  /** Position of the first character at or after `from` that is not white space, or `|s|`. */
  function LeadingSpace(s: string, from: nat): (n: nat)
    requires from <= |s|
    ensures from <= n <= |s|
    ensures SpaceBetween(s, from, n)
    ensures n < |s| ==> !IsWhiteSpace(s[n])
    decreases |s| - from
  {
    if from == |s| || !IsWhiteSpace(s[from]) then from else LeadingSpace(s, from + 1)
  }

  /** End of the content in `s[lo..hi]`: `hi` with the trailing white space given back,
      never below `lo`. */
  function ContentEnd(s: string, lo: nat, hi: nat): (n: nat)
    requires lo <= hi <= |s|
    ensures lo <= n <= hi
    ensures SpaceBetween(s, n, hi)
    ensures n > lo ==> !IsWhiteSpace(s[n - 1])
    decreases hi
  {
    if hi == lo || !IsWhiteSpace(s[hi - 1]) then hi else ContentEnd(s, lo, hi - 1)
  }

  /** `String.prototype.trim`: the slice of `s` left once white space is cut from both ends. */
  function Trim(s: string): (r: string)
    ensures exists i, j :: 0 <= i <= j <= |s| && r == s[i..j] && SpaceBetween(s, 0, i) && SpaceBetween(s, j, |s|)
    ensures r == [] || (!IsWhiteSpace(r[0]) && !IsWhiteSpace(r[|r| - 1]))
    ensures r == [] <==> AllWhiteSpace(s)
  {
    var i := LeadingSpace(s, 0);
    var j := ContentEnd(s, i, |s|);
    s[i..j]
  }

  /** `s` is its trimmed value between the white space cut from either end. */
  lemma TrimParts(s: string) returns (front: string, back: string)
    ensures s == front + Trim(s) + back
    ensures AllWhiteSpace(front) && AllWhiteSpace(back)
  {
    var i := LeadingSpace(s, 0);
    var j := ContentEnd(s, i, |s|);
    front, back := s[..i], s[j..];
    SpaceSlice(s, 0, i);
    SpaceSlice(s, j, |s|);
    assert s[0..i] == front && s[j..|s|] == back;
    assert s[..j] == front + s[i..j];
    assert s == s[..j] + back;
  }

  /** The slice of a run of white space is all white space. */
  lemma SpaceSlice(s: string, lo: nat, hi: nat)
    requires lo <= hi <= |s| && SpaceBetween(s, lo, hi)
    ensures AllWhiteSpace(s[lo..hi])
  {
    forall k | 0 <= k < hi - lo ensures IsWhiteSpace(s[lo..hi][k]) {
      assert s[lo..hi][k] == s[lo + k];
    }
  }

  lemma AllWhiteSpaceConcat(a: string, b: string)
    ensures AllWhiteSpace(a + b) <==> AllWhiteSpace(a) && AllWhiteSpace(b)
  {
    var ab := a + b;
    if AllWhiteSpace(ab) {
      forall k | 0 <= k < |a| ensures IsWhiteSpace(a[k]) {
        assert a[k] == ab[k];
      }
      forall k | 0 <= k < |b| ensures IsWhiteSpace(b[k]) {
        assert b[k] == ab[|a| + k];
      }
    }
    if AllWhiteSpace(a) && AllWhiteSpace(b) {
      forall k | 0 <= k < |ab| ensures IsWhiteSpace(ab[k]) {
        if k < |a| {
          assert ab[k] == a[k];
        } else {
          assert ab[k] == b[k - |a|];
        }
      }
    }
  }

  /** The leading white space is the only run of white space followed by a non-space. */
  lemma LeadingSpaceIsUnique(s: string, from: nat, n: nat)
    requires from <= n <= |s| && SpaceBetween(s, from, n)
    requires n < |s| ==> !IsWhiteSpace(s[n])
    ensures LeadingSpace(s, from) == n
  {
  }

  /** Likewise the trailing white space. */
  lemma ContentEndIsUnique(s: string, lo: nat, hi: nat, n: nat)
    requires lo <= n <= hi <= |s| && SpaceBetween(s, n, hi)
    requires n > lo ==> !IsWhiteSpace(s[n - 1])
    ensures ContentEnd(s, lo, hi) == n
  {
  }

  /** Trim is determined by its two properties: a value made of white space, then a
      core that neither starts nor ends with white space, then white space, trims to
      exactly that core. */
  lemma TrimIsUnique(s: string, pre: string, core: string, post: string)
    requires s == pre + core + post
    requires AllWhiteSpace(pre) && AllWhiteSpace(post)
    requires core == [] || (!IsWhiteSpace(core[0]) && !IsWhiteSpace(core[|core| - 1]))
    ensures Trim(s) == core
  {
    AllWhiteSpaceConcat(pre, core);
    AllWhiteSpaceConcat(pre + core, post);
    if core != [] {
      var a, b := |pre|, |pre| + |core|;
      assert forall k :: 0 <= k < a ==> s[k] == pre[k];
      assert s[a] == core[0];
      LeadingSpaceIsUnique(s, 0, a);
      assert forall k :: b <= k < |s| ==> s[k] == post[k - b];
      assert s[b - 1] == core[|core| - 1];
      ContentEndIsUnique(s, a, |s|, b);
      assert s[a..b] == core;
    }
  }

  /** Position of the first `c` in `s` at or after `from`, or `|s|` when there is none. */
  function IndexOf(s: string, c: char, from: nat): (k: nat)
    requires from <= |s|
    ensures from <= k <= |s|
    ensures k < |s| ==> s[k] == c
    ensures forall i :: from <= i < k ==> s[i] != c
    decreases |s| - from
  {
    if from == |s| then |s|
    else if s[from] == c then from
    else IndexOf(s, c, from + 1)
  }

  /** `IndexOf` finds the first occurrence: a position holding `c` (or the end) with no
      `c` before it from `from` on is the one it returns. */
  lemma {:induction false} IndexOfIsFirst(s: string, c: char, from: nat, k: nat)
    requires from <= k <= |s|
    requires k < |s| ==> s[k] == c
    requires forall i :: from <= i < k ==> s[i] != c
    ensures IndexOf(s, c, from) == k
    decreases k - from
  {
    if from < k {
      IndexOfIsFirst(s, c, from + 1, k);
    }
  }

  /** `s.startsWith(prefix)`. */
  predicate StartsWith(s: string, prefix: string) {
    |prefix| <= |s| && s[..|prefix|] == prefix
  }

  function LowerChar(c: char): char {
    if 'A' <= c <= 'Z' then (c as int + 32) as char else c
  }

  /** ASCII lower-casing, the normalisation `Headers` applies to header names. */
  function ToLowerAscii(s: string): (r: string)
    ensures |r| == |s|
    ensures forall i :: 0 <= i < |s| ==> r[i] == LowerChar(s[i])
    ensures forall i :: 0 <= i < |r| ==> !('A' <= r[i] <= 'Z')
  {
    seq(|s|, i requires 0 <= i < |s| => LowerChar(s[i]))
  }
}
