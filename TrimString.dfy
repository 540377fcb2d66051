/**
 * `String.prototype.trim`, the TrimString operation of ECMA-262 with both
 * ends selected: strip the longest run of white space and line terminators
 * from the start and from the end of a string.
 */
module TrimString {

  /**
   * The code points ECMA-262 counts as WhiteSpace (TAB, VT, FF, ZWNBSP and
   * every Space_Separator, Unicode category Zs) or as LineTerminator (LF, CR,
   * LS, PS).
   */
  predicate IsWhitespace(c: char)
  {
    var n := c as int;
    // WhiteSpace
    n == 0x09 || n == 0x0B || n == 0x0C || n == 0xFEFF ||
    // Space_Separator (Zs)
    n == 0x20 || n == 0xA0 || n == 0x1680 || 0x2000 <= n <= 0x200A ||
    n == 0x202F || n == 0x205F || n == 0x3000 ||
    // LineTerminator
    n == 0x0A || n == 0x0D || n == 0x2028 || n == 0x2029
  }

  /** Every character of `s` from position `i` up to (not including) `j` is white space. */
  ghost predicate WhitespaceBetween(s: string, i: int, j: int)
  {
    forall k :: i <= k < j && 0 <= k < |s| ==> IsWhitespace(s[k])
  }

  ghost predicate AllWhitespace(s: string)
  {
    WhitespaceBetween(s, 0, |s|)
  }

  /** Neither end of `s` is white space. */
  ghost predicate IsTrimmed(s: string)
  {
    s == [] || (!IsWhitespace(s[0]) && !IsWhitespace(s[|s| - 1]))
  }

  /** `r` is `s` with the white space `s[..lo]` and `s[lo + |r|..]` taken off its ends. */
  ghost predicate StripsTo(s: string, lo: int, r: string)
  {
    0 <= lo && lo + |r| <= |s| && s[lo..lo + |r|] == r &&
    WhitespaceBetween(s, 0, lo) && WhitespaceBetween(s, lo + |r|, |s|)
  }

  /** From position `i`, the position of the first character that is not white space (or the end). */
  function SkipLeading(s: string, i: nat): (j: nat)
    requires i <= |s|
    ensures i <= j <= |s|
    ensures WhitespaceBetween(s, i, j)
    ensures j < |s| ==> !IsWhitespace(s[j])
    decreases |s| - i
  {
    if i < |s| && IsWhitespace(s[i]) then SkipLeading(s, i + 1) else i
  }

  /** Going back from position `j` but not past `lo`, the position just after the last character that is not white space. */
  function SkipTrailing(s: string, lo: nat, j: nat): (k: nat)
    requires lo <= j <= |s|
    ensures lo <= k <= j
    ensures WhitespaceBetween(s, k, j)
    ensures lo < k ==> !IsWhitespace(s[k - 1])
    decreases j - lo
  {
    if lo < j && IsWhitespace(s[j - 1]) then SkipTrailing(s, lo, j - 1) else j
  }

  /** `s.trim()`: the longest prefix and suffix of white space removed. */
  function Trim(s: string): (r: string)
    ensures |r| <= |s|
    ensures IsTrimmed(r)
    ensures StripsTo(s, SkipLeading(s, 0), r)
    ensures r == [] <==> AllWhitespace(s)
  {
    var lo := SkipLeading(s, 0);
    var hi := SkipTrailing(s, lo, |s|);
    assert lo < hi ==> s[lo..hi][0] == s[lo] && s[lo..hi][hi - lo - 1] == s[hi - 1];
    s[lo..hi]
  }

  /**
   * Trim is the only way to strip white space from the ends of `s` that leaves
   * no white space at either end: any such result is `Trim(s)`.
   */
  lemma TrimUnique(s: string, lo: int, r: string)
    requires StripsTo(s, lo, r) && IsTrimmed(r)
    ensures r == Trim(s)
  {
    if r == [] {
      assert AllWhitespace(s);
    } else {
      var hi := lo + |r|;
      // s[lo] and s[hi - 1] are the ends of r, so neither is white space.
      assert s[lo] == r[0] && s[hi - 1] == r[|r| - 1];
      var lead := SkipLeading(s, 0);
      assert lo == lead;
      var end := SkipTrailing(s, lead, |s|);
      assert end == hi;
    }
  }

  /** Trimming an already trimmed string changes nothing, so trim is idempotent. */
  lemma TrimIdempotent(s: string)
    ensures Trim(Trim(s)) == Trim(s)
  {
    var r := Trim(s);
    assert StripsTo(r, 0, r) by {
      assert r[0..|r|] == r;
    }
    TrimUnique(r, 0, r);
  }
}
