/**
 The two string operations of Go's `strings` package that the converter applies
 to an accepted line: `TrimSpace` and `ToLower`.
 */
module Text {

  /** Go's `unicode.IsSpace`: the Latin-1 spaces plus the Unicode White_Space code points. */
  predicate IsSpace(c: char) {
    || c == '\t' || c == '\n' || c == '\U{000B}' || c == '\U{000C}' || c == '\r' || c == ' '
    || c == '\U{0085}' || c == '\U{00A0}' || c == '\U{1680}'
    || ('\U{2000}' <= c <= '\U{200A}')
    || c == '\U{2028}' || c == '\U{2029}' || c == '\U{202F}' || c == '\U{205F}' || c == '\U{3000}'
  }

  /** True when `s` has no leading and no trailing white space. */
  predicate IsTrimmed(s: string) {
    s == [] || (!IsSpace(s[0]) && !IsSpace(s[|s| - 1]))
  }

  /** The end of the run of white space that starts at `k`. */
  function SpaceRunFrom(s: string, k: nat): (e: nat)
    requires k <= |s|
    ensures k <= e <= |s|
    ensures forall i :: k <= i < e ==> IsSpace(s[i])
    ensures e == |s| || !IsSpace(s[e])
    decreases |s| - k
  {
    if k < |s| && IsSpace(s[k]) then SpaceRunFrom(s, k + 1) else k
  }

  /** The start of the run of white space that ends at `k`, looking no further back than `lo`. */
  function SpaceRunBefore(s: string, lo: nat, k: nat): (b: nat)
    requires lo <= k <= |s|
    ensures lo <= b <= k
    ensures forall i :: b <= i < k ==> IsSpace(s[i])
    ensures b == lo || !IsSpace(s[b - 1])
    decreases k - lo
  {
    if lo < k && IsSpace(s[k - 1]) then SpaceRunBefore(s, lo, k - 1) else k
  }

  /** The number of white-space characters `strings.TrimSpace` drops from the front of `s`. */
  function LeadingSpace(s: string): (n: nat)
    ensures n <= |s|
  {
    SpaceRunFrom(s, 0)
  }

  /**
   `strings.TrimSpace`: the result has no surrounding white space, and it is `s`
   itself exactly when `s` had none to begin with.
   */
  function TrimSpace(s: string): (r: string)
    ensures |r| <= |s|
    ensures IsTrimmed(r)
    ensures r == s <==> IsTrimmed(s)
  {
    var lo := LeadingSpace(s);
    s[lo..SpaceRunBefore(s, lo, |s|)]
  }

  /**
   `strings.TrimSpace` returns a slice of `s`: the text between a leading run and a
   trailing run of white space. Together with `IsTrimmed`, this fixes the result.
   */
  lemma TrimSpaceRemovesOnlySpace(s: string)
    ensures var lo := LeadingSpace(s); var t := TrimSpace(s);
      && lo + |t| <= |s|
      && t == s[lo..lo + |t|]
      && (forall i :: 0 <= i < lo ==> IsSpace(s[i]))
      && (forall i :: lo + |t| <= i < |s| ==> IsSpace(s[i]))
  {
  }

  predicate IsUpper(c: char) {
    'A' <= c <= 'Z'
  }

  /** ASCII lower-casing of one character. */
  function LowerChar(c: char): (d: char)
    ensures !IsUpper(d)
    ensures IsUpper(c) ==> d as int == c as int + 32
    ensures !IsUpper(c) ==> d == c
  {
    if IsUpper(c) then (c as int + 32) as char else c
  }

  /** True when `s` holds no upper-case ASCII letter. */
  predicate IsLower(s: string) {
    forall i :: 0 <= i < |s| ==> !IsUpper(s[i])
  }

  /**
   `strings.ToLower` on ASCII text: same length, no upper-case letter left, and
   every character other than an upper-case letter kept as it was.
   */
  function Lower(s: string): (r: string)
    ensures |r| == |s|
    ensures IsLower(r)
    ensures forall i :: 0 <= i < |s| ==> r[i] == s[i] || (IsUpper(s[i]) && r[i] as int == s[i] as int + 32)
    ensures IsLower(s) ==> r == s
  {
    seq(|s|, i requires 0 <= i < |s| => LowerChar(s[i]))
  }
}
