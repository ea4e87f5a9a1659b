/** Characters, white space and lines of a script, as the batch splitter sees them. */
module Text {

  /** The characters .NET treats as white space: both the regular-expression class \s
      and string.IsNullOrWhiteSpace use this set (ASCII tab to carriage return, space,
      next line, and the Unicode space, line and paragraph separators). */
  predicate IsWhiteSpace(c: char) {
    ('\t' <= c <= '\r') || c == ' ' || c == '\U{85}' || c == '\U{A0}' || c == '\U{1680}'
    || ('\U{2000}' <= c <= '\U{200A}') || c == '\U{2028}' || c == '\U{2029}'
    || c == '\U{202F}' || c == '\U{205F}' || c == '\U{3000}'
  }

  /** A blank text, as string.IsNullOrWhiteSpace judges a non-null string: every
      character is white space. */
  predicate IsBlank(t: string) {
    forall i :: 0 <= i < |t| ==> IsWhiteSpace(t[i])
  }

  /** The non-white-space characters of `t`, in order. */
  function NonWhiteSpace(t: string): (r: string)
    ensures |r| <= |t|
    ensures forall i :: 0 <= i < |r| ==> !IsWhiteSpace(r[i])
    ensures r == [] <==> IsBlank(t)
  {
    if t == [] then []
    else
      var init := NonWhiteSpace(t[..|t| - 1]);
      assert forall i :: 0 <= i < |t| - 1 ==> t[..|t| - 1][i] == t[i];
      init + if IsWhiteSpace(t[|t| - 1]) then [] else [t[|t| - 1]]
  }

  /** End of the run of white space that starts at `k`: the first index at or after `k`
      holding a non-white-space character, or |s|. */
  function SkipWhiteSpace(s: string, k: nat): (r: nat)
    requires k <= |s|
    ensures k <= r <= |s|
    ensures forall m :: k <= m < r ==> IsWhiteSpace(s[m])
    ensures r < |s| ==> !IsWhiteSpace(s[r])
    decreases |s| - k
  {
    if k == |s| || !IsWhiteSpace(s[k]) then k else SkipWhiteSpace(s, k + 1)
  }

  /** A line of `t` occupies t[i..j]: it starts at the beginning of `t` or after a line
      feed, ends at the end of `t` or before a line feed, and holds no line feed.
      A carriage return before the line feed stays part of the line. */
  predicate IsLine(t: string, i: int, j: int) {
    && 0 <= i <= j <= |t|
    && (i == 0 || t[i - 1] == '\n')
    && (j == |t| || t[j] == '\n')
    && forall m :: i <= m < j ==> t[m] != '\n'
  }

  /** Start of the line that holds position `k`. */
  function LineStart(s: string, k: nat): (r: nat)
    requires k <= |s|
    ensures r <= k
    ensures r == 0 || s[r - 1] == '\n'
    ensures forall m :: r <= m < k ==> s[m] != '\n'
  {
    if k == 0 || s[k - 1] == '\n' then k else LineStart(s, k - 1)
  }

  /** End of the line that holds position `k` (the index of its line feed, or |s|). */
  function LineEnd(s: string, k: nat): (r: nat)
    requires k <= |s|
    ensures k <= r <= |s|
    ensures r == |s| || s[r] == '\n'
    ensures forall m :: k <= m < r ==> s[m] != '\n'
    decreases |s| - k
  {
    if k == |s| || s[k] == '\n' then k else LineEnd(s, k + 1)
  }

  /** The line around any position is a line in the sense of IsLine. */
  lemma LineAround(s: string, k: nat)
    requires k <= |s|
    ensures IsLine(s, LineStart(s, k), LineEnd(s, k))
  {
    var i, j := LineStart(s, k), LineEnd(s, k);
    forall m | i <= m < j
      ensures s[m] != '\n'
    {
      if m >= k {
        assert k <= m < j;
      }
    }
  }
}
