/** The statement-batch splitter of MssqlDatabase.Execute: the script is cut by the
    regular expression ^\s*GO\s*$ (multi-line, ignoring case) and the white-space-only
    pieces are dropped. The pieces are not trimmed. */
module BatchSplitter {
  import opened Text

  datatype Option<T> = None | Some(value: T)

  predicate IsLetterG(c: char) { c == 'G' || c == 'g' }
  predicate IsLetterO(c: char) { c == 'O' || c == 'o' }

  /** A delimiter line: once surrounding white space is trimmed, it is GO in any case. */
  predicate IsDelimiterLine(line: string) {
    var g := SkipWhiteSpace(line, 0);
    g + 2 <= |line| && IsLetterG(line[g]) && IsLetterO(line[g + 1]) && IsBlank(line[g + 2..])
  }

  /** Some line of `t` is a delimiter line. */
  predicate HasDelimiterLine(t: string) {
    exists i, j :: 0 <= i <= j <= |t| && IsLine(t, i, j) && IsDelimiterLine(t[i..j])
  }

  /** The character at `k` lies on a delimiter line of `s`. */
  predicate OnDelimiterLine(s: string, k: nat)
    requires k <= |s|
  {
    IsDelimiterLine(s[LineStart(s, k)..LineEnd(s, k)])
  }

  /** The last line feed in s[lo..hi), if any. */
  function LastLineFeed(s: string, lo: nat, hi: nat): (r: Option<nat>)
    requires lo <= hi <= |s|
    ensures r.Some? ==> lo <= r.value < hi && s[r.value] == '\n'
    ensures r.Some? ==> forall m :: r.value < m < hi ==> s[m] != '\n'
    ensures r.None? ==> forall m :: lo <= m < hi ==> s[m] != '\n'
    decreases hi - lo
  {
    if lo == hi then None
    else if s[hi - 1] == '\n' then Some(hi - 1)
    else LastLineFeed(s, lo, hi - 1)
  }

  /** The end of the match of ^\s*GO\s*$ that starts at `p`, if one does.
      ^ holds at the start of `s` and after a line feed; the leading \s* is greedy and
      giving any of it back would put white space where G must be, so G/O must follow the
      whole white-space run; the trailing \s* is greedy too and gives back characters
      until $ holds, that is until the end of `s` or a position before a line feed. */
  function MatchAt(s: string, p: nat): (r: Option<nat>)
    requires p <= |s|
    ensures r.Some? ==> p < r.value <= |s| && (r.value == |s| || s[r.value] == '\n')
  {
    if p != 0 && s[p - 1] != '\n' then None
    else
      var g := SkipWhiteSpace(s, p);
      if g + 2 <= |s| && IsLetterG(s[g]) && IsLetterO(s[g + 1]) then
        var e := SkipWhiteSpace(s, g + 2);
        if e == |s| then Some(e) else LastLineFeed(s, g + 2, e)
      else None
  }

  /** The leftmost match that starts at or after `from`, as (start, end). */
  function NextMatch(s: string, from: nat): (r: Option<(nat, nat)>)
    requires from <= |s|
    ensures r.None? ==> forall x :: from <= x <= |s| ==> MatchAt(s, x).None?
    ensures r.Some? ==>
              && from <= r.value.0 <= |s|
              && MatchAt(s, r.value.0) == Some(r.value.1)
              && forall x :: from <= x < r.value.0 ==> MatchAt(s, x).None?
    decreases |s| - from
  {
    match MatchAt(s, from)
    case Some(q) => Some((from, q))
    case None => if from == |s| then None else NextMatch(s, from + 1)
  }

  /** Regex.Split from position `from`: the text before the next match, then the pieces
      after it; the search resumes where the match ended. There is always a piece. */
  function Pieces(s: string, from: nat): (r: seq<string>)
    requires from <= |s|
    ensures 0 < |r|
    decreases |s| - from
  {
    match NextMatch(s, from)
    case None => [s[from..]]
    case Some((p, q)) => [s[from..p]] + Pieces(s, q)
  }

  /** The pieces Regex.Split gives for the pattern ^\s*GO\s*$ under the multi-line and
      ignore-case options; even a script without a match gives one piece. */
  function RegexSplit(script: string): (r: seq<string>)
    ensures 0 < |r|
  {
    Pieces(script, 0)
  }

  /** The filter that drops the pieces string.IsNullOrWhiteSpace holds of: a piece is
      kept exactly when it is not blank. */
  function DropBlank(ts: seq<string>): (r: seq<string>)
    ensures |r| <= |ts|
    ensures forall t :: t in r <==> t in ts && !IsBlank(t)
  {
    if ts == [] then []
    else
      assert forall t :: t in ts <==> t == ts[0] || t in ts[1..];
      (if IsBlank(ts[0]) then [] else [ts[0]]) + DropBlank(ts[1..])
  }

  /** DropBlank keeps the non-blank pieces in their order: filtering a concatenation
      filters each part and keeps the parts in order (with DropBlankSingle, this pins
      the result down as the non-blank pieces of the input, in order). */
  lemma {:induction false} DropBlankAppend(a: seq<string>, b: seq<string>)
    ensures DropBlank(a + b) == DropBlank(a) + DropBlank(b)
  {
    if a != [] {
      var head := if IsBlank(a[0]) then [] else [a[0]];
      assert (a + b)[0] == a[0];
      assert (a + b)[1..] == a[1..] + b;
      assert DropBlank(a + b) == head + DropBlank(a[1..] + b);
      DropBlankAppend(a[1..], b);
      assert DropBlank(a) == head + DropBlank(a[1..]);
    } else {
      assert a + b == b;
    }
  }

  /** A single piece is kept exactly when it is not blank. */
  lemma DropBlankSingle(t: string)
    ensures DropBlank([t]) == if IsBlank(t) then [] else [t]
  {
    assert [t][1..] == [];
  }

  /** The batches MssqlDatabase.Execute sends to the server, in order: the pieces of the
      split that are not blank. */
  function Batches(script: string): (r: seq<string>)
    ensures forall b :: b in r <==> b in RegexSplit(script) && !IsBlank(b)
  {
    DropBlank(RegexSplit(script))
  }

  /** Reference definition, independent of the regular expression: the characters of
      s[lo..hi) that are not white space and do not lie on a delimiter line. */
  function Content(s: string, lo: nat, hi: nat): string
    requires lo <= hi <= |s|
    decreases hi - lo
  {
    if lo == hi then []
    else
      var k := hi - 1;
      Content(s, lo, k) + if !IsWhiteSpace(s[k]) && !OnDelimiterLine(s, k) then [s[k]] else []
  }

  /** The non-white-space characters of a sequence of batches, concatenated. */
  function JoinedNonWhiteSpace(ts: seq<string>): string {
    if ts == [] then [] else NonWhiteSpace(ts[0]) + JoinedNonWhiteSpace(ts[1..])
  }

  // ---------------------------------------------------------------------------
  // Matches and delimiter lines coincide

  /** Every delimiter line of `s` is matched by the regular expression at its start. */
  lemma DelimiterLineIsMatched(s: string, i: nat, j: nat)
    requires IsLine(s, i, j) && IsDelimiterLine(s[i..j])
    ensures MatchAt(s, i).Some?
  {
    var line := s[i..j];
    var g := SkipWhiteSpace(line, 0);
    assert line[g] == s[i + g] && line[g + 1] == s[i + g + 1];
    forall m | i <= m < i + g
      ensures IsWhiteSpace(s[m])
    {
      assert s[m] == line[m - i];
    }
    var gs := SkipWhiteSpace(s, i);
    assert gs == i + g;
    forall m | i + g + 2 <= m < j
      ensures IsWhiteSpace(s[m])
    {
      assert s[m] == line[g + 2..][m - i - g - 2];
    }
    var e := SkipWhiteSpace(s, i + g + 2);
    assert e >= j;
    if e < |s| {
      assert s[j] == '\n';
    }
  }

  /** What a match at `p` is made of: a line start, white space, G and O, then white
      space up to its end. */
  lemma MatchShape(s: string, p: nat)
    requires p <= |s| && MatchAt(s, p).Some?
    ensures p == 0 || s[p - 1] == '\n'
    ensures var g := SkipWhiteSpace(s, p);
            && g + 2 <= MatchAt(s, p).value <= SkipWhiteSpace(s, g + 2)
            && IsLetterG(s[g]) && IsLetterO(s[g + 1])
  {
  }

  /** Every match consumes a whole delimiter line (and white space around it). */
  lemma MatchIsDelimiterLine(s: string, p: nat)
    requires p <= |s| && MatchAt(s, p).Some?
    ensures var g := SkipWhiteSpace(s, p);
            && g + 2 <= MatchAt(s, p).value
            && p <= LineStart(s, g) && LineEnd(s, g) <= MatchAt(s, p).value
            && IsLine(s, LineStart(s, g), LineEnd(s, g))
            && IsDelimiterLine(s[LineStart(s, g)..LineEnd(s, g)])
  {
    MatchShape(s, p);
    var q := MatchAt(s, p).value;
    var g := SkipWhiteSpace(s, p);
    var ls, le := LineStart(s, g), LineEnd(s, g);
    LineAround(s, g);
    assert le >= g + 2 by {
      assert s[g] != '\n' && s[g + 1] != '\n';
    }
    assert p <= ls;
    assert le <= q;
    DelimiterLineFromParts(s, ls, g, le);
  }

  /** A line whose text is white space, G, O, white space is a delimiter line. */
  lemma DelimiterLineFromParts(s: string, ls: nat, g: nat, le: nat)
    requires ls <= g && g + 2 <= le <= |s|
    requires forall m :: ls <= m < g ==> IsWhiteSpace(s[m])
    requires IsLetterG(s[g]) && IsLetterO(s[g + 1])
    requires forall m :: g + 2 <= m < le ==> IsWhiteSpace(s[m])
    ensures IsDelimiterLine(s[ls..le])
  {
    var line := s[ls..le];
    forall m | 0 <= m < g - ls
      ensures IsWhiteSpace(line[m])
    {
      assert line[m] == s[ls + m];
    }
    assert line[g - ls] == s[g];
    assert SkipWhiteSpace(line, 0) == g - ls;
    assert line[g - ls + 1] == s[g + 1];
    var rest := line[g - ls + 2..];
    forall m | 0 <= m < |rest|
      ensures IsWhiteSpace(rest[m])
    {
      assert rest[m] == s[g + 2 + m];
    }
  }

  // ---------------------------------------------------------------------------
  // No batch holds a delimiter line

  /** A piece of the split: it starts at the beginning of the script or at the line feed
      that ended a match, and ends at the end of the script or at a line start where the
      next match begins; no match starts inside it. */
  predicate IsPiece(s: string, a: nat, b: nat) {
    && a <= b <= |s|
    && (a == 0 || a == |s| || s[a] == '\n')
    && (b == |s| || a == b || s[b - 1] == '\n')
    && forall x :: a <= x < b ==> MatchAt(s, x).None?
  }

  /** A non-empty line of a piece is a line of the whole script. */
  lemma PieceLineIsLine(s: string, a: nat, b: nat, i: nat, j: nat)
    requires a <= b <= |s|
    requires a == 0 || a == |s| || s[a] == '\n'
    requires b == |s| || a == b || s[b - 1] == '\n'
    requires i < j && IsLine(s[a..b], i, j)
    ensures IsLine(s, a + i, a + j)
  {
    var t := s[a..b];
    assert t[i] != '\n' && t[i] == s[a + i];
    if i != 0 {
      assert s[a + i - 1] == t[i - 1];
    }
    assert t[j - 1] != '\n' && t[j - 1] == s[a + j - 1];
    if j != |t| {
      assert s[a + j] == t[j];
    }
    forall m | a + i <= m < a + j
      ensures s[m] != '\n'
    {
      assert s[m] == t[m - a];
    }
  }

  lemma PieceHasNoDelimiterLine(s: string, a: nat, b: nat)
    requires IsPiece(s, a, b)
    ensures !HasDelimiterLine(s[a..b])
  {
    var t := s[a..b];
    if HasDelimiterLine(t) {
      var i, j :| 0 <= i <= j <= |t| && IsLine(t, i, j) && IsDelimiterLine(t[i..j]);
      assert t[i..j] == s[a + i..a + j] by {
        forall m | 0 <= m < j - i
          ensures t[i..j][m] == s[a + i..a + j][m]
        {
          assert t[i..j][m] == t[i + m] == s[a + i + m];
        }
      }
      assert i < j;
      PieceLineIsLine(s, a, b, i, j);
      DelimiterLineIsMatched(s, a + i, a + j);
      assert false;
    }
  }

  lemma {:induction false} PiecesHaveNoDelimiterLine(s: string, from: nat)
    requires from <= |s| && (from == 0 || from == |s| || s[from] == '\n')
    ensures forall t :: t in Pieces(s, from) ==> !HasDelimiterLine(t)
    decreases |s| - from
  {
    match NextMatch(s, from)
    case None =>
      PieceHasNoDelimiterLine(s, from, |s|);
      assert s[from..] == s[from..|s|];
    case Some((p, q)) =>
      if p > from {
        assert p == 0 || s[p - 1] == '\n';
      }
      PieceHasNoDelimiterLine(s, from, p);
      PiecesHaveNoDelimiterLine(s, q);
  }

  /** No batch sent to the server holds a line that, trimmed, is GO in any case. */
  lemma BatchesHaveNoDelimiterLine(script: string)
    ensures forall b :: b in Batches(script) ==> !HasDelimiterLine(b)
  {
    PiecesHaveNoDelimiterLine(script, 0);
  }

  /** Every batch sent to the server holds a character that is not white space. */
  lemma BatchesAreNotBlank(script: string)
    ensures forall b :: b in Batches(script) ==> exists i :: 0 <= i < |b| && !IsWhiteSpace(b[i])
  {
  }

  // ---------------------------------------------------------------------------
  // The batches keep the script's content, in order

  lemma {:induction false} ContentSplits(s: string, a: nat, b: nat, c: nat)
    requires a <= b <= c <= |s|
    ensures Content(s, a, c) == Content(s, a, b) + Content(s, b, c)
    decreases c - b
  {
    if b < c {
      ContentSplits(s, a, b, c - 1);
    }
  }

  /** The non-white-space text of s[a..b] extends that of s[a..b-1] by the last
      character, if it is not white space. */
  lemma NonWhiteSpaceOfSlice(s: string, a: nat, b: nat)
    requires a < b <= |s|
    ensures NonWhiteSpace(s[a..b]) == NonWhiteSpace(s[a..b - 1]) + if IsWhiteSpace(s[b - 1]) then [] else [s[b - 1]]
  {
    var t := s[a..b];
    assert t[..|t| - 1] == s[a..b - 1];
    assert t[|t| - 1] == s[b - 1];
  }

  /** Where no non-white-space character lies on a delimiter line, the content is all
      the non-white-space text. */
  lemma {:induction false} ContentIsNonWhiteSpace(s: string, a: nat, b: nat)
    requires a <= b <= |s|
    requires forall k :: a <= k < b && !IsWhiteSpace(s[k]) ==> !OnDelimiterLine(s, k)
    ensures NonWhiteSpace(s[a..b]) == Content(s, a, b)
    decreases b - a
  {
    if a < b {
      var k := b - 1;
      ContentIsNonWhiteSpace(s, a, k);
      NonWhiteSpaceOfSlice(s, a, b);
      assert !IsWhiteSpace(s[k]) ==> !OnDelimiterLine(s, k);
    }
  }

  /** Where every character is white space or lies on a delimiter line, there is no content. */
  lemma {:induction false} NoContent(s: string, a: nat, b: nat)
    requires a <= b <= |s|
    requires forall k :: a <= k < b ==> IsWhiteSpace(s[k]) || OnDelimiterLine(s, k)
    ensures Content(s, a, b) == []
    decreases b - a
  {
    if a < b {
      NoContent(s, a, b - 1);
    }
  }

  lemma PieceKeepsContent(s: string, a: nat, b: nat)
    requires IsPiece(s, a, b)
    ensures NonWhiteSpace(s[a..b]) == Content(s, a, b)
  {
    forall k | a <= k < b && !IsWhiteSpace(s[k])
      ensures !OnDelimiterLine(s, k)
    {
      var ls, le := LineStart(s, k), LineEnd(s, k);
      if OnDelimiterLine(s, k) {
        LineAround(s, k);
        assert ls >= a;
        DelimiterLineIsMatched(s, ls, le);
        assert false;
      }
    }
    ContentIsNonWhiteSpace(s, a, b);
  }

  /** White space, then a G and an O that lie on a delimiter line, then white space:
      there is no content. */
  lemma DelimiterStretchHasNoContent(s: string, p: nat, g: nat, q: nat)
    requires p <= g && g + 2 <= q <= |s|
    requires forall m :: p <= m < g ==> IsWhiteSpace(s[m])
    requires forall m :: g + 2 <= m < q ==> IsWhiteSpace(s[m])
    requires OnDelimiterLine(s, g) && OnDelimiterLine(s, g + 1)
    ensures Content(s, p, q) == []
  {
    forall k | p <= k < q
      ensures IsWhiteSpace(s[k]) || OnDelimiterLine(s, k)
    {
      if k < g {
        assert p <= k < g;
      } else if g + 2 <= k {
        assert g + 2 <= k < q;
      }
    }
    NoContent(s, p, q);
  }

  lemma MatchHasNoContent(s: string, p: nat)
    requires p <= |s| && MatchAt(s, p).Some?
    ensures Content(s, p, MatchAt(s, p).value) == []
  {
    var q := MatchAt(s, p).value;
    var g := SkipWhiteSpace(s, p);
    MatchShape(s, p);
    MatchIsDelimiterLine(s, p);
    assert OnDelimiterLine(s, g);
    assert OnDelimiterLine(s, g + 1) by {
      assert s[g] != '\n';
      assert LineStart(s, g + 1) == LineStart(s, g);
      assert LineEnd(s, g + 1) == LineEnd(s, g);
    }
    var e := SkipWhiteSpace(s, g + 2);
    assert q <= e;
    DelimiterStretchHasNoContent(s, p, g, q);
  }

  /** Cutting out a match loses no content. */
  lemma MatchCutKeepsContent(s: string, from: nat, p: nat, q: nat)
    requires from <= p <= |s| && MatchAt(s, p) == Some(q)
    ensures Content(s, from, |s|) == Content(s, from, p) + Content(s, q, |s|)
  {
    MatchHasNoContent(s, p);
    ContentSplits(s, p, q, |s|);
    assert Content(s, p, |s|) == Content(s, q, |s|);
    ContentSplits(s, from, p, |s|);
  }

  lemma {:induction false} PiecesKeepContent(s: string, from: nat)
    requires from <= |s| && (from == 0 || from == |s| || s[from] == '\n')
    ensures JoinedNonWhiteSpace(Pieces(s, from)) == Content(s, from, |s|)
    decreases |s| - from
  {
    match NextMatch(s, from)
    case None =>
      PieceKeepsContent(s, from, |s|);
      assert s[from..] == s[from..|s|];
      assert Pieces(s, from) == [s[from..]];
      assert JoinedNonWhiteSpace([s[from..]]) == NonWhiteSpace(s[from..]) + JoinedNonWhiteSpace([]);
    case Some((p, q)) =>
      MatchShape(s, p);
      assert IsPiece(s, from, p);
      PiecesKeepContent(s, q);
      PieceKeepsContent(s, from, p);
      MatchCutKeepsContent(s, from, p, q);
      var rest := Pieces(s, q);
      assert Pieces(s, from) == [s[from..p]] + rest;
      assert ([s[from..p]] + rest)[1..] == rest;
  }

  lemma {:induction false} DropBlankKeepsContent(ts: seq<string>)
    ensures JoinedNonWhiteSpace(DropBlank(ts)) == JoinedNonWhiteSpace(ts)
  {
    if ts != [] {
      DropBlankKeepsContent(ts[1..]);
      if IsBlank(ts[0]) {
        assert DropBlank(ts) == DropBlank(ts[1..]);
        assert NonWhiteSpace(ts[0]) == [];
      } else {
        assert DropBlank(ts) == [ts[0]] + DropBlank(ts[1..]);
        assert ([ts[0]] + DropBlank(ts[1..]))[1..] == DropBlank(ts[1..]);
      }
    }
  }

  /** Concatenating the non-white-space text of the batches, in the order they run,
      gives back the script's non-white-space text minus its delimiter lines. */
  lemma BatchesKeepContent(script: string)
    ensures JoinedNonWhiteSpace(Batches(script)) == Content(script, 0, |script|)
  {
    PiecesKeepContent(script, 0);
    DropBlankKeepsContent(RegexSplit(script));
  }

  // ---------------------------------------------------------------------------
  // Scripts without a delimiter line

  lemma NoDelimiterLineNoMatch(s: string)
    requires !HasDelimiterLine(s)
    ensures forall x :: 0 <= x <= |s| ==> MatchAt(s, x).None?
  {
    forall x | 0 <= x <= |s|
      ensures MatchAt(s, x).None?
    {
      if MatchAt(s, x).Some? {
        MatchIsDelimiterLine(s, x);
      }
    }
  }

  /** A script with no delimiter line and some non-white-space text is sent whole, as
      one batch, untrimmed. */
  lemma SingleBatch(script: string)
    requires !HasDelimiterLine(script) && !IsBlank(script)
    ensures Batches(script) == [script]
  {
    NoDelimiterLineNoMatch(script);
    assert Pieces(script, 0) == [script];
  }

  /** A white-space-only script sends nothing. */
  lemma BlankScriptHasNoBatch(script: string)
    requires IsBlank(script)
    ensures Batches(script) == []
  {
    assert NextMatch(script, 0).None? by {
      forall x | 0 <= x <= |script|
        ensures MatchAt(script, x).None?
      {
        assert SkipWhiteSpace(script, x) == |script|;
      }
    }
    assert Pieces(script, 0) == [script];
  }

  // ---------------------------------------------------------------------------
  // Worked cases

  /** The leading \s* swallows the blank line before GO, and the line feed that ends
      the GO line stays with the next piece. */
  lemma BlankLineBeforeDelimiterIsSwallowed()
    ensures RegexSplit("A\n\nGO\nB") == ["A\n", "\nB"]
  {
    var s := "A\n\nGO\nB";
    assert MatchAt(s, 0) == None && MatchAt(s, 1) == None;
    assert MatchAt(s, 2) == Some(5);
    assert NextMatch(s, 0) == Some((2, 5));
    assert MatchAt(s, 5) == None && MatchAt(s, 6) == None && MatchAt(s, 7) == None;
    assert NextMatch(s, 5) == None;
    assert Pieces(s, 0) == [s[0..2]] + [s[5..]];
    assert s[0..2] == "A\n" && s[5..] == "\nB";
  }

  /** The trailing \s* gives back only as far as the last line feed it covered: the
      blank line after GO belongs to the match, the line feed before B does not. */
  lemma BlankLineAfterDelimiterIsSwallowed()
    ensures RegexSplit("A\nGO\n\nB") == ["A\n", "\nB"]
  {
    var s := "A\nGO\n\nB";
    assert MatchAt(s, 0) == None && MatchAt(s, 1) == None;
    assert SkipWhiteSpace(s, 2) == 2;
    assert SkipWhiteSpace(s, 4) == 6;
    assert LastLineFeed(s, 4, 6) == Some(5);
    assert MatchAt(s, 2) == Some(5);
    assert NextMatch(s, 0) == Some((2, 5));
    assert MatchAt(s, 5) == None && MatchAt(s, 6) == None && MatchAt(s, 7) == None;
    assert NextMatch(s, 5) == None;
    assert Pieces(s, 0) == [s[0..2]] + [s[5..]];
    assert s[0..2] == "A\n" && s[5..] == "\nB";
  }

  /** The one match in the CR LF example below: GO and its carriage return. */
  lemma CarriageReturnMatch(s: string)
    requires s == "A\r\nGO\r\nB"
    ensures NextMatch(s, 0) == Some((3, 6))
  {
    assert MatchAt(s, 0) == None && MatchAt(s, 1) == None && MatchAt(s, 2) == None;
    assert s[3] == 'G' && s[4] == 'O' && s[5] == '\r' && s[6] == '\n' && s[7] == 'B';
    assert SkipWhiteSpace(s, 3) == 3;
    assert SkipWhiteSpace(s, 7) == 7;
    assert SkipWhiteSpace(s, 6) == 7;
    assert SkipWhiteSpace(s, 5) == 7;
    assert LastLineFeed(s, 5, 7) == Some(6);
    assert MatchAt(s, 3) == Some(6);
  }

  /** With CR LF line ends the match stops before the line feed, so the carriage return
      after GO goes with the match and the line feed with the next piece. */
  lemma CarriageReturnLineEnds()
    ensures RegexSplit("A\r\nGO\r\nB") == ["A\r\n", "\nB"]
  {
    var s := "A\r\nGO\r\nB";
    CarriageReturnMatch(s);
    assert MatchAt(s, 6) == None && MatchAt(s, 7) == None && MatchAt(s, 8) == None;
    assert NextMatch(s, 6) == None;
    assert Pieces(s, 0) == [s[0..3]] + [s[6..]];
    assert s[0..3] == "A\r\n" && s[6..] == "\nB";
  }

  /** GOTO is not a delimiter line and stays in its batch; the GO at the very end is one,
      and the empty piece after it is dropped. */
  lemma GotoIsNotDelimiter()
    ensures Batches("GOTO x\nGO") == ["GOTO x\n"]
  {
    var s := "GOTO x\nGO";
    assert SkipWhiteSpace(s, 2) == 2;
    assert MatchAt(s, 0) == None;
    assert MatchAt(s, 1) == None && MatchAt(s, 2) == None && MatchAt(s, 3) == None;
    assert MatchAt(s, 4) == None && MatchAt(s, 5) == None && MatchAt(s, 6) == None;
    assert MatchAt(s, 7) == Some(9);
    assert NextMatch(s, 0) == Some((7, 9));
    assert MatchAt(s, 9) == None;
    assert NextMatch(s, 9) == None;
    assert Pieces(s, 0) == [s[0..7]] + [s[9..]];
    assert s[0..7] == "GOTO x\n" && s[9..] == "";
    assert !IsBlank(s[0..7]) by { assert s[0..7][0] == 'G'; }
  }
}
