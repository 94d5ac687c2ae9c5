/** The opponent's reply to a tic-tac-toe request and the extraction of a move
    from it (app/page.tsx:209-226). The reply body reaches the game either as
    text, from which the first `row, col` pair is pulled out with the pattern
    `\[?\s*(\d+)\s*,\s*(\d+)\s*\]?`, or as an object with a `move` array. */
module AgentReply {
  import opened Wrappers

  /** A character the pattern's `\d` accepts. */
  predicate IsDigit(c: char) {
    '0' <= c <= '9'
  }

  /** A character the pattern's `\s` accepts: the ECMAScript white space and
      line terminator characters. */
  predicate IsSpace(c: char) {
    c == '\t' || c == '\n' || c == '\U{B}' || c == '\U{C}' || c == '\r' || c == ' ' ||
    c == '\U{A0}' || c == '\U{1680}' || ('\U{2000}' <= c <= '\U{200A}') ||
    c == '\U{2028}' || c == '\U{2029}' || c == '\U{202F}' || c == '\U{205F}' ||
    c == '\U{3000}' || c == '\U{FEFF}'
  }

  /** The end of the run of white space that starts at `i` (`\s*`, greedy). */
  function SkipSpaces(s: string, i: nat): (j: nat)
    requires i <= |s|
    ensures i <= j <= |s|
    ensures forall k :: i <= k < j ==> IsSpace(s[k])
    ensures j < |s| ==> !IsSpace(s[j])
    decreases |s| - i
  {
    if i < |s| && IsSpace(s[i]) then SkipSpaces(s, i + 1) else i
  }

  /** The end of the run of digits that starts at `i` (`\d+` when non-empty). */
  function SkipDigits(s: string, i: nat): (j: nat)
    requires i <= |s|
    ensures i <= j <= |s|
    ensures forall k :: i <= k < j ==> IsDigit(s[k])
    ensures j < |s| ==> !IsDigit(s[j])
    decreases |s| - i
  {
    if i < |s| && IsDigit(s[i]) then SkipDigits(s, i + 1) else i
  }

  /** The decimal value of a string of digits, as `parseInt` reads it. */
  function DigitsValue(d: string): nat
    requires forall k :: 0 <= k < |d| ==> IsDigit(d[k])
  {
    if |d| == 0 then 0
    else DigitsValue(d[..|d| - 1]) * 10 + DigitValue(d[|d| - 1])
  }

  /** The value of one digit. */
  function DigitValue(c: char): nat
    requires IsDigit(c)
  {
    c as int - '0' as int
  }

  /** The decimal digits of `n`, as `JSON.stringify` writes a number. */
  function NatDigits(n: nat): string
    decreases n
  {
    if n < 10 then [('0' as int + n) as char]
    else NatDigits(n / 10) + [('0' as int + n % 10) as char]
  }

  /** Writing a number in decimal and reading it back gives the number. */
  lemma {:induction false} NatDigitsRoundTrip(n: nat)
    ensures |NatDigits(n)| > 0
    ensures forall k :: 0 <= k < |NatDigits(n)| ==> IsDigit(NatDigits(n)[k])
    ensures DigitsValue(NatDigits(n)) == n
    decreases n
  {
    if n >= 10 {
      NatDigitsRoundTrip(n / 10);
      var d := NatDigits(n);
      assert d[..|d| - 1] == NatDigits(n / 10);
    }
  }

  /** The pattern anchored at position `i`: an optional `[`, white space, the
      row digits, white space, a comma, white space and the column digits; the
      closing `\s*\]?` always matches, possibly empty. Every quantifier of the
      pattern is greedy and no shorter choice can succeed, so one pass decides
      the match. */
  function MatchAt(s: string, i: nat): Option<(nat, nat)>
    requires i <= |s|
  {
    MatchPair(s, SkipSpaces(s, if i < |s| && s[i] == '[' then i + 1 else i))
  }

  /** The rest of the pattern from the first row digit on. */
  function MatchPair(s: string, rowStart: nat): Option<(nat, nat)>
    requires rowStart <= |s|
  {
    var rowEnd := SkipDigits(s, rowStart);
    if rowEnd == rowStart then None
    else
      var comma := SkipSpaces(s, rowEnd);
      if comma == |s| || s[comma] != ',' then None
      else MatchColumn(s, DigitsValue(s[rowStart..rowEnd]), SkipSpaces(s, comma + 1))
  }

  /** The column digits of the pattern, after the comma and white space. */
  function MatchColumn(s: string, row: nat, colStart: nat): Option<(nat, nat)>
    requires colStart <= |s|
  {
    var colEnd := SkipDigits(s, colStart);
    if colEnd == colStart then None
    else Some((row, DigitsValue(s[colStart..colEnd])))
  }

  /** The outcome of the pattern at every position of `s`, the end included. */
  function Matches(s: string): seq<Option<(nat, nat)>> {
    seq(|s| + 1, j requires 0 <= j <= |s| => MatchAt(s, j))
  }

  /** The first outcome from position `i` on that is a match: the leftmost
      match, as `String.prototype.match` finds it. */
  function FirstMatch(ms: seq<Option<(nat, nat)>>, i: nat): (r: Option<(nat, nat)>)
    requires i <= |ms|
    ensures r.None? <==> forall j :: i <= j < |ms| ==> ms[j].None?
    ensures r.Some? ==>
      exists j :: i <= j < |ms| && ms[j] == r && forall k :: i <= k < j ==> ms[k].None?
    decreases |ms| - i
  {
    if i == |ms| then None
    else if ms[i].Some? then ms[i]
    else FirstMatch(ms, i + 1)
  }

  /** The `[row, col]` pair a text reply yields, if any. */
  function ExtractMove(text: string): Option<(nat, nat)> {
    FirstMatch(Matches(text), 0)
  }

  /** The reply to a move request, after the request itself: the request
      failed or was answered with `success: false` or an empty body
      (`NoReply`), the body is text, or the body is an object whose `move`
      field, when it is an array of integers, is `move`. */
  datatype Reply =
    | NoReply
    | Text(body: string)
    | Object(move: Option<seq<int>>)

  /** The `[row, col]` move a reply carries: the first pair in a text body,
      the first two entries of an object's `move` array, or nothing. */
  function ReplyMove(reply: Reply): Option<(int, int)>
  {
    match reply
    case NoReply => None
    case Text(body) =>
      (match ExtractMove(body)
       case Some((row, col)) => Some((row as int, col as int))
       case None => None)
    case Object(move) =>
      if move.Some? && |move.value| >= 2 then Some((move.value[0], move.value[1])) else None
  }

  /** The move written as `[row,col]`, with `gap` between the comma and the
      column; the request asks for `[row, col]`, a gap of one space. */
  function MoveText(row: nat, col: nat, gap: string): string {
    "[" + NatDigits(row) + "," + gap + NatDigits(col) + "]"
  }

  /** No match can start inside a prefix free of digits that is followed by
      a `[`: the first digit the pattern could reach lies past that `[`. */
  lemma NoMatchInPrefix(s: string, pre: string, i: nat)
    requires |pre| < |s| && s[..|pre|] == pre && s[|pre|] == '['
    requires forall k :: 0 <= k < |pre| ==> !IsDigit(pre[k])
    requires i < |pre|
    ensures MatchAt(s, i).None?
  {
    var p := if i < |s| && s[i] == '[' then i + 1 else i;
    var rowStart := SkipSpaces(s, p);
    assert p <= |pre|;
    assert !IsSpace(s[|pre|]);
    assert rowStart <= |pre|;
    if rowStart < |pre| {
      assert s[rowStart] == pre[rowStart];
    }
    assert !IsDigit(s[rowStart]);
  }

  /** A run of digits `d` at position `i` followed by a non-digit (or the end)
      is exactly what `SkipDigits` consumes there, and no white space is
      skipped before it. */
  lemma SkipDigitsRun(s: string, i: nat, d: string)
    requires |d| > 0 && i + |d| <= |s| && s[i..i + |d|] == d
    requires forall k :: 0 <= k < |d| ==> IsDigit(d[k])
    requires i + |d| == |s| || !IsDigit(s[i + |d|])
    ensures SkipDigits(s, i) == i + |d| && SkipSpaces(s, i) == i
  {
    assert forall k :: i <= k < i + |d| ==> s[k] == d[k - i];
  }

  /** A run of white space `g` at position `i` followed by a character that
      is not white space is exactly what `SkipSpaces` consumes there. */
  lemma SkipSpacesRun(s: string, i: nat, g: string)
    requires i + |g| < |s| && s[i..i + |g|] == g && !IsSpace(s[i + |g|])
    requires forall k :: 0 <= k < |g| ==> IsSpace(g[k])
    ensures SkipSpaces(s, i) == i + |g|
  {
    assert forall k :: i <= k < i + |g| ==> s[k] == g[k - i];
  }

  /** White space skipping stops at once at a character that is not white
      space. */
  lemma NoSpaceHere(s: string, i: nat)
    requires i < |s| && !IsSpace(s[i])
    ensures SkipSpaces(s, i) == i
  {
  }

  /** The pattern from the row digits on, when the row digits end at a
      comma and the column digits start after the white space that follows
      it. */
  lemma MatchesPair(s: string, rowStart: nat, rowEnd: nat, colStart: nat, colEnd: nat)
    requires rowStart < rowEnd < |s| && SkipDigits(s, rowStart) == rowEnd && s[rowEnd] == ','
    requires SkipSpaces(s, rowEnd) == rowEnd && SkipSpaces(s, rowEnd + 1) == colStart
    requires colStart < colEnd == SkipDigits(s, colStart)
    ensures MatchPair(s, rowStart) ==
      Some((DigitsValue(s[rowStart..rowEnd]), DigitsValue(s[colStart..colEnd])))
  {
  }

  /** The pattern, anchored at a `[` followed by a run of digits ending at
      `rowEnd` with a comma there, white space up to `colStart` and a run of
      digits from there to `colEnd`, reads the values of those two runs. */
  lemma MatchesPieces(s: string, open: nat, rowEnd: nat, colStart: nat, colEnd: nat, row: nat, col: nat)
    requires open + 1 < rowEnd < |s| && s[open] == '[' && SkipSpaces(s, open + 1) == open + 1
    requires SkipDigits(s, open + 1) == rowEnd && s[rowEnd] == ','
    requires SkipSpaces(s, rowEnd) == rowEnd && SkipSpaces(s, rowEnd + 1) == colStart
    requires colStart < colEnd == SkipDigits(s, colStart)
    requires DigitsValue(s[open + 1..rowEnd]) == row && DigitsValue(s[colStart..colEnd]) == col
    ensures MatchAt(s, open) == Some((row, col))
  {
    MatchesPair(s, open + 1, rowEnd, colStart, colEnd);
    MatchesAfterBracket(s, open);
  }

  /** At a `[` followed by a character that is not white space, the pattern
      goes on with the row digits right after the `[`. */
  lemma MatchesAfterBracket(s: string, open: nat)
    requires open + 1 < |s| && s[open] == '[' && SkipSpaces(s, open + 1) == open + 1
    ensures MatchAt(s, open) == MatchPair(s, open + 1)
  {
  }

  /** A number written in decimal inside a longer string, and not followed
      by another digit, is a whole run of digits that reads back as that
      number. */
  lemma ReadsBack(s: string, i: nat, j: nat, n: nat)
    requires j == i + |NatDigits(n)| <= |s| && s[i..j] == NatDigits(n)
    requires j == |s| || !IsDigit(s[j])
    ensures forall k :: i <= k < j ==> IsDigit(s[k])
    ensures DigitsValue(s[i..j]) == n
    ensures SkipDigits(s, i) == j > i && SkipSpaces(s, i) == i
  {
    NatDigitsRoundTrip(n);
    SkipDigitsRun(s, i, NatDigits(n));
  }

  /** The row digits of `[r,gc]`. */
  lemma RowOfBracketed(r: string, g: string, c: string)
    ensures ("[" + r + "," + g + c + "]")[1..1 + |r|] == r
  {
    var t := "[" + r + "," + g + c + "]";
    assert forall k :: 0 <= k < |r| ==> t[1..1 + |r|][k] == t[1 + k] == r[k];
  }

  /** The gap after the comma of `[r,gc]`. */
  lemma GapOfBracketed(r: string, g: string, c: string)
    ensures ("[" + r + "," + g + c + "]")[2 + |r|..2 + |r| + |g|] == g
  {
    var t := "[" + r + "," + g + c + "]";
    assert forall k :: 0 <= k < |g| ==> t[2 + |r|..2 + |r| + |g|][k] == t[2 + |r| + k] == g[k];
  }

  /** The column digits of `[r,gc]`. */
  lemma ColumnOfBracketed(r: string, g: string, c: string)
    ensures ("[" + r + "," + g + c + "]")[2 + |r| + |g|..2 + |r| + |g| + |c|] == c
  {
    var t := "[" + r + "," + g + c + "]";
    var lo := 2 + |r| + |g|;
    assert forall k :: 0 <= k < |c| ==> t[lo..lo + |c|][k] == t[lo + k] == c[k];
  }

  /** A piece of `t` found inside a longer string that holds `t`. */
  lemma PieceInside(s: string, lo: nat, t: string, i: nat, p: string)
    requires lo + |t| <= |s| && s[lo..lo + |t|] == t
    requires i + |p| <= |t| && t[i..i + |p|] == p
    ensures s[lo + i..lo + i + |p|] == p
  {
    SliceOfSlice(s, lo, lo + |t|, i, i + |p|);
  }

  /** The pieces of `[r,gc]` written inside a longer string: `[`, the
      row digits, `,`, the gap, the column digits and `]`. */
  lemma BracketedPairPieces(s: string, open: nat, r: string, g: string, c: string)
    requires open + |r| + |g| + |c| + 3 <= |s|
    requires s[open..open + |r| + |g| + |c| + 3] == "[" + r + "," + g + c + "]"
    ensures s[open] == '[' && s[open + 1..open + 1 + |r|] == r && s[open + 1 + |r|] == ','
    ensures s[open + 2 + |r|..open + 2 + |r| + |g|] == g
    ensures s[open + 2 + |r| + |g|..open + 2 + |r| + |g| + |c|] == c
    ensures s[open + 2 + |r| + |g| + |c|] == ']'
  {
    var t := "[" + r + "," + g + c + "]";
    var u := s[open..open + |t|];
    assert s[open] == u[0] == '[';
    assert s[open + 1 + |r|] == u[1 + |r|] == ',';
    assert s[open + 2 + |r| + |g| + |c|] == u[2 + |r| + |g| + |c|] == ']';
    RowOfBracketed(r, g, c);
    PieceInside(s, open, t, 1, r);
    GapOfBracketed(r, g, c);
    PieceInside(s, open, t, 2 + |r|, g);
    ColumnOfBracketed(r, g, c);
    PieceInside(s, open, t, 2 + |r| + |g|, c);
  }

  /** The pattern, anchored at the start of a `[row,col]` it finds there,
      with white space or nothing after the comma, reads back that row and
      column. */
  lemma MatchesWrittenMove(s: string, open: nat, row: nat, col: nat, gap: string)
    requires forall k :: 0 <= k < |gap| ==> IsSpace(gap[k])
    requires open + |MoveText(row, col, gap)| <= |s|
    requires s[open..open + |MoveText(row, col, gap)|] == MoveText(row, col, gap)
    ensures MatchAt(s, open) == Some((row, col))
  {
    var r, c := NatDigits(row), NatDigits(col);
    var rowEnd := open + 1 + |r|;
    var colStart := rowEnd + 1 + |gap|;
    BracketedPairPieces(s, open, r, gap, c);
    MatchesSpelledMove(s, open, rowEnd, colStart, colStart + |c|, row, col, gap);
  }

  /** The pattern, anchored at a `[` followed by the digits of `row`, a
      comma, the white space `gap`, the digits of `col` and a `]`, reads back
      that row and column. */
  lemma MatchesSpelledMove(s: string, open: nat, rowEnd: nat, colStart: nat, colEnd: nat,
                           row: nat, col: nat, gap: string)
    requires forall k :: 0 <= k < |gap| ==> IsSpace(gap[k])
    requires rowEnd == open + 1 + |NatDigits(row)| && colStart == rowEnd + 1 + |gap|
    requires colEnd == colStart + |NatDigits(col)| < |s|
    requires s[open] == '[' && s[open + 1..rowEnd] == NatDigits(row) && s[rowEnd] == ','
    requires s[rowEnd + 1..colStart] == gap
    requires s[colStart..colEnd] == NatDigits(col) && s[colEnd] == ']'
    ensures MatchAt(s, open) == Some((row, col))
  {
    ReadsBack(s, open + 1, rowEnd, row);
    ReadsBack(s, colStart, colEnd, col);
    NoSpaceHere(s, rowEnd);
    SkipSpacesRun(s, rowEnd + 1, gap);
    MatchesPieces(s, open, rowEnd, colStart, colEnd, row, col);
  }

  /** A slice of a slice is a slice of the whole. */
  lemma SliceOfSlice(s: string, lo: nat, hi: nat, i: nat, j: nat)
    requires lo <= hi <= |s| && i <= j <= hi - lo
    ensures s[lo..hi][i..j] == s[lo + i..lo + j]
  {
    assert forall k :: 0 <= k < j - i ==> s[lo..hi][i..j][k] == s[lo + i + k];
  }

  /** Round trip: a text reply that carries the move as `[row,col]` or
      `[row, col]` after text with no digits in it yields exactly that move,
      whatever follows. */
  lemma ExtractsWrittenMove(pre: string, row: nat, col: nat, gap: string, post: string)
    requires forall k :: 0 <= k < |pre| ==> !IsDigit(pre[k])
    requires forall k :: 0 <= k < |gap| ==> IsSpace(gap[k])
    ensures ExtractMove(pre + MoveText(row, col, gap) + post) == Some((row, col))
  {
    var t := MoveText(row, col, gap);
    var s := pre + t + post;
    var open := |pre|;
    assert s[..open] == pre;
    assert s[open..open + |t|] == t;
    assert s[open] == '[';
    MatchesWrittenMove(s, open, row, col, gap);
    var ms := Matches(s);
    forall i | 0 <= i < open
      ensures ms[i].None?
    {
      NoMatchInPrefix(s, pre, i);
    }
    FirstMatchAt(ms, 0, open);
  }

  /** When the first match at or after `i` is at `j`, scanning from `i`
      finds it. */
  lemma {:induction false} FirstMatchAt(ms: seq<Option<(nat, nat)>>, i: nat, j: nat)
    requires i <= j < |ms| && ms[j].Some?
    requires forall k :: i <= k < j ==> ms[k].None?
    ensures FirstMatch(ms, i) == ms[j]
    decreases j - i
  {
    if i < j {
      FirstMatchAt(ms, i + 1, j);
    }
  }

  /** Text without a digit carries no move. */
  lemma NoDigitsNoMove(text: string)
    requires forall k :: 0 <= k < |text| ==> !IsDigit(text[k])
    ensures ExtractMove(text).None?
  {
    forall j | 0 <= j <= |text|
      ensures Matches(text)[j].None?
    {
      var p := if j < |text| && text[j] == '[' then j + 1 else j;
      var rowStart := SkipSpaces(text, p);
      assert rowStart < |text| ==> !IsDigit(text[rowStart]);
    }
  }

  /** A text reply that holds digit-free text and then the move as
      `[row,col]` or `[row, col]` yields that move; a text reply without
      digits yields none. */
  lemma TextReplyMove(pre: string, row: nat, col: nat, gap: string, post: string, other: string)
    requires forall k :: 0 <= k < |pre| ==> !IsDigit(pre[k])
    requires forall k :: 0 <= k < |gap| ==> IsSpace(gap[k])
    requires forall k :: 0 <= k < |other| ==> !IsDigit(other[k])
    ensures ReplyMove(Text(pre + MoveText(row, col, gap) + post)) == Some((row as int, col as int))
    ensures ReplyMove(Text(other)).None?
  {
    ExtractsWrittenMove(pre, row, col, gap, post);
    NoDigitsNoMove(other);
  }

  /** A text reply written exactly in the format the request asks for,
      `{"move": [row, col]}`, yields that move. */
  lemma RequestedFormatMove(row: nat, col: nat)
    ensures ReplyMove(Text("{\"move\": " + MoveText(row, col, " ") + "}")) == Some((row as int, col as int))
  {
    var pre := "{\"move\": ";
    assert forall k :: 0 <= k < |pre| ==> !IsDigit(pre[k]);
    ExtractsWrittenMove(pre, row, col, " ", "}");
  }
}
