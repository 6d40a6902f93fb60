/**
 * Reading a move from the text field: the input is trimmed and uppercased,
 * then `parseCoordinate` accepts a row letter A–J and a column digit, in
 * either order, ignoring case. The two regular expressions of the source are
 * written out as the two character shapes they accept.
 */
module CoordinateInput {
  import opened Wrappers
  import opened Text
  import opened Minesweeper
  import ReceiptFormatter

  /** `CharacterSet.whitespacesAndNewlines`: the Unicode space separators,
      line and paragraph separators, the controls U+0009 to U+000D, and
      U+0085. */
  predicate IsSpace(c: char) {
    '\U{9}' <= c <= '\U{D}' || c == ' ' || c == '\U{85}' || c == '\U{A0}' || c == '\U{1680}'
    || '\U{2000}' <= c <= '\U{200A}' || c == '\U{2028}' || c == '\U{2029}' || c == '\U{202F}'
    || c == '\U{205F}' || c == '\U{3000}'
  }

  /** The input without its leading spaces. */
  function TrimStart(s: string): (t: string)
    ensures |t| <= |s| && t == s[|s| - |t|..]
    ensures forall i :: 0 <= i < |s| - |t| ==> IsSpace(s[i])
    ensures |t| == 0 || !IsSpace(t[0])
  {
    if |s| > 0 && IsSpace(s[0]) then TrimStart(s[1..]) else s
  }

  /** The input without its trailing spaces. */
  function TrimEnd(s: string): (t: string)
    ensures |t| <= |s| && t == s[..|t|]
    ensures forall i :: |t| <= i < |s| ==> IsSpace(s[i])
    ensures |t| == 0 || !IsSpace(t[|t| - 1])
  {
    if |s| > 0 && IsSpace(s[|s| - 1]) then TrimEnd(s[..|s| - 1]) else s
  }

  /** `trimmingCharacters(in: .whitespacesAndNewlines)`. */
  function Trim(s: string): (t: string)
    ensures |t| <= |s|
    ensures |t| == 0 || (!IsSpace(t[0]) && !IsSpace(t[|t| - 1]))
  {
    TrimEnd(TrimStart(s))
  }

  /** Trimming keeps one contiguous piece of the input and drops only spaces
      before and after it. */
  lemma TrimRemovesOnlySpaces(s: string)
    ensures exists i, j ::
      (0 <= i <= j <= |s| && Trim(s) == s[i..j]
       && (forall k :: 0 <= k < i ==> IsSpace(s[k]))
       && (forall k :: j <= k < |s| ==> IsSpace(s[k])))
  {
    var front := TrimStart(s);
    var t := TrimEnd(front);
    var i := |s| - |front|;
    var j := i + |t|;
    assert t == s[i..j];
    forall k | j <= k < |s|
      ensures IsSpace(s[k])
    {
      assert s[k] == front[k - i];
    }
    assert 0 <= i <= j <= |s| && Trim(s) == s[i..j];
  }

  /** Spaces around the input do not change what is trimmed. */
  lemma {:induction false} TrimStartPadding(pad: string, s: string)
    requires forall k :: 0 <= k < |pad| ==> IsSpace(pad[k])
    ensures TrimStart(pad + s) == TrimStart(s)
  {
    if |pad| > 0 {
      var whole := pad + s;
      assert whole[0] == pad[0] && IsSpace(pad[0]);
      assert whole[1..] == pad[1..] + s;
      assert TrimStart(whole) == TrimStart(whole[1..]);
      TrimStartPadding(pad[1..], s);
    } else {
      assert pad + s == s;
    }
  }

  lemma {:induction false} TrimEndPadding(s: string, pad: string)
    requires forall k :: 0 <= k < |pad| ==> IsSpace(pad[k])
    ensures TrimEnd(s + pad) == TrimEnd(s)
  {
    if |pad| > 0 {
      var whole := s + pad;
      assert whole[|whole| - 1] == pad[|pad| - 1] && IsSpace(pad[|pad| - 1]);
      assert whole[..|whole| - 1] == s + pad[..|pad| - 1];
      assert TrimEnd(whole) == TrimEnd(whole[..|whole| - 1]);
      TrimEndPadding(s, pad[..|pad| - 1]);
    } else {
      assert s + pad == s;
    }
  }

  /** Text without surrounding spaces is left as it is. */
  lemma TrimKeepsTrimmed(s: string)
    requires |s| == 0 || (!IsSpace(s[0]) && !IsSpace(s[|s| - 1]))
    ensures Trim(s) == s
  {
  }

  /** The text that reaches `parseCoordinate`: trimmed, then uppercased. */
  function Normalize(input: string): (t: string)
    ensures |t| <= |input|
    ensures forall k :: 0 <= k < |t| ==> !IsLower(t[k])
  {
    Upper(Trim(input))
  }

  /** What `[A-J]` matches under `.caseInsensitive`. */
  predicate IsRowLetter(c: char) {
    'A' <= c <= 'J' || 'a' <= c <= 'j'
  }

  /** `Int(letterPart.uppercased().unicodeScalars.first!.value) - 65`. */
  function RowOf(c: char): (y: int)
    requires IsRowLetter(c)
    ensures 0 <= y < Rows
  {
    UpperChar(c) as int - 65
  }

  /** `parseCoordinate`: `^([A-J])(\d)$` first, then `^(\d)([A-J])$`, both
      ignoring case; a match whose coordinate is off the board gives nil. */
  function ParseCoordinate(input: string): (r: Option<Coordinate>)
    ensures r.Some? ==> InBounds(r.value)
  {
    if |input| == 2 && IsRowLetter(input[0]) && IsDigit(input[1]) then
      var y := RowOf(input[0]);
      var x := DigitValue(input[1]);
      if x >= 0 && x < 10 && y >= 0 && y < 10 then Some(Coordinate(x, y)) else None
    else if |input| == 2 && IsDigit(input[0]) && IsRowLetter(input[1]) then
      var x := DigitValue(input[0]);
      var y := RowOf(input[1]);
      if x >= 0 && x < 10 && y >= 0 && y < 10 then Some(Coordinate(x, y)) else None
    else
      None
  }

  /** The move the text field yields, as `performMove` reads it. */
  function ReadMove(raw: string): (r: Option<Coordinate>)
    ensures r.Some? ==> InBounds(r.value)
  {
    ParseCoordinate(Normalize(raw))
  }

  /** Exactly the two-character inputs of a row letter and a digit, in either
      order, are accepted. */
  lemma ParseAcceptsExactly(input: string)
    ensures ParseCoordinate(input).Some? <==>
      |input| == 2 && ((IsRowLetter(input[0]) && IsDigit(input[1])) || (IsDigit(input[0]) && IsRowLetter(input[1])))
  {
  }

  /** The letter gives the row and the digit the column. */
  lemma ParseReadsLetterAndDigit(letter: char, digit: char)
    requires IsRowLetter(letter) && IsDigit(digit)
    ensures ParseCoordinate([letter, digit]) == Some(Coordinate(DigitValue(digit), RowOf(letter)))
  {
  }

  /** "A3" and "3A" name the same cell. */
  lemma ParseEitherOrder(letter: char, digit: char)
    ensures ParseCoordinate([letter, digit]) == ParseCoordinate([digit, letter])
  {
  }

  /** Case does not matter. */
  lemma ParseIgnoresCase(input: string)
    ensures ParseCoordinate(Upper(input)) == ParseCoordinate(input)
  {
    if |input| == 2 {
      assert Upper(input) == [UpperChar(input[0]), UpperChar(input[1])];
    }
  }

  /** Empty input, input of any length but two, two digits and letters past J
      are refused. */
  lemma ParseRejects(input: string)
    ensures |input| != 2 ==> ParseCoordinate(input) == None
    ensures |input| == 2 && IsDigit(input[0]) && IsDigit(input[1]) ==> ParseCoordinate(input) == None
    ensures |input| == 2 && ('K' <= input[0] <= 'Z' || 'K' <= input[1] <= 'Z') ==> ParseCoordinate(input) == None
  {
  }

  /** The cell named on a receipt's ACTION line, its row letter then its
      column number, parses back as that cell, and so does the reverse order. */
  lemma LabelParsesBack(c: Coordinate)
    requires InBounds(c)
    ensures ReceiptFormatter.IsScalar(65 + c.y)
    ensures ParseCoordinate(ReceiptFormatter.CharLabel(c.y) + Decimal(c.x)) == Some(c)
    ensures ParseCoordinate(Decimal(c.x) + ReceiptFormatter.CharLabel(c.y)) == Some(c)
  {
    ReceiptFormatter.RowLabels(c.y);
    assert Decimal(c.x) == [DigitChar(c.x)];
  }

  /** Typed into the text field with any spaces around it, that text gives
      back the cell. */
  lemma ReceiptCoordinateRoundTrip(c: Coordinate, before: string, after: string)
    requires InBounds(c)
    requires forall k :: 0 <= k < |before| ==> IsSpace(before[k])
    requires forall k :: 0 <= k < |after| ==> IsSpace(after[k])
    ensures ReceiptFormatter.IsScalar(65 + c.y)
    ensures ReadMove(before + (ReceiptFormatter.CharLabel(c.y) + Decimal(c.x)) + after) == Some(c)
  {
    LabelParsesBack(c);
    var move := ReceiptFormatter.CharLabel(c.y) + Decimal(c.x);
    assert Decimal(c.x) == [DigitChar(c.x)];
    PaddedMove(before, move, after);
    ParseIgnoresCase(move);
  }

  /** Trimming removes the padding around a two-character move. */
  lemma PaddedMove(before: string, move: string, after: string)
    requires |move| == 2 && !IsSpace(move[0]) && !IsSpace(move[1])
    requires forall k :: 0 <= k < |before| ==> IsSpace(before[k])
    requires forall k :: 0 <= k < |after| ==> IsSpace(after[k])
    ensures Normalize(before + move + after) == Upper(move)
  {
    TrimStartPadding(before, move + after);
    assert before + move + after == before + (move + after);
    assert TrimStart(move + after) == move + after;
    TrimEndPadding(move, after);
    TrimKeepsTrimmed(move);
  }
}
