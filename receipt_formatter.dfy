/**
 * ReceiptFormatter: the text printed on the receipt after every move. A
 * header of column numbers, one line per board row (its letter, then the
 * row's cell tokens separated by single spaces), then the action, the status,
 * the time and a rule of dashes. The time comes from `DateFormatter` in the
 * app and is a parameter here.
 */
module ReceiptFormatter {
  import opened Wrappers
  import opened Text
  import opened Minesweeper
  import opened Sequences

  /** `cellToken`: the symbol drawn for one cell. */
  function CellToken(s: CellState): (t: string)
    ensures 1 <= |t|
    ensures s.Revealed? ==> t == Decimal(s.count)
  {
    match s
    case Hidden => "\U{25A0}"
    case Empty => " "
    case Flagged => "\U{2691}"
    case Mine => "\U{2600}"
    case Exploded => "X"
    case Revealed(count) => Decimal(count)
  }

  /** Different cells never print the same token, so a receipt shows the
      board exactly. */
  lemma CellTokenInjective(s: CellState, u: CellState)
    requires CellToken(s) == CellToken(u)
    ensures s == u
  {
    if s.Revealed? && u.Revealed? {
      DecimalInjective(s.count, u.count);
    }
  }

  /** A cell whose token is one character wide: every state but a count
      outside 0..9. */
  predicate Narrow(s: CellState) {
    !s.Revealed? || 0 <= s.count < 10
  }

  lemma NarrowTokens(s: CellState)
    ensures Narrow(s) <==> |CellToken(s)| == 1
  {
  }

  /** Reading one character of a receipt back as a cell. */
  function ReadToken(c: char): (r: Option<CellState>)
    ensures r.Some? ==> Narrow(r.value)
  {
    if c == '\U{25A0}' then Some(Hidden)
    else if c == ' ' then Some(Empty)
    else if c == '\U{2691}' then Some(Flagged)
    else if c == '\U{2600}' then Some(Mine)
    else if c == 'X' then Some(Exploded)
    else if IsDigit(c) then Some(Revealed(DigitValue(c)))
    else None
  }

  /** A narrow token reads back as the cell it was drawn for. */
  lemma ReadTokenRoundTrip(s: CellState)
    requires Narrow(s)
    ensures |CellToken(s)| == 1 && ReadToken(CellToken(s)[0]) == Some(s)
  {
  }

  /** A code point that `UnicodeScalar(_:)` accepts. */
  predicate IsScalar(v: int) {
    0 <= v < 0xD800 || 0xE000 <= v < 0x11_0000
  }

  /** `charLabel`: the one-character string with code point 65 + index; the
      force-unwrap traps on any other index. */
  function CharLabel(index: int): (letter: string)
    requires IsScalar(65 + index)
    ensures |letter| == 1 && letter[0] as int == 65 + index
  {
    [(65 + index) as char]
  }

  /** The ten row labels are the letters A to J. */
  lemma RowLabels(y: int)
    requires 0 <= y < Rows
    ensures CharLabel(y) == ["ABCDEFGHIJ"[y]]
  {
  }

  /** `joined(separator:)`: the parts with `sep` between neighbours. */
  function Join(parts: seq<string>, sep: string): (s: string)
    ensures |parts| == 0 ==> s == ""
    ensures |parts| == 1 ==> s == parts[0]
  {
    if |parts| == 0 then ""
    else if |parts| == 1 then parts[0]
    else Join(parts[..|parts| - 1], sep) + sep + parts[|parts| - 1]
  }

  /** Joining one-character parts with a space puts part `i` at position
      `2 * i` and a space between each two. */
  lemma {:induction false} JoinSingles(parts: seq<string>)
    requires 1 <= |parts| && forall i :: 0 <= i < |parts| ==> |parts[i]| == 1
    ensures |Join(parts, " ")| == 2 * |parts| - 1
    ensures forall i :: 0 <= i < |parts| ==> Join(parts, " ")[2 * i] == parts[i][0]
    ensures forall i :: 0 <= i < |parts| - 1 ==> Join(parts, " ")[2 * i + 1] == ' '
  {
    if |parts| > 1 {
      JoinSingles(parts[..|parts| - 1]);
    }
  }

  /** The tokens of one row, in column order (`map { cellToken($0) }`). */
  function Tokens(row: seq<CellState>): (ts: seq<string>)
    ensures |ts| == |row| && forall x :: 0 <= x < |row| ==> ts[x] == CellToken(row[x])
  {
    seq(|row|, x requires 0 <= x < |row| => CellToken(row[x]))
  }

  /** The column numbers, `(0..<10).map { "\($0)" }`. */
  function ColumnNumbers(): (ns: seq<string>)
    ensures |ns| == Cols && forall i :: 0 <= i < Cols ==> ns[i] == Decimal(i)
  {
    seq(10, i requires 0 <= i < 10 => Decimal(i))
  }

  /** The column numbers above the board. */
  function HeaderLine(): string {
    "   " + Join(ColumnNumbers(), " ") + "\n"
  }

  /** The column numbers are the digits 0 to 9. */
  lemma ColumnDigits()
    ensures ColumnNumbers() == ["0", "1", "2", "3", "4", "5", "6", "7", "8", "9"]
  {
  }

  /** The digits joined by spaces, one part at a time. */
  lemma JoinedDigits()
    ensures Join(["0", "1", "2", "3", "4", "5", "6", "7", "8", "9"], " ") == "0 1 2 3 4 5 6 7 8 9"
  {
    assert Join(["0", "1"], " ") == "0 1";
    assert ["0", "1", "2"][..2] == ["0", "1"];
    assert Join(["0", "1", "2"], " ") == "0 1 2";
    assert ["0", "1", "2", "3"][..3] == ["0", "1", "2"];
    assert Join(["0", "1", "2", "3"], " ") == "0 1 2 3";
    assert ["0", "1", "2", "3", "4"][..4] == ["0", "1", "2", "3"];
    assert Join(["0", "1", "2", "3", "4"], " ") == "0 1 2 3 4";
    assert ["0", "1", "2", "3", "4", "5"][..5] == ["0", "1", "2", "3", "4"];
    assert Join(["0", "1", "2", "3", "4", "5"], " ") == "0 1 2 3 4 5";
    assert ["0", "1", "2", "3", "4", "5", "6"][..6] == ["0", "1", "2", "3", "4", "5"];
    assert Join(["0", "1", "2", "3", "4", "5", "6"], " ") == "0 1 2 3 4 5 6";
    assert ["0", "1", "2", "3", "4", "5", "6", "7"][..7] == ["0", "1", "2", "3", "4", "5", "6"];
    assert Join(["0", "1", "2", "3", "4", "5", "6", "7"], " ") == "0 1 2 3 4 5 6 7";
    assert ["0", "1", "2", "3", "4", "5", "6", "7", "8"][..8] == ["0", "1", "2", "3", "4", "5", "6", "7"];
    assert Join(["0", "1", "2", "3", "4", "5", "6", "7", "8"], " ") == "0 1 2 3 4 5 6 7 8";
    assert ["0", "1", "2", "3", "4", "5", "6", "7", "8", "9"][..9] == ["0", "1", "2", "3", "4", "5", "6", "7", "8"];
    assert Join(["0", "1", "2", "3", "4", "5", "6", "7", "8", "9"], " ") == "0 1 2 3 4 5 6 7 8 9";
  }

  /** The header reads `   0 1 2 3 4 5 6 7 8 9` and a newline. */
  lemma HeaderText()
    ensures HeaderLine() == "   0 1 2 3 4 5 6 7 8 9\n"
  {
    ColumnDigits();
    JoinedDigits();
  }

  /** The header is 23 characters long. */
  lemma HeaderLength()
    ensures |HeaderLine()| == 23
  {
    HeaderText();
  }

  /** Board line `y`: a space, the row letter, a space, the row's tokens
      separated by spaces, a newline. */
  function BoardLine(board: seq<seq<CellState>>, y: int): string
    requires 0 <= y < |board| && IsScalar(65 + y)
  {
    " " + CharLabel(y) + " " + Join(Tokens(board[y]), " ") + "\n"
  }

  /** The header and the first `n` board lines. */
  function ReceiptHead(board: seq<seq<CellState>>, n: nat): string
    requires n <= |board| && n <= Rows
  {
    if n == 0 then HeaderLine() else ReceiptHead(board, n - 1) + BoardLine(board, n - 1)
  }

  /** The `uppercased()` raw value of an action. */
  function ActionWord(action: PlayerAction): string {
    Upper(if action == Test then "test" else "flag")
  }

  /** The action words are TEST and FLAG. */
  lemma ActionWords()
    ensures ActionWord(Test) == "TEST" && ActionWord(Flag) == "FLAG"
  {
    assert Upper("test") == "TEST";
    assert Upper("flag") == "FLAG";
  }

  /** The rule that ends every receipt: 25 dashes and three newlines. */
  function Rule(): string {
    "-------------------------\n\n\n"
  }

  /** The line naming the move. */
  function ActionLine(action: PlayerAction, coordinate: Coordinate): string
    requires IsScalar(65 + coordinate.y)
  {
    "ACTION: " + ActionWord(action) + " @ " + CharLabel(coordinate.y) + Decimal(coordinate.x) + "\n"
  }

  /** The whole receipt for a board, a move and its status at a given time:
      the header, the board lines, a blank line, the move, the status, the
      time and the rule. */
  function Receipt(board: seq<seq<CellState>>, action: PlayerAction, coordinate: Coordinate,
                   status: string, timestamp: string): (r: string)
    requires Rows <= |board| && IsScalar(65 + coordinate.y)
    ensures |Rule()| <= |r| && r[|r| - |Rule()|..] == "-------------------------\n\n\n"
  {
    var front := ReceiptHead(board, Rows) + "\n" + ActionLine(action, coordinate)
      + ("STATUS: " + status + "\n") + ("TIME: " + timestamp + "\n");
    SuffixOfAppend(front, Rule());
    front + Rule()
  }

  /** `formatBoard`: the receipt is built by appending to `output`, one line
      at a time. The source indexes `board[y]` for y below ten, so a shorter
      board traps, and the label of the move's row must be a code point. */
  method FormatBoard(board: seq<seq<CellState>>, action: PlayerAction, coordinate: Coordinate,
                     status: string, timestamp: string) returns (output: string)
    requires Rows <= |board| && IsScalar(65 + coordinate.y)
    ensures output == Receipt(board, action, coordinate, status, timestamp)
  {
    output := "";
    output := output + ("   " + Join(ColumnNumbers(), " ") + "\n");
    for y := 0 to 10
      invariant output == ReceiptHead(board, y)
    {
      var rowLabel := CharLabel(y);
      var row := Join(Tokens(board[y]), " ");
      output := output + (" " + rowLabel + " " + row + "\n");
    }
    output := output + "\n";
    output := output + ("ACTION: " + ActionWord(action) + " @ " + CharLabel(coordinate.y) + Decimal(coordinate.x) + "\n");
    output := output + ("STATUS: " + status + "\n");
    output := output + ("TIME: " + timestamp + "\n");
    output := output + "-------------------------\n\n\n";
  }

  /** The head of a receipt starts with the header. */
  lemma HeadStartsWithHeader(board: seq<seq<CellState>>, n: nat)
    requires n <= |board| && n <= Rows
    ensures |HeaderLine()| <= |ReceiptHead(board, n)|
    ensures ReceiptHead(board, n)[..|HeaderLine()|] == HeaderLine()
  {
    HeadIsStack(board, n);
    StackKeepsHead(HeaderLine(), BoardLineSeq(board, n));
  }

  /** Appending lines keeps what came before. */
  lemma {:induction false} StackKeepsHead(head: string, lines: seq<string>)
    ensures |head| <= |Stack(head, lines)| && Stack(head, lines)[..|head|] == head
  {
    if lines != [] {
      var front := Stack(head, lines[..|lines| - 1]);
      StackKeepsHead(head, lines[..|lines| - 1]);
      IndexInFront(front, lines[|lines| - 1], |head|);
    }
  }

  /** Every receipt opens with the column header. */
  lemma ReceiptStartsWithHeader(board: seq<seq<CellState>>, action: PlayerAction, coordinate: Coordinate,
                                status: string, timestamp: string)
    requires Rows <= |board| && IsScalar(65 + coordinate.y)
    ensures var r := Receipt(board, action, coordinate, status, timestamp);
      23 <= |r| && r[..23] == "   0 1 2 3 4 5 6 7 8 9\n"
  {
    HeaderText();
    HeadStartsWithHeader(board, Rows);
    var head := ReceiptHead(board, Rows);
    var r := Receipt(board, action, coordinate, status, timestamp);
    forall k | 0 <= k < 23
      ensures r[k] == HeaderLine()[k]
    {
      ReceiptHeadAt(board, action, coordinate, status, timestamp, k);
      assert head[..23][k] == head[k];
    }
    assert r[..23] == HeaderLine();
  }

  /** Every receipt closes with the status line, the time line and the rule. */
  lemma ReceiptEndsWithRule(board: seq<seq<CellState>>, action: PlayerAction, coordinate: Coordinate,
                            status: string, timestamp: string)
    requires Rows <= |board| && IsScalar(65 + coordinate.y)
    ensures var r := Receipt(board, action, coordinate, status, timestamp);
      var tail := ("STATUS: " + status + "\n") + ("TIME: " + timestamp + "\n") + "-------------------------\n\n\n";
      |tail| <= |r| && r[|r| - |tail|..] == tail
  {
    var front := ReceiptHead(board, Rows) + "\n" + ActionLine(action, coordinate);
    var statusLine := "STATUS: " + status + "\n";
    var timeLine := "TIME: " + timestamp + "\n";
    Regroup(front, statusLine, timeLine, Rule());
    SuffixOfAppend(front, statusLine + timeLine + Rule());
  }

  /** The move line of a receipt for a move on the board names the action, the
      row letter and the column digit. */
  lemma ActionLineText(action: PlayerAction, coordinate: Coordinate)
    requires InBounds(coordinate)
    ensures ActionLine(action, coordinate) == "ACTION: " + (if action == Test then "TEST" else "FLAG") + " @ "
        + ["ABCDEFGHIJ"[coordinate.y], "0123456789"[coordinate.x]] + "\n"
  {
    ActionWords();
    RowLabels(coordinate.y);
    assert Decimal(coordinate.x) == [DigitChar(coordinate.x)];
  }

  /** A board the receipt lays out on a grid: ten rows of ten narrow cells. */
  predicate Printable(board: seq<seq<CellState>>) {
    Rows <= |board|
    && (forall y :: 0 <= y < Rows ==> |board[y]| == Cols)
    && (forall y, x :: 0 <= y < Rows && 0 <= x < |board[y]| ==> Narrow(board[y][x]))
  }

  /** Each board line of a printable board has 23 characters: the letter in
      column 1 and the token of cell `x` in column `3 + 2 * x`. */
  lemma BoardLineLayout(board: seq<seq<CellState>>, y: int)
    requires Printable(board) && 0 <= y < Rows
    ensures var line := BoardLine(board, y);
      |line| == 23 && line[1] == "ABCDEFGHIJ"[y] &&
      forall x :: 0 <= x < Cols ==> line[3 + 2 * x] == CellToken(board[y][x])[0]
  {
    var ts := Tokens(board[y]);
    forall x | 0 <= x < Cols
      ensures |ts[x]| == 1
    {
      NarrowTokens(board[y][x]);
    }
    JoinSingles(ts);
    RowLabels(y);
  }

  /** `head` followed by `lines`, the way the loop of `formatBoard` appends. */
  function Stack(head: string, lines: seq<string>): (s: string)
    ensures |lines| == 0 ==> s == head
  {
    if |lines| == 0 then head else Stack(head, lines[..|lines| - 1]) + lines[|lines| - 1]
  }

  /** Stacking lines of 23 characters adds 23 characters per line. */
  lemma {:induction false} StackLength(head: string, lines: seq<string>)
    requires forall j :: 0 <= j < |lines| ==> |lines[j]| == 23
    ensures |Stack(head, lines)| == |head| + 23 * |lines|
  {
    if |lines| > 0 {
      StackLength(head, lines[..|lines| - 1]);
    }
  }

  /** Lines of 23 characters stack at fixed offsets: line `y` starts at
      `|head| + 23 * y`. */
  lemma {:induction false} StackLayout(head: string, lines: seq<string>, y: int)
    requires forall j :: 0 <= j < |lines| ==> |lines[j]| == 23
    requires 0 <= y < |lines|
    ensures |head| + 23 * y + 23 <= |Stack(head, lines)|
    ensures Stack(head, lines)[|head| + 23 * y..|head| + 23 * y + 23] == lines[y]
  {
    var front := lines[..|lines| - 1];
    StackLength(head, front);
    StackLength(head, lines);
    var lo := |head| + 23 * y;
    if y < |lines| - 1 {
      StackLayout(head, front, y);
      assert Stack(head, lines)[lo..lo + 23] == Stack(head, front)[lo..lo + 23];
    } else {
      assert Stack(head, lines)[lo..lo + 23] == lines[|lines| - 1];
    }
  }

  /** The first `n` board lines, in order. */
  function BoardLineSeq(board: seq<seq<CellState>>, n: nat): (ls: seq<string>)
    requires n <= |board| && n <= Rows
    ensures |ls| == n && forall j :: 0 <= j < n ==> ls[j] == BoardLine(board, j)
  {
    seq(n, j requires 0 <= j < n => BoardLine(board, j))
  }

  /** The head of a receipt is the header with the board lines stacked under it. */
  lemma {:induction false} HeadIsStack(board: seq<seq<CellState>>, n: nat)
    requires n <= |board| && n <= Rows
    ensures ReceiptHead(board, n) == Stack(HeaderLine(), BoardLineSeq(board, n))
  {
    if n > 0 {
      HeadIsStack(board, n - 1);
      BoardLineSeqPrefix(board, n);
      StackStep(HeaderLine(), BoardLineSeq(board, n), BoardLineSeq(board, n - 1));
    }
  }

  lemma BoardLineSeqPrefix(board: seq<seq<CellState>>, n: nat)
    requires 0 < n <= |board| && n <= Rows
    ensures BoardLineSeq(board, n)[..n - 1] == BoardLineSeq(board, n - 1)
    ensures BoardLineSeq(board, n)[n - 1] == BoardLine(board, n - 1)
  {
    assert BoardLineSeq(board, n)[..n - 1] == BoardLineSeq(board, n - 1);
  }

  lemma StackStep(head: string, lines: seq<string>, front: seq<string>)
    requires |lines| > 0 && lines[..|lines| - 1] == front
    ensures Stack(head, lines) == Stack(head, front) + lines[|lines| - 1]
  {
  }

  /** On a printable board, board line `y` sits at `23 + 23 * y`. */
  lemma HeadLayout(board: seq<seq<CellState>>, y: int)
    requires Printable(board) && 0 <= y < Rows
    ensures 23 + 23 * y + 23 <= |ReceiptHead(board, Rows)|
    ensures ReceiptHead(board, Rows)[23 + 23 * y..23 + 23 * y + 23] == BoardLine(board, y)
  {
    var lines := BoardLineSeq(board, Rows);
    forall j | 0 <= j < Rows
      ensures |lines[j]| == 23
    {
      BoardLineLayout(board, j);
    }
    HeadIsStack(board, Rows);
    HeaderLength();
    StackLayout(HeaderLine(), lines, y);
  }

  /** The rest of the receipt follows the head. */
  lemma ReceiptHeadAt(board: seq<seq<CellState>>, action: PlayerAction, coordinate: Coordinate,
                      status: string, timestamp: string, k: int)
    requires Rows <= |board| && IsScalar(65 + coordinate.y) && 0 <= k < |ReceiptHead(board, Rows)|
    ensures var r := Receipt(board, action, coordinate, status, timestamp);
      k < |r| && r[k] == ReceiptHead(board, Rows)[k]
  {
    var a0 := ReceiptHead(board, Rows);
    var a1 := a0 + "\n";
    var a2 := a1 + ActionLine(action, coordinate);
    var a3 := a2 + ("STATUS: " + status + "\n");
    var a4 := a3 + ("TIME: " + timestamp + "\n");
    IndexInFront(a0, "\n", k + 1);
    IndexInFront(a1, ActionLine(action, coordinate), k + 1);
    IndexInFront(a2, "STATUS: " + status + "\n", k + 1);
    IndexInFront(a3, "TIME: " + timestamp + "\n", k + 1);
    IndexInFront(a4, Rule(), k + 1);
  }

  /** On the receipt of a printable board, cell `(x, y)` is the character at
      offset `23 + 23 * y + 3 + 2 * x` and reads back as that cell. */
  lemma ReceiptShowsCell(board: seq<seq<CellState>>, action: PlayerAction, coordinate: Coordinate,
                         status: string, timestamp: string, x: int, y: int)
    requires Printable(board) && IsScalar(65 + coordinate.y) && 0 <= x < Cols && 0 <= y < Rows
    ensures var r := Receipt(board, action, coordinate, status, timestamp);
      23 + 23 * y + 3 + 2 * x < |r| && ReadToken(r[23 + 23 * y + 3 + 2 * x]) == Some(board[y][x])
  {
    HeadLayout(board, y);
    BoardLineLayout(board, y);
    ReadTokenRoundTrip(board[y][x]);
    var k := 23 + 23 * y + 3 + 2 * x;
    assert ReceiptHead(board, Rows)[k] == BoardLine(board, y)[3 + 2 * x];
    ReceiptHeadAt(board, action, coordinate, status, timestamp, k);
  }

  /** Every board the game can reach is printable: counts on a consistent
      board are single digits. */
  lemma ConsistentIsPrintable(b: Board, mines: set<int>)
    requires Consistent(b, mines)
    ensures Printable(b)
  {
    forall y, x | 0 <= y < Rows && 0 <= x < |b[y]|
      ensures Narrow(b[y][x])
    {
      assert CellAgrees(Cell(b, Coordinate(x, y)), mines, Coordinate(x, y));
    }
  }
}
