/** A terminal with unlimited lines: what the console's grid is a window on. */
module Terminals {

  /** A character with its colours. */
  datatype Cell = Cell(ch: char, fg: nat, bg: nat)

  /** The cursor is on the last line; column `cols` means the next character starts a new line. The screen
      of `rows` lines was last cleared with the cell `blank`. */
  datatype Term = Term(lines: seq<seq<Cell>>, col: nat, blank: Cell)

  function Line(cols: nat, x: Cell): (l: seq<Cell>)
    ensures |l| == cols
  {
    seq(cols, i => x)
  }

  function Fresh(cols: nat, fg: nat, bg: nat): Term {
    Term([Line(cols, Cell(' ', fg, bg))], 0, Cell(' ', fg, bg))
  }

  ghost predicate Sound(t: Term, cols: nat) {
    t.lines != [] && t.col <= cols && forall i :: 0 <= i < |t.lines| ==> |t.lines[i]| == cols
  }

  /** The size of the screen and the present colours. */
  datatype Screen = Screen(rows: nat, cols: nat, fg: nat, bg: nat)

  /** A line that was on the cleared screen still has its colours; a later one starts in the present ones. */
  function NewLine(t: Term, s: Screen): Term {
    Term(t.lines + [Line(s.cols, if |t.lines| < s.rows then t.blank else Cell(' ', s.fg, s.bg))], 0, t.blank)
  }

  /** Writes on the last line. */
  function WriteAt(t: Term, col: nat, x: Cell): Term
    requires t.lines != [] && col < |t.lines[|t.lines| - 1]|
  {
    var last := |t.lines| - 1;
    t.(lines := t.lines[last := t.lines[last][col := x]])
  }

  /** A character that is shown, wrapping first when the line is full. */
  function Shown(t: Term, s: Screen, c: char): (r: Term)
    requires Sound(t, s.cols) && 1 <= s.cols
    ensures Sound(r, s.cols)
  {
    var u := if t.col >= s.cols then NewLine(t, s) else t;
    WriteAt(u, u.col, Cell(c, s.fg, s.bg)).(col := u.col + 1)
  }

  function Spaces(t: Term, s: Screen, n: nat): (r: Term)
    requires Sound(t, s.cols) && 1 <= s.cols
    ensures Sound(r, s.cols)
  {
    if n == 0 then t else Shown(Spaces(t, s, n - 1), s, ' ')
  }

  /** One character: newline, backspace, tab to the next multiple of four, or shown. */
  function Put(t: Term, s: Screen, c: char): (r: Term)
    requires Sound(t, s.cols) && 1 <= s.cols
    ensures Sound(r, s.cols)
  {
    if c == '\n' then NewLine(t, s)
    else if c == '\U{8}' then if t.col > 0 then WriteAt(t, t.col - 1, Cell(' ', s.fg, s.bg)).(col := t.col - 1) else t
    else if c == '\t' then Spaces(t, s, 4 - t.col % 4)
    else Shown(t, s, c)
  }

  // ------------------------------------------------------------ how plain text is laid out

  predicate Plain(text: string) {
    forall i :: 0 <= i < |text| ==> text[i] != '\n' && text[i] != '\U{8}' && text[i] != '\t'
  }

  function PutAll(t: Term, s: Screen, text: string): (r: Term)
    requires Sound(t, s.cols) && 1 <= s.cols
    ensures Sound(r, s.cols)
  {
    if text == "" then t else Put(PutAll(t, s, text[..|text| - 1]), s, text[|text| - 1])
  }

  /** The cell at place `k`, counting places line by line from the start of the text. */
  function CellOf(s: Screen, text: string, k: nat): Cell {
    Cell(if k < |text| then text[k] else ' ', s.fg, s.bg)
  }

  /** Where the characters of a plain text are, on lines of `cols` columns. */
  ghost predicate LaidOut(t: Term, s: Screen, text: string)
    requires Sound(t, s.cols)
  {
    && t.blank == Cell(' ', s.fg, s.bg)
    && t.col + s.cols * (|t.lines| - 1) == |text| && (text != "" ==> t.col > 0)
    && forall r, c {:trigger t.lines[r][c]} :: 0 <= r < |t.lines| && 0 <= c < s.cols ==>
         t.lines[r][c] == CellOf(s, text, c + s.cols * r)
  }

  /** Plain text on a cleared screen fills the lines from left to right: character `c + cols * r` is at
      row `r`, column `c`, and the rest is blank. */
  lemma {:induction false} PlainText(s: Screen, text: string)
    requires 1 <= s.cols && Plain(text)
    ensures LaidOut(PutAll(Fresh(s.cols, s.fg, s.bg), s, text), s, text)
  {
    if text != "" {
      PlainText(s, text[..|text| - 1]);
      PlainNext(PutAll(Fresh(s.cols, s.fg, s.bg), s, text[..|text| - 1]), s, text);
    }
  }

  lemma PlainNext(t: Term, s: Screen, text: string)
    requires 1 <= s.cols && Sound(t, s.cols) && text != "" && Plain(text) && LaidOut(t, s, text[..|text| - 1])
    ensures LaidOut(Put(t, s, text[|text| - 1]), s, text)
  {
    var u := Put(t, s, text[|text| - 1]);
    assert u.col + s.cols * (|u.lines| - 1) == |text| by {
      assert s.cols * (|t.lines| - 1 + 1) == s.cols * (|t.lines| - 1) + s.cols;
    }
    forall r, c | 0 <= r < |u.lines| && 0 <= c < s.cols
      ensures u.lines[r][c] == CellOf(s, text, c + s.cols * r)
    {
      PlainPlace(t, s, text, r, c);
    }
  }

  lemma PlainPlace(t: Term, s: Screen, text: string, r: nat, c: nat)
    requires 1 <= s.cols && Sound(t, s.cols) && text != "" && Plain(text) && LaidOut(t, s, text[..|text| - 1])
    requires r < |Put(t, s, text[|text| - 1]).lines| && c < s.cols
    ensures Put(t, s, text[|text| - 1]).lines[r][c] == CellOf(s, text, c + s.cols * r)
  {
    hide Put, CellOf;
    var n, m := |text| - 1, |t.lines| - 1;
    var row, col := if t.col >= s.cols then m + 1 else m, if t.col >= s.cols then 0 else t.col;
    PutCell(t, s, text[n], r, c);
    RowStep(s.cols, m, t.col, n);
    Places(s.cols, r, c, row, col);
    CellStep(s, text, c + s.cols * r);
    if r <= m {
      assert t.lines[r][c] == CellOf(s, text[..n], c + s.cols * r);
    }
  }

  lemma RowStep(cols: nat, m: nat, col: nat, n: nat)
    requires col + cols * m == n
    ensures col == cols ==> 0 + cols * (m + 1) == n
  {
  }

  /** A plain character changes one cell, in the last line or in a new one. */
  lemma PutCell(t: Term, s: Screen, ch: char, r: nat, c: nat)
    requires 1 <= s.cols && Sound(t, s.cols) && Plain([ch]) && r < |Put(t, s, ch).lines| && c < s.cols
    requires t.blank == Cell(' ', s.fg, s.bg)
    ensures var m := |t.lines| - 1;
            var row, col := if t.col >= s.cols then m + 1 else m, if t.col >= s.cols then 0 else t.col;
            Put(t, s, ch).lines[r][c]
              == if (r, c) == (row, col) then Cell(ch, s.fg, s.bg) else if r <= m then t.lines[r][c] else t.blank
  {
    assert [ch][0] == ch;
  }

  lemma CellStep(s: Screen, text: string, k: nat)
    requires text != ""
    ensures var n := |text| - 1;
            CellOf(s, text, k) == if k == n then Cell(text[n], s.fg, s.bg) else CellOf(s, text[..n], k)
    ensures k >= |text| ==> CellOf(s, text, k) == Cell(' ', s.fg, s.bg)
  {
  }

  /** Places are numbered without gaps or clashes. */
  lemma Places(cols: nat, r: nat, c: nat, row: nat, col: nat)
    requires 1 <= cols && c < cols && col < cols
    ensures c + cols * r < col + cols * row <==> r < row || (r == row && c < col)
    ensures c + cols * r == col + cols * row <==> r == row && c == col
  {
    if r < row {
      assert cols * (r + 1) <= cols * row;
    } else if row < r {
      assert cols * (row + 1) <= cols * r;
    }
  }

  // ------------------------------------------------------------ tabs and backspaces

  lemma {:induction false} SpacesOnLine(t: Term, s: Screen, n: nat)
    requires Sound(t, s.cols) && 1 <= s.cols && t.col + n <= s.cols
    ensures Spaces(t, s, n).col == t.col + n && |Spaces(t, s, n).lines| == |t.lines|
  {
    if n > 0 {
      SpacesOnLine(t, s, n - 1);
    }
  }

  /** A tab that fits goes to the next multiple of four. */
  lemma TabStop(t: Term, s: Screen)
    requires Sound(t, s.cols) && 1 <= s.cols && t.col - t.col % 4 + 4 <= s.cols
    ensures var u := Put(t, s, '\t');
            u.col % 4 == 0 && t.col < u.col <= t.col + 4 && |u.lines| == |t.lines|
  {
    SpacesOnLine(t, s, 4 - t.col % 4);
  }

  /** On a line with room, a backspace takes a shown character back and leaves a blank in its place. */
  lemma BackspaceErases(t: Term, s: Screen, c: char)
    requires Sound(t, s.cols) && t.col < s.cols && Plain([c])
    ensures Put(Put(t, s, c), s, '\U{8}') == WriteAt(t, t.col, Cell(' ', s.fg, s.bg))
  {
    assert [c][0] == c;
    var last, line := |t.lines| - 1, t.lines[|t.lines| - 1];
    assert line[t.col := Cell(c, s.fg, s.bg)][t.col := Cell(' ', s.fg, s.bg)] == line[t.col := Cell(' ', s.fg, s.bg)];
  }
}
