/** The console's grid of cells: the last rows of an unlimited terminal. */
module Consoles {
  import opened Terminals
  import opened TextLayouts

  datatype Op = PutChar(c: char) | SetColor(fg: nat, bg: nat) | Clear

  /** The terminal and colours after a stream of operations on a screen of this size. */
  function After(ops: seq<Op>, s: Screen): (r: (Term, Screen))
    requires 1 <= s.cols
    ensures Sound(r.0, s.cols) && r.1.rows == s.rows && r.1.cols == s.cols
  {
    if ops == [] then (Fresh(s.cols, s.fg, s.bg), s)
    else
      var (t, u) := After(ops[..|ops| - 1], s);
      match ops[|ops| - 1]
      case PutChar(c) => (Put(t, u, c), u)
      case SetColor(f, b) => (t, u.(fg := f, bg := b))
      case Clear => (Fresh(s.cols, u.fg, u.bg), u)
  }

  /** What was typed since the screen was last cleared, each character in its colours, and the blank it was
      cleared with. */
  datatype Typed = Typed(text: seq<Cell>, blank: Cell, fg: nat, bg: nat)

  function TypedBy(ops: seq<Op>, s: Screen): Typed {
    if ops == [] then Typed([], Cell(' ', s.fg, s.bg), s.fg, s.bg)
    else
      var y := TypedBy(ops[..|ops| - 1], s);
      match ops[|ops| - 1]
      case PutChar(c) => y.(text := y.text + [Cell(c, y.fg, y.bg)])
      case SetColor(f, b) => y.(fg := f, bg := b)
      case Clear => Typed([], Cell(' ', y.fg, y.bg), y.fg, y.bg)
  }

  lemma {:induction false} AfterIsTyped(ops: seq<Op>, s: Screen)
    requires 1 <= s.cols
    ensures var y := TypedBy(ops, s);
            && y.blank.ch == ' '
            && After(ops, s).0 == PutCells(Fresh(s.cols, y.blank.fg, y.blank.bg), s, y.text)
            && After(ops, s).1 == s.(fg := y.fg, bg := y.bg)
  {
    if ops != [] {
      AfterIsTyped(ops[..|ops| - 1], s);
      var y := TypedBy(ops[..|ops| - 1], s);
      assert (y.text + [Cell(' ', 0, 0)])[..|y.text|] == y.text;
      if ops[|ops| - 1].PutChar? {
        var x := Cell(ops[|ops| - 1].c, y.fg, y.bg);
        assert (y.text + [x])[..|y.text|] == y.text;
      }
    }
  }

  /** After any stream without backspaces since the last clearing, the terminal shows what was typed since
      then: its paragraphs, each wrapped at the width of the screen, in the colours of their characters. */
  lemma StreamShown(ops: seq<Op>, s: Screen)
    requires 1 <= s.cols && NoBackspace(TypedBy(ops, s).text)
    ensures var y := TypedBy(ops, s);
            Shows(After(ops, s).0, s, Paragraphs(Expanded(y.text, y.blank, s.cols), y.blank), y.blank)
  {
    AfterIsTyped(ops, s);
    TextShown(s, TypedBy(ops, s).text, TypedBy(ops, s).blank);
  }

  lemma NewLineKeeps(t: Term, s: Screen)
    requires Sound(t, s.cols)
    ensures var u, n := NewLine(t, s), |t.lines|;
            && Sound(u, s.cols) && |u.lines| == n + 1 && u.blank == t.blank && u.col == 0
            && (forall i :: 0 <= i < n ==> u.lines[i] == t.lines[i])
            && forall c :: 0 <= c < s.cols ==> u.lines[n][c] == if n < s.rows then t.blank else Cell(' ', s.fg, s.bg)
  {
  }

  class Console {
    const rows: nat
    const cols: nat
    const cells: array2<Cell>
    var curRow: nat
    var curCol: nat
    var fg: nat
    var bg: nat
    ghost var term: Term

    /** The grid is the terminal's last `rows` lines, the cursor is on its last line, and what is below the
        cursor is as it was cleared. */
    ghost predicate Valid()
      reads this, cells
    {
      && 1 <= rows <= 67 && 1 <= cols <= 240 && cells.Length0 == 67 && cells.Length1 == 240
      && Sound(term, cols) && curCol == term.col
      && curRow + 1 == (if |term.lines| < rows then |term.lines| else rows)
      && forall r, c :: 0 <= r < rows && 0 <= c < cols ==> ShowsAt(cells[r, c], r, c)
    }

    ghost predicate ShowsAt(cell: Cell, r: int, c: int)
      requires Sound(term, cols) && 0 <= r && 0 <= c < cols && curRow < |term.lines|
      reads this
    {
      cell == if r <= curRow then term.lines[|term.lines| - 1 - curRow + r][c] else term.blank
    }

    ghost function Shape(): Screen
      reads this
    {
      Screen(rows, cols, fg, bg)
    }

    constructor (width: nat, height: nat, fg: nat, bg: nat)
      requires 8 <= width && 16 <= height
      ensures Valid() && fresh(cells) && term == Fresh(cols, fg, bg) && this.fg == fg && this.bg == bg
      ensures rows == (if height / 16 > 67 then 67 else height / 16)
                && cols == if width / 8 > 240 then 240 else width / 8
    {
      rows := if height / 16 > 67 then 67 else height / 16;
      cols := if width / 8 > 240 then 240 else width / 8;
      cells := new Cell[67, 240]((r, c) => Cell(' ', fg, bg));
      curRow, curCol := 0, 0;
      this.fg, this.bg := fg, bg;
      term := Fresh(if width / 8 > 240 then 240 else width / 8, fg, bg);
      new;
    }

    /** Every cell blank in the present colours. */
    method CellsClear()
      requires rows <= cells.Length0 && cols <= cells.Length1
      modifies cells
      ensures forall r, c :: 0 <= r < rows && 0 <= c < cols ==> cells[r, c] == Cell(' ', fg, bg)
    {
      for r := 0 to rows
        invariant forall i, c :: 0 <= i < r && 0 <= c < cols ==> cells[i, c] == Cell(' ', fg, bg)
      {
        for c := 0 to cols
          invariant forall i, k :: 0 <= i < r && 0 <= k < cols ==> cells[i, k] == Cell(' ', fg, bg)
          invariant forall k :: 0 <= k < c ==> cells[r, k] == Cell(' ', fg, bg)
        {
          cells[r, c] := Cell(' ', fg, bg);
        }
      }
    }

    /** Every row moves one up, and the last one is blank. */
    method ScrollUp()
      requires 1 <= rows <= cells.Length0 && cols <= cells.Length1
      modifies cells
      ensures forall r, c :: 0 <= r < rows && 0 <= c < cols ==>
                cells[r, c] == if r < rows - 1 then old(cells[r + 1, c]) else Cell(' ', fg, bg)
    {
      for r := 0 to rows - 1
        invariant forall i, c :: 0 <= i < rows && 0 <= c < cols ==>
                    cells[i, c] == if i < r then old(cells[i + 1, c]) else old(cells[i, c])
      {
        for c := 0 to cols
          invariant forall i, k :: 0 <= i < rows && 0 <= k < cols ==>
                      cells[i, k] == if i < r || (i == r && k < c) then old(cells[i + 1, k]) else old(cells[i, k])
        {
          cells[r, c] := cells[r + 1, c];
        }
      }
      for c := 0 to cols
        invariant forall i, k :: 0 <= i < rows && 0 <= k < cols ==>
                    cells[i, k] == if i < rows - 1 then old(cells[i + 1, k])
                                   else if k < c then Cell(' ', fg, bg) else old(cells[i, k])
      {
        cells[rows - 1, c] := Cell(' ', fg, bg);
      }
    }

    method SetColors(f: nat, b: nat)
      requires Valid()
      modifies this`fg, this`bg
      ensures Valid() && fg == f && bg == b
    {
      fg, bg := f, b;
    }

    method ClearAll()
      requires Valid()
      modifies this`curRow, this`curCol, this`term, cells
      ensures Valid() && term == Fresh(cols, fg, bg)
    {
      curCol := 0;
      curRow := 0;
      CellsClear();
      term := Fresh(cols, fg, bg);
    }

    /** A new line, scrolling when the cursor is on the last row. */
    method LineFeed()
      requires Valid()
      modifies this`curRow, this`curCol, this`term, cells
      ensures Valid() && term == NewLine(old(term), Shape())
    {
      hide NewLine;
      curCol := 0;
      curRow := curRow + 1;
      if curRow >= rows {
        curRow := rows - 1;
        ScrollUp();
      }
      term := NewLine(term, Shape());
      NewLineKeeps(old(term), Shape());
      forall r, c | 0 <= r < rows && 0 <= c < cols
        ensures ShowsAt(cells[r, c], r, c)
      {
        assert old(ShowsAt(cells[r, c], r, c));
        assert r < rows - 1 ==> old(ShowsAt(cells[r + 1, c], r + 1, c));
      }
    }

    /** Writes a cell of the cursor's row and moves the cursor. */
    method SetCell(col: nat, x: Cell, next: nat)
      requires Valid() && col < cols && next <= cols
      modifies this`curCol, this`term, cells
      ensures Valid() && term == WriteAt(old(term), col, x).(col := next)
    {
      cells[curRow, col] := x;
      curCol := next;
      term := WriteAt(term, col, x).(col := next);
    }

    /** Whatever the character, the grid stays the window on the terminal that got it too. */
    method Putc(c: char)
      requires Valid()
      modifies this`curRow, this`curCol, this`term, cells
      ensures Valid() && term == Put(old(term), Shape(), c)
      decreases c == '\t'
    {
      if c == '\n' {
        LineFeed();
        return;
      }
      if c == '\U{8}' {
        if curCol > 0 {
          SetCell(curCol - 1, Cell(' ', fg, bg), curCol - 1);
        }
        return;
      }
      if c == '\t' {
        var spaces := 4 - curCol % 4;
        for i := 0 to spaces
          invariant Valid() && term == Spaces(old(term), Shape(), i)
        {
          Putc(' ');
        }
        return;
      }
      if curCol >= cols {
        LineFeed();
      }
      SetCell(curCol, Cell(c, fg, bg), curCol + 1);
    }

    /** After any stream the grid is the window on the unlimited terminal fed the same stream, colours included. */
    method Run(ops: seq<Op>)
      requires Valid() && term == Fresh(cols, fg, bg)
      modifies this`curRow, this`curCol, this`term, this`fg, this`bg, cells
      ensures Valid() && (term, Shape()) == After(ops, old(Shape()))
      ensures var y := TypedBy(ops, old(Shape()));
              && fg == y.fg && bg == y.bg
              && (NoBackspace(y.text) ==>
                    Shows(term, old(Shape()), Paragraphs(Expanded(y.text, y.blank, cols), y.blank), y.blank))
    {
      AfterIsTyped(ops, Shape());
      if NoBackspace(TypedBy(ops, Shape()).text) {
        StreamShown(ops, Shape());
      }
      hide Shows, Paragraphs, Expanded, NoBackspace, PutCells;
      for i := 0 to |ops|
        invariant Valid() && (term, Shape()) == After(ops[..i], old(Shape()))
      {
        assert ops[..i + 1][..i] == ops[..i];
        match ops[i] {
          case PutChar(c) => Putc(c);
          case SetColor(f, b) => SetColors(f, b);
          case Clear => ClearAll();
        }
      }
      assert ops[..|ops|] == ops;
    }
  }
}
