/** How a terminal lays out a text: its newline-separated paragraphs, each wrapped at the width of the screen. */
module TextLayouts {
  import opened Terminals

  /** The cells between two newlines, and the cell that began them: the newline before, or the cleared screen's. */
  datatype Paragraph = Paragraph(begin: Cell, cells: seq<Cell>)

  function Paragraphs(text: seq<Cell>, first: Cell): (ps: seq<Paragraph>)
    ensures ps != []
  {
    if text == [] then [Paragraph(first, [])]
    else
      var front, x := Paragraphs(text[..|text| - 1], first), text[|text| - 1];
      var last := front[|front| - 1];
      if x.ch == '\n' then front + [Paragraph(x, [])]
      else front[|front| - 1 := Paragraph(last.begin, last.cells + [x])]
  }

  /** The rows of a paragraph: `cols` cells each, the last one whatever remains. */
  function Wrap(cells: seq<Cell>, cols: nat): (w: seq<seq<Cell>>)
    requires 1 <= cols
    ensures w != []
  {
    if |cells| <= cols then [cells] else [cells[..cols]] + Wrap(cells[cols..], cols)
  }

  /** A line: the row, and blanks behind it. They have the colours of the clearing if the line was on the
      cleared screen, else those of the character that began it. */
  function Filled(row: seq<Cell>, begin: Cell, at: nat, s: Screen, blank: Cell): (l: seq<Cell>)
    ensures |l| == s.cols
  {
    seq(s.cols, c requires 0 <= c < s.cols =>
      if c < |row| then row[c] else if at < s.rows then blank else Cell(' ', begin.fg, begin.bg))
  }

  /** Row `r` of a paragraph is begun by its first cell, the first row by what began the paragraph. */
  function BeginOf(p: Paragraph, w: seq<seq<Cell>>, r: nat): Cell
    requires r < |w|
  {
    if r == 0 || w[r] == [] then p.begin else w[r][0]
  }

  /** The lines of a paragraph whose first line is line number `at` of the terminal. */
  function ParagraphLines(p: Paragraph, at: nat, s: Screen, blank: Cell): (ls: seq<seq<Cell>>)
    requires 1 <= s.cols
    ensures |ls| == |Wrap(p.cells, s.cols)|
  {
    var w := Wrap(p.cells, s.cols);
    seq(|w|, r requires 0 <= r < |w| => Filled(w[r], BeginOf(p, w, r), at + r, s, blank))
  }

  function TextLines(ps: seq<Paragraph>, s: Screen, blank: Cell): seq<seq<Cell>>
    requires 1 <= s.cols
  {
    if ps == [] then []
    else
      var front := TextLines(ps[..|ps| - 1], s, blank);
      front + ParagraphLines(ps[|ps| - 1], |front|, s, blank)
  }

  /** The column behind a text: the length of its last row. */
  function Column(ps: seq<Paragraph>, cols: nat): nat
    requires ps != [] && 1 <= cols
  {
    var w := Wrap(ps[|ps| - 1].cells, cols);
    |w[|w| - 1]|
  }

  function Blanks(x: Cell, n: nat): seq<Cell> {
    seq(n, _ => Cell(' ', x.fg, x.bg))
  }

  /** The text with each tab replaced by the blanks up to the next multiple of four. */
  function Expanded(text: seq<Cell>, first: Cell, cols: nat): seq<Cell>
    requires 1 <= cols
  {
    if text == [] then []
    else
      var front, x := Expanded(text[..|text| - 1], first, cols), text[|text| - 1];
      if x.ch == '\t' then front + Blanks(x, 4 - Column(Paragraphs(front, first), cols) % 4) else front + [x]
  }

  predicate NoBackspace(text: seq<Cell>) {
    forall i :: 0 <= i < |text| ==> text[i].ch != '\U{8}'
  }

  /** The characters of a text, each in its colours. */
  function PutCells(t: Term, s: Screen, text: seq<Cell>): (r: Term)
    requires Sound(t, s.cols) && 1 <= s.cols
    ensures Sound(r, s.cols)
  {
    if text == [] then t
    else
      var x := text[|text| - 1];
      Put(PutCells(t, s, text[..|text| - 1]), s.(fg := x.fg, bg := x.bg), x.ch)
  }

  /** The terminal shows the text as it is laid out, and the cursor is behind it. */
  ghost predicate Shows(t: Term, s: Screen, ps: seq<Paragraph>, blank: Cell)
    requires ps != [] && 1 <= s.cols
  {
    t.blank == blank && t.lines == TextLines(ps, s, blank) && t.col == Column(ps, s.cols)
  }

  // ------------------------------------------------------------ wrapping

  lemma {:induction false} WrapRows(cells: seq<Cell>, cols: nat, r: nat)
    requires 1 <= cols && r < |Wrap(cells, cols)|
    ensures var w := Wrap(cells, cols);
            && |w[r]| <= cols && (r + 1 < |w| ==> |w[r]| == cols) && (r > 0 ==> w[r] != [])
    decreases |cells|
  {
    if |cells| > cols && r > 0 {
      WrapRows(cells[cols..], cols, r - 1);
    }
  }

  /** One more cell goes behind the last row, or begins a new one when that is full. */
  lemma {:induction false} WrapNext(cells: seq<Cell>, x: Cell, cols: nat)
    requires 1 <= cols
    ensures var w := Wrap(cells, cols);
            var last := |w| - 1;
            Wrap(cells + [x], cols) == if |w[last]| < cols then w[last := w[last] + [x]] else w + [[x]]
    decreases |cells|
  {
    if |cells| > cols {
      WrapNext(cells[cols..], x, cols);
      assert (cells + [x])[cols..] == cells[cols..] + [x] && (cells + [x])[..cols] == cells[..cols];
    } else if |cells| == cols {
      assert (cells + [x])[..cols] == cells && (cells + [x])[cols..] == [x];
    }
  }

  // ------------------------------------------------------------ one character

  lemma NewlineShown(t: Term, s: Screen, ps: seq<Paragraph>, x: Cell, blank: Cell)
    requires ps != [] && 1 <= s.cols && Sound(t, s.cols) && Shows(t, s, ps, blank)
    requires x.ch == '\n' && s.fg == x.fg && s.bg == x.bg
    ensures Shows(Put(t, s, '\n'), s, ps + [Paragraph(x, [])], blank)
  {
    hide Paragraphs;
    var qs := ps + [Paragraph(x, [])];
    assert qs[..|ps|] == ps;
    assert ParagraphLines(qs[|ps|], |t.lines|, s, blank) == [Filled([], x, |t.lines|, s, blank)];
    assert Filled([], x, |t.lines|, s, blank)
        == Line(s.cols, if |t.lines| < s.rows then blank else Cell(' ', s.fg, s.bg));
  }

  lemma CellShown(t: Term, s: Screen, ps: seq<Paragraph>, x: Cell, blank: Cell)
    requires ps != [] && 1 <= s.cols && Sound(t, s.cols) && Shows(t, s, ps, blank)
    requires s.fg == x.fg && s.bg == x.bg
    ensures var last := ps[|ps| - 1];
            Shows(Shown(t, s, x.ch), s, ps[|ps| - 1 := Paragraph(last.begin, last.cells + [x])], blank)
  {
    var n := |ps| - 1;
    var p, q := ps[n], Paragraph(ps[n].begin, ps[n].cells + [x]);
    var front := TextLines(ps[..n], s, blank);
    assert ps[n := q][..n] == ps[..n];
    LinesNext(p, q, x, |front|, s, blank);
    var before, after := ParagraphLines(p, |front|, s, blank), ParagraphLines(q, |front|, s, blank);
    var u := Shown(t, s, x.ch);
    WrapNext(p.cells, x, s.cols);
    WrapRows(p.cells, s.cols, |before| - 1);
    assert t.lines == front + before;
    assert u.lines == front + after;
  }

  /** The lines of a paragraph that got one cell more. */
  lemma LinesNext(p: Paragraph, q: Paragraph, x: Cell, at: nat, s: Screen, blank: Cell)
    requires 1 <= s.cols && q == Paragraph(p.begin, p.cells + [x])
    ensures var w, before := Wrap(p.cells, s.cols), ParagraphLines(p, at, s, blank);
            var last := |w| - 1;
            var new_ := if at + |w| < s.rows then blank else Cell(' ', x.fg, x.bg);
            ParagraphLines(q, at, s, blank)
              == if |w[last]| < s.cols then before[last := before[last][|w[last]| := x]]
                 else before + [Line(s.cols, new_)[0 := x]]
  {
    var w, before, after := Wrap(p.cells, s.cols), ParagraphLines(p, at, s, blank), ParagraphLines(q, at, s, blank);
    var last := |w| - 1;
    WrapNext(p.cells, x, s.cols);
    WrapRows(p.cells, s.cols, last);
    var v := Wrap(q.cells, s.cols);
    if |w[last]| < s.cols {
      assert after[last] == before[last][|w[last]| := x];
    } else {
      assert after[last + 1] == Line(s.cols, if at + |w| < s.rows then blank else Cell(' ', x.fg, x.bg))[0 := x];
    }
  }

  /** Cells one after the other, none of them a newline: the last paragraph grows by them. */
  lemma {:induction false} BlanksShown(t: Term, s: Screen, text: seq<Cell>, first: Cell, x: Cell, n: nat, blank: Cell)
    requires 1 <= s.cols && Sound(t, s.cols) && Shows(t, s, Paragraphs(text, first), blank)
    requires s.fg == x.fg && s.bg == x.bg
    ensures Shows(Spaces(t, s, n), s, Paragraphs(text + Blanks(x, n), first), blank)
  {
    hide Shows, Paragraphs, Shown;
    if n == 0 {
      assert text + Blanks(x, 0) == text;
    } else {
      var y, before := Cell(' ', x.fg, x.bg), text + Blanks(x, n - 1);
      BlanksShown(t, s, text, first, x, n - 1, blank);
      CellShown(Spaces(t, s, n - 1), s, Paragraphs(before, first), y, blank);
      assert text + Blanks(x, n) == before + [y];
      ParagraphsNext(before, y, first);
    }
  }

  lemma ParagraphsNext(text: seq<Cell>, x: Cell, first: Cell)
    ensures var ps := Paragraphs(text, first);
            var last := ps[|ps| - 1];
            Paragraphs(text + [x], first)
              == if x.ch == '\n' then ps + [Paragraph(x, [])]
                 else ps[|ps| - 1 := Paragraph(last.begin, last.cells + [x])]
  {
    assert (text + [x])[..|text|] == text;
  }

  /** Any text without backspaces on a cleared screen: the terminal's lines are its paragraphs, each wrapped at
      the width of the screen, with tabs as blanks up to the next multiple of four. */
  lemma {:induction false} TextShown(s: Screen, text: seq<Cell>, blank: Cell)
    requires 1 <= s.cols && blank.ch == ' ' && NoBackspace(text)
    ensures Shows(PutCells(Fresh(s.cols, blank.fg, blank.bg), s, text), s,
                  Paragraphs(Expanded(text, blank, s.cols), blank), blank)
  {
    hide Shows, Paragraphs, Wrap, Spaces, Shown, NewLine;
    if text == [] {
      FreshShown(s, blank);
    } else {
      var front, x := text[..|text| - 1], text[|text| - 1];
      var t, e := PutCells(Fresh(s.cols, blank.fg, blank.bg), s, front), Expanded(front, blank, s.cols);
      var u := s.(fg := x.fg, bg := x.bg);
      TextShown(s, front, blank);
      OtherColours(t, s, u, Paragraphs(e, blank), blank);
      CursorColumn(t, s, Paragraphs(e, blank), blank);
      var r := Put(t, u, x.ch);
      if x.ch == '\n' {
        NewlineShown(t, u, Paragraphs(e, blank), x, blank);
        ParagraphsNext(e, x, blank);
      } else if x.ch == '\t' {
        BlanksShown(t, u, e, blank, x, 4 - t.col % 4, blank);
      } else {
        CellShown(t, u, Paragraphs(e, blank), x, blank);
        ParagraphsNext(e, x, blank);
      }
      OtherColours(r, u, s, Paragraphs(Expanded(text, blank, s.cols), blank), blank);
    }
  }

  lemma FreshShown(s: Screen, blank: Cell)
    requires 1 <= s.cols && blank.ch == ' '
    ensures Shows(Fresh(s.cols, blank.fg, blank.bg), s, Paragraphs([], blank), blank)
  {
    var p := Paragraph(blank, []);
    assert [p][..0] == [];
    assert Filled([], blank, 0, s, blank) == Line(s.cols, blank);
    assert TextLines([p][..0], s, blank) == [] && BeginOf(p, Wrap([], s.cols), 0) == blank;
    assert ParagraphLines(p, 0, s, blank) == [Line(s.cols, blank)];
  }

  lemma CursorColumn(t: Term, s: Screen, ps: seq<Paragraph>, blank: Cell)
    requires ps != [] && 1 <= s.cols && Shows(t, s, ps, blank)
    ensures t.col == Column(ps, s.cols)
  {
  }

  /** The layout depends on the size of the screen, not on its present colours. */
  lemma OtherColours(t: Term, s: Screen, u: Screen, ps: seq<Paragraph>, blank: Cell)
    requires ps != [] && 1 <= s.cols && s.rows == u.rows && s.cols == u.cols && Shows(t, s, ps, blank)
    ensures Shows(t, u, ps, blank)
  {
    SameLines(s, u, ps, blank);
  }

  lemma {:induction false} SameLines(s: Screen, u: Screen, ps: seq<Paragraph>, blank: Cell)
    requires 1 <= s.cols && s.rows == u.rows && s.cols == u.cols
    ensures TextLines(ps, s, blank) == TextLines(ps, u, blank)
  {
    if ps != [] {
      SameLines(s, u, ps[..|ps| - 1], blank);
      var at := |TextLines(ps[..|ps| - 1], s, blank)|;
      assert ParagraphLines(ps[|ps| - 1], at, s, blank) == ParagraphLines(ps[|ps| - 1], at, u, blank);
    }
  }

  // ------------------------------------------------------------ what single characters do

  /** A newline adds one blank line, leaves all others alone, and puts the cursor in column 0. */
  lemma Newline(t: Term, s: Screen)
    requires Sound(t, s.cols) && 1 <= s.cols
    ensures var u := Put(t, s, '\n');
            && |u.lines| == |t.lines| + 1 && u.lines[..|t.lines|] == t.lines && u.col == 0
            && (t.blank.ch == ' ' ==> forall c :: 0 <= c < s.cols ==> u.lines[|t.lines|][c].ch == ' ')
  {
  }

  /** A tab that does not fit its line goes on with the rest of its blanks on the next one. */
  lemma TabWraps(t: Term, s: Screen)
    requires Sound(t, s.cols) && 4 <= s.cols && t.col - t.col % 4 + 4 > s.cols
    ensures var u := Put(t, s, '\t');
            && |u.lines| == |t.lines| + 1 && u.col == t.col - t.col % 4 + 4 - s.cols
            && u.lines[..|t.lines| - 1] == t.lines[..|t.lines| - 1]
  {
    var room := s.cols - t.col;
    SpacesOnLine(t, s, room);
    SpacesOver(t, s, room, 4 - t.col % 4 - room);
  }

  lemma {:induction false} SpacesOver(t: Term, s: Screen, room: nat, n: nat)
    requires Sound(t, s.cols) && 1 <= s.cols && t.col + room == s.cols && 0 < n <= s.cols
    ensures var u := Spaces(t, s, room + n);
            && |u.lines| == |t.lines| + 1 && u.col == n
            && u.lines[..|t.lines| - 1] == t.lines[..|t.lines| - 1]
    decreases n
  {
    SpacesOnLine(t, s, room);
    SpacesBefore(t, s, room);
    if n > 1 {
      SpacesOver(t, s, room, n - 1);
    }
  }

  lemma {:induction false} SpacesBefore(t: Term, s: Screen, n: nat)
    requires Sound(t, s.cols) && 1 <= s.cols && t.col + n <= s.cols
    ensures |Spaces(t, s, n).lines| == |t.lines|
    ensures Spaces(t, s, n).lines[..|t.lines| - 1] == t.lines[..|t.lines| - 1]
  {
    if n > 0 {
      SpacesBefore(t, s, n - 1);
      SpacesOnLine(t, s, n - 1);
    }
    SpacesOnLine(t, s, n);
  }

  /** At the start of a line a backspace does nothing. */
  lemma BackspaceAtStart(t: Term, s: Screen)
    requires Sound(t, s.cols) && 1 <= s.cols && t.col == 0
    ensures Put(t, s, '\U{8}') == t
  {
  }
}
