/** Text with new lines on the console (src/kernel/console.c): the screen ends with the last rows of
    its lines, each wrapped at the width of the screen. */
module ConsoleText {
  import opened Unsigned
  import opened Consoles
  import opened ConsoleGrids
  import opened ConsoleControls

  const NEWLINE: Byte := 0x0A

  /** Printable bytes and new lines. */
  predicate Plain(text: seq<Byte>) {
    forall i | 0 <= i < |text| :: Printable(text[i]) || text[i] == NEWLINE
  }

  // ---------- Lines and rows ----------

  /** The length of the first line of a text. */
  function LineEnd(text: seq<Byte>): (n: nat)
    ensures n <= |text| && (n < |text| ==> text[n] == NEWLINE)
    ensures forall i | 0 <= i < n :: text[i] != NEWLINE
  {
    if text == [] || text[0] == NEWLINE then 0 else 1 + LineEnd(text[1..])
  }

  /** A line cut into rows; an empty line is one empty row. */
  function Wrapped(line: seq<Byte>): (rows: seq<seq<Byte>>)
    ensures |rows| > 0 && forall r | 0 <= r < |rows| :: |rows[r]| <= WIDTH
    decreases |line|
  {
    if |line| <= WIDTH then [line] else [line[..WIDTH]] + Wrapped(line[WIDTH..])
  }

  /** The rows of all lines of a text. */
  function Rows(text: seq<Byte>): (rows: seq<seq<Byte>>)
    ensures |rows| > 0 && forall r | 0 <= r < |rows| :: |rows[r]| <= WIDTH
    decreases |text|
  {
    var n := LineEnd(text);
    if n == |text| then Wrapped(text) else Wrapped(text[..n]) + Rows(text[n + 1..])
  }

  /** The rows when one more byte is written. */
  function Longer(rows: seq<seq<Byte>>, ch: Byte): (r: seq<seq<Byte>>)
    requires |rows| > 0 && forall r | 0 <= r < |rows| :: |rows[r]| <= WIDTH
    ensures |r| > 0 && forall k | 0 <= k < |r| :: |r[k]| <= WIDTH
  {
    var last := |rows| - 1;
    if ch == NEWLINE then rows + [[]]
    else if |rows[last]| < WIDTH then rows[last := rows[last] + [ch]]
    else rows + [[ch]]
  }

  lemma {:induction false} WrappedLonger(line: seq<Byte>, ch: Byte)
    requires ch != NEWLINE
    ensures Wrapped(line + [ch]) == Longer(Wrapped(line), ch)
    decreases |line|
  {
    if |line| < WIDTH {
    } else if |line| == WIDTH {
      assert (line + [ch])[..WIDTH] == line && (line + [ch])[WIDTH..] == [ch];
    } else {
      WrappedLonger(line[WIDTH..], ch);
      assert (line + [ch])[..WIDTH] == line[..WIDTH] && (line + [ch])[WIDTH..] == line[WIDTH..] + [ch];
      LongerBehind([line[..WIDTH]], Wrapped(line[WIDTH..]), ch);
    }
  }

  lemma LongerBehind(a: seq<seq<Byte>>, b: seq<seq<Byte>>, ch: Byte)
    requires |b| > 0 && (forall r | 0 <= r < |a| :: |a[r]| <= WIDTH) && forall r | 0 <= r < |b| :: |b[r]| <= WIDTH
    ensures Longer(a + b, ch) == a + Longer(b, ch)
  {
  }

  lemma {:induction false} LineEndLonger(text: seq<Byte>, ch: Byte)
    ensures LineEnd(text) < |text| ==> LineEnd(text + [ch]) == LineEnd(text)
    ensures LineEnd(text) == |text| ==> LineEnd(text + [ch]) == |text| + if ch == NEWLINE then 0 else 1
  {
    if text == [] || text[0] == NEWLINE {
      assert [ch][1..] == [];
    } else {
      LineEndLonger(text[1..], ch);
      assert (text + [ch])[1..] == text[1..] + [ch];
    }
  }

  lemma {:induction false} RowsLonger(text: seq<Byte>, ch: Byte)
    ensures Rows(text + [ch]) == Longer(Rows(text), ch)
    decreases |text|
  {
    hide LineEnd, Longer;
    var n, more := LineEnd(text), text + [ch];
    LineEndLonger(text, ch);
    if n < |text| {
      assert more[..n] == text[..n] && more[n + 1..] == text[n + 1..] + [ch];
      RowsLonger(text[n + 1..], ch);
      LongerBehind(Wrapped(text[..n]), Rows(text[n + 1..]), ch);
    } else if ch == NEWLINE {
      assert more[..n] == text && more[n + 1..] == [];
      NoRows(Wrapped(text));
    } else {
      WrappedLonger(text, ch);
    }
  }

  lemma NoRows(rows: seq<seq<Byte>>)
    requires |rows| > 0 && forall r | 0 <= r < |rows| :: |rows[r]| <= WIDTH
    ensures rows + Rows([]) == Longer(rows, NEWLINE)
  {
  }

  // ---------- On the screen ----------

  /** The first row that is seen. */
  function Top(rows: nat): nat {
    if rows <= HEIGHT then 0 else rows - HEIGHT
  }

  /** Cell `c` of row `r` of the text. */
  function CellOf(rows: seq<seq<Byte>>, t: Term, r: nat, c: nat): Cell {
    if r < |rows| && c < |rows[r]| then Cell(rows[r][c], t.style) else t.erase
  }

  /** The last 25 rows, with the cursor behind the last byte. */
  function Screen(rows: seq<seq<Byte>>, t: Term): (g: Grid)
    requires |rows| > 0
    ensures |g.cells| == WINDOW
  {
    var top := Top(|rows|);
    Grid(seq(WINDOW, i requires 0 <= i => CellOf(rows, t, top + i / WIDTH, i % WIDTH)),
         t.(x := |rows[|rows| - 1]|, y := |rows| - 1 - top, phase := Normal))
  }

  lemma ScreenValid(rows: seq<seq<Byte>>, t: Term)
    requires |rows| > 0 && TermOk(t) && forall r | 0 <= r < |rows| :: |rows[r]| <= WIDTH
    ensures Valid(Screen(rows, t))
  {
  }

  /** Down one row: an empty row more. */
  lemma RowAdded(rows: seq<seq<Byte>>, t: Term, i: nat)
    requires |rows| > 0 && TermOk(t) && (forall r | 0 <= r < |rows| :: |rows[r]| <= WIDTH) && i < WINDOW
    ensures Valid(Screen(rows, t)) && Screen(rows + [[]], t).cells[i] == Below(Screen(rows, t), i)
  {
    hide CellOf;
    ScreenValid(rows, t);
    var g := Screen(rows, t);
    EmptyRow(rows, t, Top(|rows| + 1) + i / WIDTH, i % WIDTH);
    if g.t.y + 1 == HEIGHT {
      assert (i + WIDTH) / WIDTH == i / WIDTH + 1 && (i + WIDTH) % WIDTH == i % WIDTH;
      if i + WIDTH >= WINDOW {
        assert i / WIDTH == HEIGHT - 1;
        NoRow(rows, t, Top(|rows| + 1) + i / WIDTH, i % WIDTH);
      }
    }
  }

  lemma EmptyRow(rows: seq<seq<Byte>>, t: Term, r: nat, c: nat)
    ensures CellOf(rows + [[]], t, r, c) == CellOf(rows, t, r, c)
  {
  }

  lemma NoRow(rows: seq<seq<Byte>>, t: Term, r: nat, c: nat)
    requires r >= |rows|
    ensures CellOf(rows, t, r, c) == t.erase
  {
  }

  lemma NewLineShown(rows: seq<seq<Byte>>, t: Term)
    requires |rows| > 0 && TermOk(t) && forall r | 0 <= r < |rows| :: |rows[r]| <= WIDTH
    ensures Valid(Screen(rows, t)) && Show(Screen(rows, t), NEWLINE) == Screen(Longer(rows, NEWLINE), t)
  {
    hide Show, CellOf, Below;
    ScreenValid(rows, t);
    var g, h := Screen(rows, t), Screen(rows + [[]], t);
    LineControls(g);
    forall i: nat | i < WINDOW ensures h.cells[i] == Below(g, i) {
      RowAdded(rows, t, i);
    }
    assert Show(g, NEWLINE).cells == h.cells;
  }

  /** A byte put at the end of the last row. */
  lemma ByteAdded(rows: seq<seq<Byte>>, t: Term, ch: Byte, i: nat)
    requires |rows| > 0 && |rows[|rows| - 1]| < WIDTH && i < WINDOW
    ensures var g, last := Screen(rows, t), |rows| - 1;
      Screen(rows[last := rows[last] + [ch]], t).cells[i] == if i == g.At() then Cell(ch, t.style) else g.cells[i]
  {
    var g, last := Screen(rows, t), |rows| - 1;
    var r, c := Top(|rows|) + i / WIDTH, i % WIDTH;
    assert i == (i / WIDTH) * WIDTH + c;
    assert i == g.At() <==> r == last && c == |rows[last]|;
  }

  lemma ByteShown(rows: seq<seq<Byte>>, t: Term, ch: Byte)
    requires |rows| > 0 && TermOk(t) && (forall r | 0 <= r < |rows| :: |rows[r]| <= WIDTH) && Printable(ch)
    ensures Valid(Screen(rows, t)) && Show(Screen(rows, t), ch) == Screen(Longer(rows, ch), t)
  {
    hide Show, CellOf, Below, Screen;
    ScreenValid(rows, t);
    var last := |rows| - 1;
    var g, h := Screen(rows, t), Screen(Longer(rows, ch), t);
    CursorIs(rows, t);
    CursorIs(Longer(rows, ch), t);
    PutByte(g, ch);
    forall i: nat | i < WINDOW ensures Show(g, ch).cells[i] == h.cells[i] {
      if |rows[last]| < WIDTH {
        ByteAdded(rows, t, ch, i);
      } else {
        RowAdded(rows, t, i);
        CursorIs(rows + [[]], t);
        ByteAdded(rows + [[]], t, ch, i);
        RowBegun(rows, ch);
      }
    }
    assert Show(g, ch).cells == h.cells;
  }

  lemma RowBegun(rows: seq<seq<Byte>>, ch: Byte)
    ensures var more := rows + [[]]; more[|rows| := more[|rows|] + [ch]] == rows + [[ch]]
  {
    assert [] + [ch] == [ch];
  }

  lemma CursorIs(rows: seq<seq<Byte>>, t: Term)
    requires |rows| > 0
    ensures Screen(rows, t).t == t.(x := |rows[|rows| - 1]|, y := |rows| - 1 - Top(|rows|), phase := Normal)
  {
  }

  /** Text of any number of lines of any length, written to a cleared screen: its last 25 rows are
      seen, each byte once and in its place, and new lines start in the first column. */
  lemma {:induction false} LinesShown(t: Term, text: seq<Byte>)
    requires TermOk(t) && Plain(text)
    ensures Valid(Cleared(t)) && ShowAll(Cleared(t), text) == Screen(Rows(text), t)
    decreases |text|
  {
    hide Show, Screen, Rows, Parse;
    if text == [] {
      NothingShown(t);
    } else {
      var n := |text| - 1;
      var before := text[..n];
      LinesShown(t, before);
      assert before + [text[n]] == text;
      RowsLonger(before, text[n]);
      if text[n] == NEWLINE {
        NewLineShown(Rows(before), t);
      } else {
        ByteShown(Rows(before), t, text[n]);
      }
      ShowAppend(Cleared(t), before, text[n]);
    }
  }

  lemma NothingShown(t: Term)
    requires TermOk(t)
    ensures Valid(Cleared(t)) && Screen(Rows([]), t) == Cleared(t)
  {
    assert Screen(Rows([]), t).cells == Cleared(t).cells;
  }

  lemma TermIsOk(c: Console)
    requires Inv(c)
    ensures TermOk(c.t)
  {
  }

  /** The same in video memory, however often the window slides or is copied back on the way. */
  lemma LinesSeen(c: Console, text: seq<Byte>)
    requires Inv(c) && c.t.phase.Normal? && Shown(c) == Cleared(c.t) && Plain(text)
    ensures Inv(WriteAll(c, text)) && Shown(WriteAll(c, text)) == Screen(Rows(text), c.t)
  {
    hide Inv, Shown, WriteAll, ShowAll, Screen, Rows, LuckyAll;
    TermIsOk(c);
    TextLucky(c, text);
    WindowIsGrid(c, text);
    LinesShown(c.t, text);
  }
}
