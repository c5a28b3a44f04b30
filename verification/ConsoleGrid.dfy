/** The console as its user sees it: a grid of 25 rows that loses its top row when it scrolls.  The
    window in video memory (src/kernel/console.c) always shows this grid. */
module ConsoleGrids {
  import opened Unsigned
  import opened Consoles

  datatype Grid = Grid(cells: seq<Cell>, t: Term) {
    /** The number of the cell at the cursor. */
    function At(): nat {
      t.y * WIDTH + t.x
    }
  }

  predicate Valid(g: Grid) {
    TermOk(g.t) && |g.cells| == WINDOW
  }

  /** What the window shows. */
  function Shown(c: Console): (g: Grid)
    requires Inv(c)
    ensures Valid(g)
  {
    Grid(c.mem[c.screen..c.screen + WINDOW], c.t)
  }

  function Blank(n: nat, erase: Cell): (r: seq<Cell>)
    ensures |r| == n && forall i | 0 <= i < n :: r[i] == erase
  {
    seq(n, _ => erase)
  }

  function Scroll(g: Grid): Grid
    requires Valid(g)
  {
    g.(cells := g.cells[WIDTH..] + Blank(WIDTH, g.t.erase))
  }

  function Down(g: Grid): (r: Grid)
    requires Valid(g)
    ensures Valid(r) && r.t.x == g.t.x
  {
    if g.t.y + 1 < HEIGHT then g.(t := g.t.(y := g.t.y + 1)) else Scroll(g)
  }

  function Column(g: Grid, x: nat): Grid {
    g.(t := g.t.(x := x))
  }

  /** The cursor at column `x`, which may be past the row and then is on the next one. */
  function Advance(g: Grid, x: nat): (r: Grid)
    requires Valid(g) && x <= WIDTH + 8
    ensures Valid(r) && r.t.x < WIDTH
  {
    if x >= WIDTH then Down(Column(g, x - WIDTH)) else Column(g, x)
  }

  function Change(g: Grid, start: nat, count: nat, cell: Cell): Grid
    requires Valid(g) && start + count <= WINDOW
  {
    g.(cells := Fill(g.cells, start, count, cell))
  }

  function EraseIn(g: Grid, mode: nat, start: nat, end: nat): Grid
    requires Valid(g) && start <= g.At() <= end <= WINDOW
  {
    if mode == 0 then Change(g, g.At(), end - g.At(), g.t.erase)
    else if mode == 1 then Change(g, start, g.At() - start, g.t.erase)
    else if mode == 2 then Change(g, start, end - start, g.t.erase)
    else g
  }

  function SetCell(g: Grid, cell: Cell): Grid
    requires Valid(g)
  {
    if g.At() < WINDOW then g.(cells := g.cells[g.At() := cell]) else g
  }

  /** The rows from the cursor on move down and the last one is lost. */
  function OpenRow(g: Grid): (r: Grid)
    requires Valid(g)
    ensures Valid(r) && r.t == g.t
  {
    var row := g.t.y * WIDTH;
    g.(cells := g.cells[..row] + Blank(WIDTH, g.t.erase) + g.cells[row..WINDOW - WIDTH])
  }

  /** Cells of the cursor's row that are right of the cursor. */
  function Right(g: Grid): nat {
    if g.t.x + 1 < WIDTH then WIDTH - g.t.x - 1 else 0
  }

  function CloseCell(g: Grid): (r: Grid)
    requires Valid(g)
    ensures Valid(r) && r.t == g.t
  {
    var n := Right(g);
    if g.At() + n >= WINDOW then g
    else g.(cells := Copy(g.cells, g.At(), g.At() + 1, n)[g.At() + n := g.t.erase])
  }

  function OpenCell(g: Grid): (r: Grid)
    requires Valid(g)
    ensures Valid(r) && r.t == g.t
  {
    var n := Right(g);
    if g.At() + n >= WINDOW then g
    else
      var cells := Copy(g.cells, g.At() + 1, g.At(), n);
      g.(cells := cells[g.At() := Cell(g.t.erase.ch, cells[g.At()].style)])
  }

  /** The rows below the cursor's move up by one, and the last one becomes blank: what DL (section
      8.3.32 of ECMA-48) asks for. */
  function CloseRow(g: Grid): (r: Grid)
    requires Valid(g)
    ensures Valid(r) && r.t == g.t
  {
    var row := g.t.y * WIDTH;
    g.(cells := g.cells[..row] + g.cells[row + WIDTH..] + Blank(WIDTH, g.t.erase))
  }

  function Repeated(g: Grid, n: nat, what: Action): (r: Grid)
    requires Valid(g)
    ensures Valid(r)
    decreases n
  {
    if n == 0 then g
    else
      var h := if what.InsertLines? then OpenRow(g) else if what.DeleteLines? then CloseRow(g)
               else if what.DeleteChars? then CloseCell(g) else OpenCell(g);
      Repeated(h, n - 1, what)
  }

  function DoGrid(g: Grid, action: Action): (r: Grid)
    requires Valid(g)
    ensures Valid(r)
  {
    match action
    case Nothing => g
    case Put(ch) =>
      var h := Advance(g, g.t.x);
      SetCell(h, Cell(ch, h.t.style)).(t := h.t.(x := h.t.x + 1))
    case LineFeed => Down(g)
    case NewLine => Column(Down(g), 0)
    case Return => Column(g, 0)
    case Tab => Advance(g, g.t.x + 8 - g.t.x % 8)
    case Back => if g.t.x == 0 then g else SetCell(Column(g, g.t.x - 1), g.t.erase)
    case Delete => SetCell(g, g.t.erase)
    case MoveTo(x, y) => if x > WIDTH || y >= HEIGHT then g else g.(t := g.t.(x := x, y := y))
    case EraseScreen(mode) => EraseIn(g, mode, 0, WINDOW)
    case EraseLine(mode) => EraseIn(g, mode, g.t.y * WIDTH, g.t.y * WIDTH + WIDTH)
    case InsertLines(n) => Repeated(g, n, action)
    case DeleteLines(n) => Repeated(g, n, action)
    case DeleteChars(n) => Repeated(g, n, action)
    case InsertChars(n) => Repeated(g, n, action)
  }

  // ---------- Each action shows the same ----------

  /** Sliding the window, or copying it back to the start of memory first, scrolls the grid. */
  lemma ScrollShown(c: Console)
    requires Inv(c)
    ensures Inv(ScrollUp(c)) && Shown(ScrollUp(c)) == Scroll(Shown(c))
  {
    ScrollUpInv(c);
    var d := ScrollUp(c);
    var cells := Scroll(Shown(c)).cells;
    forall i | 0 <= i < WINDOW ensures d.mem[d.screen + i] == cells[i] {
    }
    assert d.mem[d.screen..d.screen + WINDOW] == cells;
  }

  lemma DownShown(c: Console)
    requires Inv(c)
    ensures Inv(Lf(c)) && Shown(Lf(c)) == Down(Shown(c))
  {
    hide ScrollUp, Scroll;
    ScrollShown(c);
    LfInv(c);
  }

  lemma AdvanceShown(c: Console, x: nat)
    requires Inv(c) && WIDTH <= x <= WIDTH + 8
    ensures var past := c.(pos := c.pos - c.t.x + x, t := c.t.(x := x));
      Inv(NextRow(past)) && Shown(NextRow(past)) == Advance(Shown(c), x)
  {
    hide Lf, Down;
    var back := c.(pos := c.pos - c.t.x + x - WIDTH, t := c.t.(x := x - WIDTH));
    assert Shown(back) == Column(Shown(c), x - WIDTH);
    DownShown(back);
  }

  /** Writing one cell at the cursor. */
  lemma CellShown(c: Console, cell: Cell)
    requires Inv(c)
    ensures var d := c.(mem := c.mem[c.pos := cell]); Inv(d) && Shown(d) == SetCell(Shown(c), cell)
  {
    assert Shown(c.(mem := c.mem[c.pos := cell])).cells == SetCell(Shown(c), cell).cells;
  }

  lemma FillShown(c: Console, start: nat, count: nat, cell: Cell)
    requires Inv(c) && start + count <= WINDOW
    ensures var d := c.(mem := Fill(c.mem, c.screen + start, count, cell)); Inv(d) && Shown(d) == Change(Shown(c), start, count, cell)
  {
    var d := c.(mem := Fill(c.mem, c.screen + start, count, cell));
    assert Shown(d).cells == Change(Shown(c), start, count, cell).cells;
  }

  lemma PutShown(c: Console, ch: Byte)
    requires Inv(c)
    ensures Inv(DoPut(c, ch)) && Shown(DoPut(c, ch)) == DoGrid(Shown(c), Put(ch))
  {
    hide NextRow, Down, SetCell, Shown;
    DoInv(c, Put(ch));
    var d := if c.t.x >= WIDTH then NextRow(c) else c;
    if c.t.x >= WIDTH {
      assert c == c.(pos := c.pos - c.t.x + c.t.x, t := c.t.(x := c.t.x));
      AdvanceShown(c, c.t.x);
    } else {
      ColumnSame(c);
    }
    PutCell(d, ch, Advance(Shown(c), c.t.x));
    ShownTerm(c);
  }

  lemma ColumnSame(c: Console)
    requires Inv(c)
    ensures Column(Shown(c), c.t.x) == Shown(c) && Shown(c).t == c.t
  {
  }

  lemma ShownTerm(c: Console)
    requires Inv(c)
    ensures Shown(c).t == c.t
  {
  }

  lemma PutCell(d: Console, ch: Byte, h: Grid)
    requires Inv(d) && Shown(d) == h && d.t.x < WIDTH
    ensures var e := d.(mem := d.mem[d.pos := Cell(ch, d.t.style)], pos := d.pos + 1, t := d.t.(x := d.t.x + 1));
      Inv(e) && Shown(e) == SetCell(h, Cell(ch, h.t.style)).(t := h.t.(x := h.t.x + 1))
  {
    CellShown(d, Cell(ch, d.t.style));
  }

  lemma TabShown(c: Console)
    requires Inv(c)
    ensures Inv(DoTab(c)) && Shown(DoTab(c)) == DoGrid(Shown(c), Tab)
  {
    hide NextRow, Down;
    DoInv(c, Tab);
    var x := c.t.x + 8 - c.t.x % 8;
    if x >= WIDTH {
      AdvanceShown(c, x);
    }
  }

  lemma BackShown(c: Console)
    requires Inv(c)
    ensures Inv(DoBack(c)) && Shown(DoBack(c)) == DoGrid(Shown(c), Back)
  {
    if c.t.x > 0 {
      var d := c.(pos := c.pos - 1, t := c.t.(x := c.t.x - 1));
      assert Shown(d) == Column(Shown(c), c.t.x - 1);
      CellShown(d, c.t.erase);
    }
  }

  lemma EraseShown(c: Console, action: Action)
    requires Inv(c) && (action.EraseScreen? || action.EraseLine?)
    ensures Inv(Do(c, action)) && Shown(Do(c, action)) == DoGrid(Shown(c), action)
  {
    hide Fill;
    var row := c.t.y * WIDTH;
    var at := row + c.t.x;
    match action {
      case EraseScreen(mode) =>
        if mode == 0 {
          FillShown(c, at, WINDOW - at, c.t.erase);
        } else if mode == 1 {
          FillShown(c, 0, at, c.t.erase);
        } else if mode == 2 {
          FillShown(c, 0, WINDOW, c.t.erase);
        }
      case EraseLine(mode) =>
        if mode == 0 {
          FillShown(c, at, WIDTH - c.t.x, c.t.erase);
        } else if mode == 1 {
          FillShown(c, row, c.t.x, c.t.erase);
        } else if mode == 2 {
          FillShown(c, row, WIDTH, c.t.erase);
        }
    }
  }

  /** The loop of `insert_line` moves every row from `start` on down by one. */
  lemma {:induction false} ShiftDownAt(mem: seq<Cell>, start: nat, i: nat, k: nat)
    requires |mem| == MEMORY && 2 <= i && (i - 2) * WIDTH <= MEMORY && start % WIDTH == 0 && k < MEMORY && start + WIDTH <= MEMORY
    ensures ShiftDown(mem, start, i)[k] == if start + WIDTH <= k < MEMORY - (i - 2) * WIDTH then mem[k - WIDTH] else mem[k]
    decreases MEMORY - i
  {
    if i * WIDTH > MEMORY || MEMORY - i * WIDTH < start {
      assert start == start / WIDTH * WIDTH;
      assert start + WIDTH <= k ==> k >= MEMORY - (i - 2) * WIDTH by {
        LastRow(start / WIDTH, i);
      }
    } else {
      var top := MEMORY - i * WIDTH;
      var next := Copy(mem, top + WIDTH, top, WIDTH);
      ShiftDownAt(next, start, i + 1, k);
    }
  }

  lemma LastRow(r: nat, i: nat)
    requires 2 <= i && (i * WIDTH > MEMORY || MEMORY - i * WIDTH < r * WIDTH)
    ensures r * WIDTH + WIDTH >= MEMORY - (i - 2) * WIDTH
  {
  }

  /** Cell `i` after the rows from `row` on moved down by one. */
  predicate MovedAt(cells: seq<Cell>, moved: seq<Cell>, row: nat, i: nat)
    requires i < |cells| == |moved|
  {
    moved[i] == if row + WIDTH <= i then cells[i - WIDTH] else cells[i]
  }

  lemma RowOpened(cells: seq<Cell>, moved: seq<Cell>, row: nat, erase: Cell)
    requires |cells| == |moved| == WINDOW && row + WIDTH <= WINDOW
    requires forall i: nat | i < WINDOW :: MovedAt(cells, moved, row, i)
    ensures Fill(moved, row, WIDTH, erase) == cells[..row] + Blank(WIDTH, erase) + cells[row..WINDOW - WIDTH]
  {
    var made := cells[..row] + Blank(WIDTH, erase) + cells[row..WINDOW - WIDTH];
    forall i | 0 <= i < WINDOW ensures Fill(moved, row, WIDTH, erase)[i] == made[i] {
      assert MovedAt(cells, moved, row, i);
      if i < row {
        assert made[i] == cells[i];
      } else if i < row + WIDTH {
        assert made[i] == Blank(WIDTH, erase)[i - row];
      } else {
        assert made[i] == cells[row..WINDOW - WIDTH][i - row - WIDTH];
      }
    }
  }

  lemma CellMoved(c: Console, d: Console, i: nat)
    requires Inv(c) && Inv(d) && i < WINDOW && d == c.(mem := ShiftDown(c.mem, c.screen + c.t.y * WIDTH, 2))
    ensures MovedAt(Shown(c).cells, Shown(d).cells, c.t.y * WIDTH, i)
  {
    hide ShiftDown;
    var row := c.t.y * WIDTH;
    ShiftDownAt(c.mem, c.screen + row, 2, c.screen + i);
    assert Shown(d).cells[i] == d.mem[c.screen + i] && Shown(c).cells[i] == c.mem[c.screen + i];
    if row + WIDTH <= i {
      assert Shown(c).cells[i - WIDTH] == c.mem[c.screen + i - WIDTH];
    }
  }

  lemma InsertLineShown(c: Console)
    requires Inv(c)
    ensures Shown(InsertLine(c)) == OpenRow(Shown(c))
  {
    hide ShiftDown, Fill, Blank, MovedAt;
    var row := c.t.y * WIDTH;
    var start := c.screen + row;
    var d := c.(mem := ShiftDown(c.mem, start, 2));
    assert Inv(d) && row + WIDTH <= WINDOW;
    var cells := Shown(c).cells;
    var moved := Shown(d).cells;
    forall i: nat | i < WINDOW ensures MovedAt(cells, moved, row, i) {
      CellMoved(c, d, i);
    }
    FillShown(d, row, WIDTH, c.t.erase);
    RowOpened(cells, moved, row, c.t.erase);
  }

  /** A copy or a store inside the window is seen in the window. */
  lemma CopySeen(mem: seq<Cell>, screen: nat, to: nat, from: nat, n: nat)
    requires screen + WINDOW <= |mem| && to + n <= WINDOW && from + n <= WINDOW
    ensures Copy(mem, screen + to, screen + from, n)[screen..screen + WINDOW] == Copy(mem[screen..screen + WINDOW], to, from, n)
  {
    var seen, copied := mem[screen..screen + WINDOW], Copy(mem, screen + to, screen + from, n);
    forall i | 0 <= i < WINDOW ensures copied[screen..screen + WINDOW][i] == Copy(seen, to, from, n)[i] {
      assert copied[screen..screen + WINDOW][i] == copied[screen + i];
      if to <= i < to + n {
        assert mem[screen + from + (i - to)] == seen[from + (i - to)];
      } else {
        assert seen[i] == mem[screen + i];
      }
    }
  }

  lemma StoreSeen(mem: seq<Cell>, screen: nat, at: nat, cell: Cell)
    requires screen + WINDOW <= |mem| && screen + at < |mem|
    ensures mem[screen + at := cell][screen..screen + WINDOW] ==
      if at < WINDOW then mem[screen..screen + WINDOW][at := cell] else mem[screen..screen + WINDOW]
  {
  }

  lemma DeleteCharShown(c: Console)
    requires Inv(c)
    ensures Shown(DeleteChar(c)) == CloseCell(Shown(c))
  {
    hide Copy;
    var g := Shown(c);
    var at, n := g.At(), Right(g);
    if at < WINDOW {
      CopySeen(c.mem, c.screen, at, at + 1, n);
      StoreSeen(Copy(c.mem, c.screen + at, c.screen + (at + 1), n), c.screen, at + n, c.t.erase);
    } else {
      assert n == 0;
      CopyNone(c.mem, c.pos, c.pos + 1);
      StoreSeen(c.mem, c.screen, at, c.t.erase);
    }
  }

  lemma CopyNone(mem: seq<Cell>, to: nat, from: nat)
    requires to <= |mem| && from <= |mem|
    ensures Copy(mem, to, from, 0) == mem
  {
  }

  lemma InsertCharInside(c: Console)
    requires Inv(c) && Shown(c).At() < WINDOW
    ensures Shown(InsertChar(c)) == OpenCell(Shown(c))
  {
    hide Copy;
    var g := Shown(c);
    var at, n := g.At(), Right(g);
    assert at + 1 + n <= WINDOW && c.pos == c.screen + at;
    CopySeen(c.mem, c.screen, at + 1, at, n);
    var moved := Copy(c.mem, c.screen + (at + 1), c.screen + at, n);
    var seen := Copy(g.cells, at + 1, at, n);
    assert seen[at] == moved[c.pos];
    StoreSeen(moved, c.screen, at, Cell(c.t.erase.ch, moved[c.pos].style));
    assert InsertChar(c).mem == moved[c.pos := Cell(c.t.erase.ch, moved[c.pos].style)];
  }

  lemma InsertCharShown(c: Console)
    requires Inv(c)
    ensures Shown(InsertChar(c)) == OpenCell(Shown(c))
  {
    hide Copy;
    var g := Shown(c);
    var at, n := g.At(), Right(g);
    if at < WINDOW {
      InsertCharInside(c);
    } else {
      assert n == 0;
      CopyNone(c.mem, c.pos + 1, c.pos);
      StoreSeen(c.mem, c.screen, at, Cell(c.t.erase.ch, c.mem[c.pos].style));
    }
  }

  // ---------- Deleting lines ----------

  /** Cell `k` is in the first, third, fifth ... row after the one at `start`. */
  predicate OddRow(start: nat, k: nat) {
    start <= k && (k - start) / WIDTH % 2 == 1
  }

  lemma RowParity(start: nat, i: nat, k: nat)
    requires i >= 1
    ensures start + i * 2 * WIDTH <= k + WIDTH < start + i * 2 * WIDTH + WIDTH ==> OddRow(start, k)
    ensures start + i * 2 * WIDTH <= k < start + i * 2 * WIDTH + WIDTH ==> !OddRow(start, k)
  {
    if start + i * 2 * WIDTH <= k + WIDTH < start + i * 2 * WIDTH + WIDTH {
      assert (k - start) / WIDTH == 2 * i - 1;
    } else if start + i * 2 * WIDTH <= k < start + i * 2 * WIDTH + WIDTH {
      assert (k - start) / WIDTH == 2 * i;
    }
  }

  /** The loop of `delete_line` from its round `i` on: of the rows below `start` every second one
      takes the next row, all others stay. */
  lemma {:induction false} ShiftUpAt(mem: seq<Cell>, start: nat, i: nat, k: nat)
    requires |mem| == MEMORY && i >= 1 && start % WIDTH == 0 && k < MEMORY
    ensures ShiftUp(mem, start, i)[k] ==
      if start + i * 2 * WIDTH <= k + WIDTH < MEMORY && OddRow(start, k) then mem[k + WIDTH] else mem[k]
    decreases MEMORY - i
  {
    hide OddRow;
    var src := start + i * 2 * WIDTH;
    if src >= MEMORY {
    } else {
      RowEnds(start, i);
      RowParity(start, i, k);
      ShiftUpAt(Copy(mem, src - WIDTH, src, WIDTH), start, i + 1, k);
    }
  }

  /** Whether cell `i` of the screen is in the first, third, fifth ... row below the cursor's. */
  predicate Taken(c: Console, i: nat) {
    i / WIDTH > c.t.y && (i / WIDTH - c.t.y) % 2 == 1
  }

  lemma TakenOdd(screen: nat, y: nat, i: nat)
    ensures OddRow(screen + y * WIDTH, screen + i) <==> i / WIDTH > y && (i / WIDTH - y) % 2 == 1
  {
    if y * WIDTH <= i {
      assert (i - y * WIDTH) / WIDTH == i / WIDTH - y;
    } else {
      assert i / WIDTH < y;
    }
  }

  /** What `delete_line` does to the screen: every second row below the cursor's takes the next
      one, the last row of the screen possibly from below the window; the cursor's own row and all
      others stay. */
  lemma DeleteLineShown(c: Console, i: nat)
    requires Inv(c) && i < WINDOW
    ensures Shown(DeleteLine(c)).cells[i] == if Taken(c, i) then c.mem[c.screen + i + WIDTH] else c.mem[c.screen + i]
  {
    hide ShiftUp, OddRow;
    var start := c.screen + c.t.y * WIDTH;
    TakenOdd(c.screen, c.t.y, i);
    ShiftUpAt(c.mem, start, 1, c.screen + i);
    if OddRow(start, c.screen + i) {
      BelowStart(c, i);
    }
  }

  lemma BelowStart(c: Console, i: nat)
    requires Inv(c) && OddRow(c.screen + c.t.y * WIDTH, c.screen + i)
    ensures c.screen + c.t.y * WIDTH + 2 * WIDTH <= c.screen + i + WIDTH
  {
  }

  /** What has to be so of the memory for cell `i` of the screen to come out right: a row that is
      left in place was equal to the next one, and the row that ends up last was blank. */
  predicate Lucky(c: Console, i: nat)
    requires Inv(c) && i < WINDOW
  {
    if i < c.t.y * WIDTH then true
    else if i < WINDOW - WIDTH then Taken(c, i) || c.mem[c.screen + i] == c.mem[c.screen + i + WIDTH]
    else c.mem[if Taken(c, i) then c.screen + i + WIDTH else c.screen + i] == c.t.erase
  }

  /** Cell `i` when the row is closed. */
  lemma CloseRowAt(g: Grid, i: nat)
    requires Valid(g) && i < WINDOW
    ensures CloseRow(g).cells[i] ==
      if i < g.t.y * WIDTH then g.cells[i] else if i < WINDOW - WIDTH then g.cells[i + WIDTH] else g.t.erase
  {
    var row := g.t.y * WIDTH;
    if row <= i < WINDOW - WIDTH {
      assert CloseRow(g).cells[i] == g.cells[row + WIDTH..][i - row];
    }
  }

  lemma LuckyAt(c: Console, i: nat)
    requires Inv(c) && i < WINDOW
    ensures Shown(DeleteLine(c)).cells[i] == CloseRow(Shown(c)).cells[i] <==> Lucky(c, i)
  {
    hide DeleteLine, CloseRow;
    DeleteLineShown(c, i);
    CloseRowAt(Shown(c), i);
  }

  /** `delete_line` does what DL asks for exactly when every row it leaves in place, the cursor's and
      every second one after it, was equal to the next, and the row that ends up last was blank. */
  lemma DeleteLineExact(c: Console)
    requires Inv(c)
    ensures Shown(DeleteLine(c)) == CloseRow(Shown(c)) <==> forall i: nat | i < WINDOW :: Lucky(c, i)
  {
    hide DeleteLine, CloseRow, Lucky;
    forall i: nat | i < WINDOW
      ensures Shown(DeleteLine(c)).cells[i] == CloseRow(Shown(c)).cells[i] <==> Lucky(c, i)
    {
      LuckyAt(c, i);
    }
    var d, e := Shown(DeleteLine(c)), CloseRow(Shown(c));
    assert d == e <==> d.cells == e.cells;
  }

  /** `n` deletions in a row all come out right. */
  ghost predicate LuckyTimes(c: Console, n: nat)
    requires Inv(c)
    decreases n
  {
    n > 0 ==> (forall i: nat | i < WINDOW :: Lucky(c, i)) && LuckyTimes(DeleteLine(c), n - 1)
  }

  // ---------- All actions ----------

  lemma {:induction false} TimesShown(c: Console, n: nat, what: Action)
    requires Inv(c) && (what.InsertLines? || what.DeleteLines? || what.DeleteChars? || what.InsertChars?)
    requires what.DeleteLines? ==> LuckyTimes(c, n)
    ensures Shown(Times(c, n, what)) == Repeated(Shown(c), n, what)
    decreases n
  {
    hide InsertLine, DeleteLine, DeleteChar, InsertChar, OpenRow, CloseRow, CloseCell, OpenCell, Shown, Lucky;
    if n == 0 {
    } else {
      InsertLineShown(c);
      DeleteLineExact(c);
      DeleteCharShown(c);
      InsertCharShown(c);
      var d := if what.InsertLines? then InsertLine(c) else if what.DeleteLines? then DeleteLine(c)
               else if what.DeleteChars? then DeleteChar(c) else InsertChar(c);
      TimesShown(d, n - 1, what);
    }
  }

  /** All actions but one show what the standard asks for, and so does the deletion of lines when
      each of them comes out right. */
  ghost predicate LuckyDo(c: Console, action: Action)
    requires Inv(c)
  {
    action.DeleteLines? ==> LuckyTimes(c, action.n)
  }

  lemma DoShown(c: Console, action: Action)
    requires Inv(c) && LuckyDo(c, action)
    ensures Inv(Do(c, action)) && Shown(Do(c, action)) == DoGrid(Shown(c), action)
  {
    hide Lf, Down, Fill, Copy, DoPut, DoTab, DoBack, DoEraseScreen, DoEraseLine, Times, Repeated, EraseIn, SetCell, Advance, LuckyTimes;
    DoInv(c, action);
    match action {
      case Nothing =>
      case Put(ch) => PutShown(c, ch);
      case LineFeed => DownShown(c);
      case NewLine => DownShown(c);
      case Return =>
      case Tab => TabShown(c);
      case Back => BackShown(c);
      case Delete => CellShown(c, c.t.erase);
      case MoveTo(_, _) =>
      case EraseScreen(_) => EraseShown(c, action);
      case EraseLine(_) => EraseShown(c, action);
      case InsertLines(n) => TimesShown(c, n, action);
      case DeleteLines(n) => TimesShown(c, n, action);
      case DeleteChars(n) => TimesShown(c, n, action);
      case InsertChars(n) => TimesShown(c, n, action);
    }
  }

  // ---------- Whole byte streams ----------

  /** One byte, without a window in memory. */
  function Show(g: Grid, ch: Byte): (r: Grid)
    requires Valid(g)
    ensures Valid(r)
  {
    ParseOk(g.t, ch);
    DoGrid(g.(t := Parse(g.t, ch).t), Parse(g.t, ch).action)
  }

  function ShowAll(g: Grid, bytes: seq<Byte>): (r: Grid)
    requires Valid(g)
    ensures Valid(r)
    decreases |bytes|
  {
    if bytes == [] then g else ShowAll(Show(g, bytes[0]), bytes[1..])
  }

  ghost predicate LuckyWrite(c: Console, ch: Byte)
    requires Inv(c)
  {
    ParseOk(c.t, ch);
    LuckyDo(c.(t := Parse(c.t, ch).t), Parse(c.t, ch).action)
  }

  /** Every deletion of a line that the stream asks for comes out right. */
  ghost predicate LuckyAll(c: Console, bytes: seq<Byte>)
    requires Inv(c)
    decreases |bytes|
  {
    bytes == [] || (LuckyWrite(c, bytes[0]) && (WriteInv(c, bytes[0]); LuckyAll(Write(c, bytes[0]), bytes[1..])))
  }

  lemma WriteShown(c: Console, ch: Byte)
    requires Inv(c) && LuckyWrite(c, ch)
    ensures Inv(Write(c, ch)) && Shown(Write(c, ch)) == Show(Shown(c), ch)
  {
    hide Do, DoGrid, Parse, LuckyDo;
    ParseOk(c.t, ch);
    var p := Parse(c.t, ch);
    assert Shown(c.(t := p.t)) == Shown(c).(t := p.t);
    DoShown(c.(t := p.t), p.action);
  }

  /** Whatever is written, the window shows what a plain grid would hold by the standard: sliding
      and copying back cannot be seen.  All that is asked is that each deletion of a line comes out
      right, for which `DeleteLineExact` has the exact condition. */
  lemma {:induction false} WindowIsGrid(c: Console, bytes: seq<Byte>)
    requires Inv(c) && LuckyAll(c, bytes)
    ensures Inv(WriteAll(c, bytes)) && Shown(WriteAll(c, bytes)) == ShowAll(Shown(c), bytes)
    decreases |bytes|
  {
    hide Write, Show, Inv, Parse, LuckyWrite;
    if bytes == [] {
    } else {
      WriteShown(c, bytes[0]);
      WindowIsGrid(Write(c, bytes[0]), bytes[1..]);
    }
  }

  /** A stream without an escape character asks for no deletion. */
  lemma {:induction false} TextLucky(c: Console, bytes: seq<Byte>)
    requires Inv(c) && c.t.phase.Normal? && forall i | 0 <= i < |bytes| :: bytes[i] != 0x1B
    ensures LuckyAll(c, bytes)
    decreases |bytes|
  {
    hide Inv, LuckyWrite, Write;
    if bytes == [] {
    } else {
      TextOnce(c, bytes[0]);
      WriteInv(c, bytes[0]);
      TextLucky(Write(c, bytes[0]), bytes[1..]);
    }
  }

  lemma TextOnce(c: Console, ch: Byte)
    requires Inv(c) && c.t.phase.Normal? && ch != 0x1B
    ensures LuckyWrite(c, ch) && Write(c, ch).t.phase.Normal?
  {
    hide Fill, Copy, LuckyTimes;
    ParseOk(c.t, ch);
    DoInv(c, Parse(c.t, ch).action);
  }

  // ---------- Plain text ----------

  /** A cleared grid. */
  function Cleared(t: Term): Grid {
    Grid(Blank(WINDOW, t.erase), t.(x := 0, y := 0, phase := Normal))
  }

  predicate Printable(ch: Byte) {
    ch >= 0x20 && ch != 0x7F
  }

  /** Rows that `n` characters take before the last one. */
  function RowsAbove(n: nat): nat {
    if n == 0 then 0 else (n - 1) / WIDTH
  }

  function Row(n: nat): nat {
    if RowsAbove(n) < HEIGHT then RowsAbove(n) else HEIGHT - 1
  }

  /** The text wrapped into rows of 80, of which the last 25 are seen. */
  function Page(text: seq<Byte>, t: Term): (g: Grid)
    ensures |g.cells| == WINDOW
  {
    var n := |text|;
    var y := Row(n);
    var top := (RowsAbove(n) - y) * WIDTH;
    Grid(seq(WINDOW, i requires 0 <= i => if top + i < n then Cell(text[top + i], t.style) else t.erase),
         t.(x := n - RowsAbove(n) * WIDTH, y := y, phase := Normal))
  }

  lemma RowsStep(n: nat)
    ensures n > 0 && n % WIDTH == 0 ==> RowsAbove(n + 1) == RowsAbove(n) + 1 && n == RowsAbove(n) * WIDTH + WIDTH
    ensures n > 0 && n % WIDTH != 0 ==> RowsAbove(n + 1) == RowsAbove(n) && n < RowsAbove(n) * WIDTH + WIDTH
    ensures n > 0 ==> RowsAbove(n) * WIDTH < n <= RowsAbove(n) * WIDTH + WIDTH
  {
  }

  lemma PageValid(text: seq<Byte>, t: Term)
    requires TermOk(t)
    ensures Valid(Page(text, t))
  {
    RowsStep(|text|);
  }

  /** One more character on the page. */
  lemma PagePut(text: seq<Byte>, t: Term, ch: Byte)
    requires TermOk(t) && Printable(ch)
    ensures Valid(Page(text, t))
    ensures Show(Page(text, t), ch) == Page(text + [ch], t)
  {
    PageValid(text, t);
    PageValid(text + [ch], t);
    var n, g, h := |text|, Page(text, t), Page(text + [ch], t);
    RowsStep(n);
    assert Parse(g.t, ch) == Parsed(g.t, Put(ch));
    var s := Show(g, ch);
    assert s == DoGrid(g, Put(ch));
    if g.t.x < WIDTH {
      assert Advance(g, g.t.x) == g;
      PageCells(text, t, ch);
    } else {
      PageCells(text, t, ch);
    }
    assert s.t == h.t;
  }

  lemma PageCells(text: seq<Byte>, t: Term, ch: Byte)
    requires TermOk(t) && Valid(Page(text, t))
    ensures DoGrid(Page(text, t), Put(ch)).cells == Page(text + [ch], t).cells
  {
    var n, g, h := |text|, Page(text, t), Page(text + [ch], t);
    RowsStep(n);
    var s := DoGrid(g, Put(ch));
    forall i | 0 <= i < WINDOW ensures s.cells[i] == h.cells[i] {
    }
  }

  /** Plain text on a cleared screen: whatever its length, the last 25 rows of it are seen, each
      character once and in its place. */
  lemma {:induction false} PlainText(t: Term, text: seq<Byte>)
    requires TermOk(t) && forall i | 0 <= i < |text| :: Printable(text[i])
    ensures Valid(Cleared(t)) && ShowAll(Cleared(t), text) == Page(text, t)
    decreases |text|
  {
    hide Show, Page, Parse;
    if text == [] {
      PageEmpty(t);
    } else {
      var n := |text| - 1;
      var before := text[..n];
      PlainText(t, before);
      PagePut(before, t, text[n]);
      assert before + [text[n]] == text;
      ShowAppend(Cleared(t), before, text[n]);
    }
  }

  /** The same in video memory, however often the window slides or is copied back on the way. */
  lemma TextSeen(c: Console, text: seq<Byte>)
    requires Inv(c) && c.t.phase.Normal? && Shown(c) == Cleared(c.t)
    requires forall i | 0 <= i < |text| :: Printable(text[i])
    ensures Inv(WriteAll(c, text)) && Shown(WriteAll(c, text)) == Page(text, c.t)
  {
    hide Inv, Shown, WriteAll, ShowAll, Page, LuckyAll;
    ShownTerm(c);
    TextLucky(c, text);
    WindowIsGrid(c, text);
    PlainText(c.t, text);
  }

  lemma PageEmpty(t: Term)
    requires TermOk(t)
    ensures Valid(Cleared(t)) && Page([], t) == Cleared(t)
  {
    assert Page([], t).cells == Cleared(t).cells;
  }

  lemma {:induction false} ShowAppend(g: Grid, bytes: seq<Byte>, ch: Byte)
    requires Valid(g)
    ensures ShowAll(g, bytes + [ch]) == Show(ShowAll(g, bytes), ch)
    decreases |bytes|
  {
    hide Show, Parse;
    if bytes == [] {
      assert bytes + [ch] == [ch];
      assert [ch][1..] == [];
    } else {
      assert (bytes + [ch])[0] == bytes[0] && (bytes + [ch])[1..] == bytes[1..] + [ch];
      ShowAppend(Show(g, bytes[0]), bytes[1..], ch);
    }
  }

  // ---------- Where the code and the standard part ----------

  /** Text in the top row stays there when that row is deleted: any cleared console, the letter `A`,
      a carriage return, one deletion. */
  lemma DeleteLineMissed(c: Console)
    requires Inv(c) && Shown(c) == Cleared(c.t) && c.t.erase.ch != 0x41
    ensures var d := WriteAll(c, [0x41, 0x0D]);
      && Inv(d) && d.t.x == 0 && d.t.y == 0
      && Shown(DeleteLine(d)).cells[0] == Cell(0x41, c.t.style) && CloseRow(Shown(d)).cells[0] == c.t.erase
  {
    var text: seq<Byte> := [0x41, 0x0D];
    LetterReturned(c.t);
    TextLucky(c, text);
    WindowIsGrid(c, text);
    hide DeleteLine, WriteAll, ShowAll, Shown, CloseRow, Inv;
    var d := WriteAll(c, text);
    ShownTerm(d);
    TopRowKept(d);
  }

  lemma TopRowKept(d: Console)
    requires Inv(d) && d.t.y == 0
    ensures Shown(DeleteLine(d)).cells[0] == Shown(d).cells[0] && CloseRow(Shown(d)).cells[0] == Shown(d).cells[WIDTH]
  {
    hide DeleteLine, CloseRow;
    DeleteLineShown(d, 0);
    CloseRowAt(Shown(d), 0);
  }

  /** The letter `A` and a carriage return on a cleared grid. */
  lemma LetterReturned(t: Term)
    requires TermOk(t) && Valid(Cleared(t)) && Cleared(t).t == t
    ensures var g := ShowAll(Cleared(t), [0x41, 0x0D]);
      && g.t == t && g.cells[0] == Cell(0x41, t.style) && g.cells[WIDTH] == t.erase
  {
    var g := Cleared(t);
    var h := Show(g, 0x41);
    assert h == Grid(g.cells[0 := Cell(0x41, t.style)], t.(x := 1));
    var e := Show(h, 0x0D);
    assert e == Grid(h.cells, t);
    assert [0x41, 0x0D][1..] == [0x0D] && [0x0D][1..] == [];
    assert ShowAll(h, [0x0D]) == ShowAll(e, []) == e;
  }

  /** A parser whose argument count is at its end takes no input any more, ever. */
  lemma {:induction false} StuckForever(c: Console, bytes: seq<Byte>)
    requires Inv(c) && c.t.phase.Arg? && c.t.argc == ARG_NR
    ensures WriteAll(c, bytes) == c
    decreases |bytes|
  {
    hide Do;
    if bytes == [] {
    } else {
      StuckOnce(c, bytes[0]);
      StuckForever(c, bytes[1..]);
    }
  }

  lemma StuckOnce(c: Console, ch: Byte)
    requires Inv(c) && c.t.phase.Arg? && c.t.argc == ARG_NR
    ensures Write(c, ch) == c
  {
  }

  /** The bytes that `state_esc` does something about. */
  predicate KnownInEscape(ch: Byte) {
    ch == 0x5B || ch == 0x45 || ch == 0x44 || ch == 0x37 || ch == 0x38
  }

  /** After an escape character the console does nothing at all with other bytes, however many. */
  lemma {:induction false} EscapeSwallows(c: Console, bytes: seq<Byte>)
    requires Inv(c) && c.t.phase.Esc? && forall i | 0 <= i < |bytes| :: !KnownInEscape(bytes[i])
    ensures WriteAll(c, bytes) == c
    decreases |bytes|
  {
    hide Do;
    if bytes == [] {
    } else {
      SwallowedOnce(c, bytes[0]);
      EscapeSwallows(c, bytes[1..]);
    }
  }

  lemma SwallowedOnce(c: Console, ch: Byte)
    requires Inv(c) && c.t.phase.Esc? && !KnownInEscape(ch)
    ensures Write(c, ch) == c
  {
  }
}
