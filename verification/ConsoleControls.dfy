/** What each control byte, escape sequence and editing function does to the screen, cell by cell
    (src/kernel/console.c; sections of ECMA-48). */
module ConsoleControls {
  import opened Unsigned
  import opened Consoles
  import opened ConsoleGrids
  import opened ConsoleSequences

  // ---------- Control bytes ----------

  /** Row `y` when the cursor goes down. */
  function Lower(y: nat): nat {
    if y + 1 < HEIGHT then y + 1 else HEIGHT - 1
  }

  /** Cell `i` when the cursor has gone down: the screen scrolls if it was in the last row. */
  function Below(g: Grid, i: nat): Cell
    requires Valid(g) && i < WINDOW
  {
    if g.t.y + 1 < HEIGHT then g.cells[i] else if i + WIDTH < WINDOW then g.cells[i + WIDTH] else g.t.erase
  }

  /** `h` is `g` with the cursor one row down, in column `x`. */
  ghost predicate OneDown(g: Grid, h: Grid, x: nat)
    requires Valid(g)
  {
    && h.t == g.t.(x := x, y := Lower(g.t.y))
    && |h.cells| == WINDOW && forall i | 0 <= i < WINDOW :: h.cells[i] == Below(g, i)
  }

  /** `h` is `g` with one cell changed. */
  ghost predicate OneCell(g: Grid, h: Grid, k: nat, cell: Cell)
    requires Valid(g)
  {
    |h.cells| == WINDOW && forall i | 0 <= i < WINDOW :: h.cells[i] == if i == k then cell else g.cells[i]
  }

  lemma DownMoves(g: Grid)
    requires Valid(g)
    ensures OneDown(g, Down(g), g.t.x)
  {
  }

  /** LF goes to the start of the next row, VT and FF down in the same column, CR to the start of the
      row (sections 8.3.74, 8.3.161, 8.3.51 and 8.3.15; LF is used as a new line). */
  lemma LineControls(g: Grid)
    requires Valid(g) && g.t.phase.Normal?
    ensures OneDown(g, Show(g, 0x0A), 0)
    ensures OneDown(g, Show(g, 0x0B), g.t.x) && OneDown(g, Show(g, 0x0C), g.t.x)
    ensures Show(g, 0x0D) == g.(t := g.t.(x := 0))
  {
    hide Down;
    DownMoves(g);
  }

  /** BS goes back within the row and erases, DEL erases the cell at the cursor (section 8.3.5). */
  lemma CellControls(g: Grid)
    requires Valid(g) && g.t.phase.Normal?
    ensures g.t.x == 0 ==> Show(g, 0x08) == g
    ensures g.t.x > 0 ==> Show(g, 0x08).t == g.t.(x := g.t.x - 1) && OneCell(g, Show(g, 0x08), g.At() - 1, g.t.erase)
    ensures Show(g, 0x7F).t == g.t && OneCell(g, Show(g, 0x7F), g.At(), g.t.erase)
  {
  }

  /** HT goes on to the next of the columns 0, 8, 16 ... and from the last ones to the next row. */
  lemma TabControl(g: Grid)
    requires Valid(g) && g.t.phase.Normal?
    ensures var x := (g.t.x / 8 + 1) * 8;
      if x < WIDTH then Show(g, 0x09) == g.(t := g.t.(x := x)) else OneDown(g, Show(g, 0x09), x - WIDTH)
  {
    hide Down;
    var x := (g.t.x / 8 + 1) * 8;
    assert x == g.t.x + 8 - g.t.x % 8;
    if x >= WIDTH {
      var c := Column(g, x - WIDTH);
      DownMoves(c);
      assert Show(g, 0x09) == Down(c);
      assert forall i: nat | i < WINDOW :: Below(c, i) == Below(g, i);
    }
  }

  /** NUL and BEL leave the screen alone, and so does ESC, which starts a sequence. */
  lemma QuietControls(g: Grid)
    requires Valid(g) && g.t.phase.Normal?
    ensures Show(g, 0x00) == g && Show(g, 0x07) == g
    ensures Show(g, ESC) == g.(t := g.t.(phase := Phase.Esc))
  {
  }

  /** The bytes that are not shown. */
  predicate Control(ch: Byte) {
    ch == 0x00 || 0x07 <= ch <= 0x0D || ch == ESC || ch == 0x7F
  }

  /** Any other byte is put at the cursor in the current style; behind a full row, at the start of the
      next one. */
  lemma PutByte(g: Grid, ch: Byte)
    requires Valid(g) && g.t.phase.Normal? && !Control(ch)
    ensures g.t.x < WIDTH ==>
      Show(g, ch).t == g.t.(x := g.t.x + 1) && OneCell(g, Show(g, ch), g.At(), Cell(ch, g.t.style))
    ensures g.t.x == WIDTH ==>
      && Show(g, ch).t == g.t.(x := 1, y := Lower(g.t.y))
      && |Show(g, ch).cells| == WINDOW
      && forall i | 0 <= i < WINDOW ::
           Show(g, ch).cells[i] == if i == Lower(g.t.y) * WIDTH then Cell(ch, g.t.style) else Below(g, i)
  {
    hide Down;
    var c := Column(g, 0);
    DownMoves(c);
    assert forall i: nat | i < WINDOW :: Below(c, i) == Below(g, i);
  }

  // ---------- Escape sequences ----------

  /** ESC E and ESC D go down like LF and VT, ESC 7 keeps the place of the cursor and ESC 8 goes back
      there; none of them ends the sequence. */
  lemma EscapeControls(g: Grid)
    requires Valid(g) && g.t.phase.Esc?
    ensures OneDown(g, Show(g, 0x45), 0) && OneDown(g, Show(g, 0x44), g.t.x)
    ensures Show(g, 0x37) == g.(t := g.t.(savedX := g.t.x, savedY := g.t.y))
    ensures Show(g, 0x38) == g.(t := g.t.(x := g.t.savedX, y := g.t.savedY))
  {
    hide Down;
    DownMoves(g);
  }

  // ---------- Editing functions ----------

  /** How often an editing function is done: as often as asked, once for 0, and never more often than
      the screen has rows. */
  function HowOften(n: Word32): (k: nat)
    ensures 0 < k <= HEIGHT
  {
    Min(Max(n, 1), HEIGHT)
  }

  /** A sequence with one argument acts with it, and the cursor stays. */
  lemma OneArgument(g: Grid, n: Word32, final: Byte) returns (t: Term)
    requires Valid(g) && g.t.phase.Normal? && final != SEMICOLON && !(0x30 <= final <= 0x39)
    ensures TermOk(t) && t.args[0] == n && t.argc == 1 && Valid(g.(t := InCsi(t, final).t))
    ensures (t.x, t.y, t.savedX, t.savedY, t.style, t.erase) == (g.t.x, g.t.y, g.t.savedX, g.t.savedY, g.t.style, g.t.erase)
    ensures ShowAll(g, Csi([n], final)) == DoGrid(g.(t := InCsi(t, final).t), InCsi(t, final).action)
  {
    hide InCsi, DoGrid, ShowAll;
    CsiActs(g, [n], final);
    ArgsCount(Begun(g.t), [n]);
    t := WithArgs(Begun(g.t), [n]);
    assert t.args[0 + 0] == n;
    t := t.(argc := t.argc + 1);
  }

  lemma EditingFinals(t: Term)
    requires |t.args| == ARG_NR
    ensures var n, u := HowOften(t.args[0]), t.(phase := Normal);
      && InCsi(t, 0x4C) == Parsed(u, InsertLines(n)) && InCsi(t, 0x4D) == Parsed(u, DeleteLines(n))
      && InCsi(t, 0x50) == Parsed(u, DeleteChars(n)) && InCsi(t, 0x40) == Parsed(u, InsertChars(n))
  {
    hide StyleFrom, Wrap;
  }

  lemma PlaceFinals(t: Term)
    requires TermOk(t)
    ensures var u := t.(phase := Normal);
      && InCsi(t, 0x73) == Parsed(u.(savedX := t.x, savedY := t.y), MoveTo(t.x, t.y))
      && InCsi(t, 0x75) == Parsed(u, MoveTo(t.savedX, t.savedY))
  {
    hide StyleFrom;
  }

  /** Cell `i` after `k` rows were opened at the cursor's row. */
  function RowsIn(g: Grid, k: nat, i: nat): Cell
    requires Valid(g) && i < WINDOW
  {
    if i < g.t.y * WIDTH then g.cells[i]
    else if i < (g.t.y + k) * WIDTH then g.t.erase
    else g.cells[i - k * WIDTH]
  }

  /** Cell `i` after `k` rows were closed there. */
  function RowsOut(g: Grid, k: nat, i: nat): Cell
    requires Valid(g) && i < WINDOW
  {
    if i < g.t.y * WIDTH then g.cells[i] else if i + k * WIDTH < WINDOW then g.cells[i + k * WIDTH] else g.t.erase
  }

  lemma OpenRowAt(g: Grid, i: nat)
    requires Valid(g) && i < WINDOW
    ensures OpenRow(g).cells[i] == RowsIn(g, 1, i)
  {
    var row := g.t.y * WIDTH;
    if row + WIDTH <= i {
      assert OpenRow(g).cells[i] == g.cells[row..WINDOW - WIDTH][i - row - WIDTH];
    }
  }

  lemma {:induction false} RowsOpened(g: Grid, what: Action, k: nat, i: nat)
    requires Valid(g) && i < WINDOW && what.InsertLines?
    ensures Repeated(g, k, what).t == g.t && Repeated(g, k, what).cells[i] == RowsIn(g, k, i)
    decreases k
  {
    hide OpenRow;
    if k == 0 {
    } else {
      RowsOpened(OpenRow(g), what, k - 1, i);
      if i < g.t.y * WIDTH {
        OpenRowAt(g, i);
      } else if (g.t.y + (k - 1)) * WIDTH <= i {
        OpenRowAt(g, i - (k - 1) * WIDTH);
      }
    }
  }

  lemma {:induction false} RowsClosed(g: Grid, what: Action, k: nat, i: nat)
    requires Valid(g) && i < WINDOW && what.DeleteLines?
    ensures Repeated(g, k, what).t == g.t && Repeated(g, k, what).cells[i] == RowsOut(g, k, i)
    decreases k
  {
    hide CloseRow;
    if k == 0 {
    } else {
      RowsClosed(CloseRow(g), what, k - 1, i);
      if i < g.t.y * WIDTH {
        CloseRowAt(g, i);
      } else if i + (k - 1) * WIDTH < WINDOW {
        CloseRowAt(g, i + (k - 1) * WIDTH);
      }
    }
  }

  /** IL and DL (sections 8.3.67 and 8.3.32): as many rows as asked are opened or closed at the cursor's
      row, blank ones coming in. */
  lemma LinesEdited(g: Grid, n: Word32, i: nat)
    requires Valid(g) && g.t.phase.Normal? && i < WINDOW
    ensures var h := ShowAll(g, Csi([n], 0x4C));
      |h.cells| == WINDOW && (h.t.x, h.t.y) == (g.t.x, g.t.y) && h.cells[i] == RowsIn(g, HowOften(n), i)
    ensures var h := ShowAll(g, Csi([n], 0x4D));
      |h.cells| == WINDOW && (h.t.x, h.t.y) == (g.t.x, g.t.y) && h.cells[i] == RowsOut(g, HowOften(n), i)
  {
    hide InCsi, ShowAll, Repeated;
    var t := OneArgument(g, n, 0x4C);
    EditingFinals(t);
    RowsOpened(g.(t := InCsi(t, 0x4C).t), InCsi(t, 0x4C).action, HowOften(n), i);
    var u := OneArgument(g, n, 0x4D);
    EditingFinals(u);
    RowsClosed(g.(t := InCsi(u, 0x4D).t), InCsi(u, 0x4D).action, HowOften(n), i);
  }

  /** The end of the cursor's row. */
  function RowEnd(g: Grid): nat {
    (g.t.y + 1) * WIDTH
  }

  /** Whether cell `i` is in the cursor's row, at the cursor or right of it. */
  predicate FromCursor(g: Grid, i: nat) {
    g.At() <= i < RowEnd(g)
  }

  /** Cell `i` after `k` characters were deleted at the cursor, and after `k` were inserted.  An inserted
      blank has the style of the cell that the cursor was on. */
  function CharsOut(g: Grid, k: nat, i: nat): Cell
    requires Valid(g) && i < WINDOW
  {
    if !FromCursor(g, i) then g.cells[i]
    else if i + k < RowEnd(g) then g.cells[i + k] else g.t.erase
  }

  function CharsIn(g: Grid, k: nat, i: nat): Cell
    requires Valid(g) && i < WINDOW
  {
    if !FromCursor(g, i) then g.cells[i]
    else if i < g.At() + k then Cell(g.t.erase.ch, g.cells[g.At()].style) else g.cells[i - k]
  }

  lemma CloseCellAt(g: Grid, i: nat)
    requires Valid(g) && i < WINDOW && g.t.x < WIDTH
    ensures CloseCell(g).cells[i] == CharsOut(g, 1, i)
  {
  }

  lemma OpenCellAt(g: Grid, i: nat)
    requires Valid(g) && i < WINDOW && g.t.x < WIDTH
    ensures OpenCell(g).cells[i] == CharsIn(g, 1, i)
  {
  }

  lemma {:induction false} CharsClosed(g: Grid, what: Action, k: nat, i: nat)
    requires Valid(g) && i < WINDOW && what.DeleteChars? && g.t.x < WIDTH
    ensures Repeated(g, k, what).t == g.t && Repeated(g, k, what).cells[i] == CharsOut(g, k, i)
    decreases k
  {
    hide CloseCell;
    if k == 0 {
    } else {
      CharsClosed(CloseCell(g), what, k - 1, i);
      if FromCursor(g, i) && i + (k - 1) < RowEnd(g) {
        CloseCellAt(g, i + (k - 1));
      } else {
        CloseCellAt(g, i);
      }
    }
  }

  lemma {:induction false} CharsOpened(g: Grid, what: Action, k: nat, i: nat)
    requires Valid(g) && i < WINDOW && what.InsertChars? && g.t.x < WIDTH
    ensures Repeated(g, k, what).t == g.t && Repeated(g, k, what).cells[i] == CharsIn(g, k, i)
    decreases k
  {
    hide OpenCell;
    if k == 0 {
    } else {
      CharsOpened(OpenCell(g), what, k - 1, i);
      OpenCellAt(g, g.At());
      if FromCursor(g, i) && g.At() + (k - 1) <= i {
        OpenCellAt(g, i - (k - 1));
      } else {
        OpenCellAt(g, i);
      }
    }
  }

  /** DCH and ICH (sections 8.3.26 and 8.3.64), when the cursor does not stand behind its row. */
  lemma CharsEdited(g: Grid, n: Word32, i: nat)
    requires Valid(g) && g.t.phase.Normal? && i < WINDOW && g.t.x < WIDTH
    ensures var h := ShowAll(g, Csi([n], 0x50));
      |h.cells| == WINDOW && (h.t.x, h.t.y) == (g.t.x, g.t.y) && h.cells[i] == CharsOut(g, HowOften(n), i)
    ensures var h := ShowAll(g, Csi([n], 0x40));
      |h.cells| == WINDOW && (h.t.x, h.t.y) == (g.t.x, g.t.y) && h.cells[i] == CharsIn(g, HowOften(n), i)
  {
    hide InCsi, ShowAll, Repeated, CharsIn, CharsOut;
    var t := OneArgument(g, n, 0x50);
    EditingFinals(t);
    CharsClosed(g.(t := InCsi(t, 0x50).t), InCsi(t, 0x50).action, HowOften(n), i);
    SameChars(g, g.(t := InCsi(t, 0x50).t), HowOften(n), i);
    var u := OneArgument(g, n, 0x40);
    EditingFinals(u);
    CharsOpened(g.(t := InCsi(u, 0x40).t), InCsi(u, 0x40).action, HowOften(n), i);
    SameChars(g, g.(t := InCsi(u, 0x40).t), HowOften(n), i);
  }

  /** No more than 25 characters are deleted, so a cell `j` that should have gone and stays has to be what
      comes after those that should have gone. */
  predicate DeletedAlike(g: Grid, n: Word32, j: nat)
    requires Valid(g) && j < WINDOW && n > HEIGHT
  {
    g.cells[j] == if j + n - HEIGHT < RowEnd(g) then g.cells[j + n - HEIGHT] else g.t.erase
  }

  /** No more than 25 are inserted, so a cell `j` has to be what should have come 25 further on. */
  predicate InsertedAlike(g: Grid, n: Word32, j: nat)
    requires Valid(g) && g.At() <= j < RowEnd(g) - HEIGHT && n > HEIGHT
  {
    g.cells[j] == if j + HEIGHT < g.At() + n then Cell(g.t.erase.ch, g.cells[g.At()].style) else g.cells[j + HEIGHT - n]
  }

  /** DCH and ICH of up to 25 do what the standard asks for, and of more exactly on such rows. */
  lemma CharsExact(g: Grid, n: Word32)
    requires Valid(g) && g.t.phase.Normal? && g.t.x < WIDTH
    ensures var h := ShowAll(g, Csi([n], 0x50));
      && |h.cells| == WINDOW
      && ((forall i | 0 <= i < WINDOW :: h.cells[i] == CharsOut(g, Max(n, 1), i)) <==>
            n <= HEIGHT || forall j | g.At() + HEIGHT <= j < RowEnd(g) :: DeletedAlike(g, n, j))
    ensures var h := ShowAll(g, Csi([n], 0x40));
      && |h.cells| == WINDOW
      && ((forall i | 0 <= i < WINDOW :: h.cells[i] == CharsIn(g, Max(n, 1), i)) <==>
            n <= HEIGHT || forall j | g.At() <= j < RowEnd(g) - HEIGHT :: InsertedAlike(g, n, j))
  {
    CharsEdited(g, n, 0);
    var h, l := ShowAll(g, Csi([n], 0x50)), ShowAll(g, Csi([n], 0x40));
    forall i | 0 <= i < WINDOW
      ensures h.cells[i] == CharsOut(g, HowOften(n), i) && l.cells[i] == CharsIn(g, HowOften(n), i)
    {
      CharsEdited(g, n, i);
    }
    hide ShowAll, CharsOut, CharsIn, DeletedAlike, InsertedAlike;
    if n > HEIGHT {
      assert HowOften(n) == HEIGHT && Max(n, 1) == n;
      forall i | 0 <= i < WINDOW
        ensures h.cells[i] == CharsOut(g, n, i) <==>
          (FromCursor(g, i) && i + HEIGHT < RowEnd(g) ==> DeletedAlike(g, n, i + HEIGHT))
        ensures l.cells[i] == CharsIn(g, n, i) <==>
          (FromCursor(g, i) && g.At() + HEIGHT <= i ==> InsertedAlike(g, n, i - HEIGHT))
      {
        DeletesAt(g, n, i);
        InsertsAt(g, n, i);
      }
      forall j | g.At() + HEIGHT <= j < RowEnd(g)
        ensures DeletedAlike(g, n, j) <==> h.cells[j - HEIGHT] == CharsOut(g, n, j - HEIGHT)
      {
        assert FromCursor(g, j - HEIGHT) && j - HEIGHT + HEIGHT == j;
      }
      forall j | g.At() <= j < RowEnd(g) - HEIGHT
        ensures InsertedAlike(g, n, j) <==> l.cells[j + HEIGHT] == CharsIn(g, n, j + HEIGHT)
      {
        assert FromCursor(g, j + HEIGHT) && j + HEIGHT - HEIGHT == j;
      }
    }
  }

  lemma DeletesAt(g: Grid, n: Word32, i: nat)
    requires Valid(g) && i < WINDOW && n > HEIGHT
    ensures CharsOut(g, HEIGHT, i) == CharsOut(g, n, i) <==>
      (FromCursor(g, i) && i + HEIGHT < RowEnd(g) ==> DeletedAlike(g, n, i + HEIGHT))
  {
  }

  lemma InsertsAt(g: Grid, n: Word32, i: nat)
    requires Valid(g) && i < WINDOW && n > HEIGHT
    ensures CharsIn(g, HEIGHT, i) == CharsIn(g, n, i) <==>
      (FromCursor(g, i) && g.At() + HEIGHT <= i ==> InsertedAlike(g, n, i - HEIGHT))
  {
  }

  /** On a row of one letter `ESC [ 80 P` leaves the letter at the cursor. */
  lemma LetterLeft(g: Grid, letter: Cell)
    requires Valid(g) && g.t.phase.Normal? && g.t.x == 0 && letter != g.t.erase
    requires forall i | g.At() <= i < RowEnd(g) :: g.cells[i] == letter
    ensures var h := ShowAll(g, Csi([WIDTH], 0x50));
      |h.cells| == WINDOW && h.cells[g.At()] == letter && CharsOut(g, WIDTH, g.At()) == g.t.erase
  {
    hide ShowAll;
    CharsEdited(g, WIDTH, g.At());
    assert g.cells[g.At() + HEIGHT] == letter;
  }

  lemma SameChars(g: Grid, h: Grid, k: nat, i: nat)
    requires Valid(g) && Valid(h) && i < WINDOW && h.cells == g.cells && (h.t.x, h.t.y, h.t.erase) == (g.t.x, g.t.y, g.t.erase)
    ensures CharsOut(h, k, i) == CharsOut(g, k, i) && CharsIn(h, k, i) == CharsIn(g, k, i)
  {
  }

  /** Behind a full row they change the first cell of the next row, if there is one. */
  lemma CharsBehind(g: Grid, n: Word32)
    requires Valid(g) && g.t.phase.Normal? && g.t.x == WIDTH && g.At() < WINDOW
    ensures OneCell(g, ShowAll(g, Csi([n], 0x50)), g.At(), g.t.erase)
    ensures OneCell(g, ShowAll(g, Csi([n], 0x40)), g.At(), Cell(g.t.erase.ch, g.cells[g.At()].style))
  {
    hide InCsi, ShowAll, Repeated, DoGrid, OneCell, HowOften;
    var t := OneArgument(g, n, 0x50);
    EditingFinals(t);
    BehindAt(g, g.(t := InCsi(t, 0x50).t), InCsi(t, 0x50).action, HowOften(n));
    var u := OneArgument(g, n, 0x40);
    EditingFinals(u);
    BehindAt(g, g.(t := InCsi(u, 0x40).t), InCsi(u, 0x40).action, HowOften(n));
  }

  lemma BehindAt(g: Grid, h: Grid, what: Action, k: nat)
    requires Valid(g) && Valid(h) && g.t.x == WIDTH && g.At() < WINDOW && (what == DeleteChars(k) || what == InsertChars(k))
    requires h.cells == g.cells && (h.t.x, h.t.y, h.t.erase) == (g.t.x, g.t.y, g.t.erase) && k > 0
    ensures OneCell(g, DoGrid(h, what), g.At(),
      if what.DeleteChars? then g.t.erase else Cell(g.t.erase.ch, g.cells[g.At()].style))
  {
    hide Repeated;
    CellBehind(h, what, k);
  }

  lemma {:induction false} CellBehind(g: Grid, what: Action, k: nat)
    requires Valid(g) && g.t.x == WIDTH && g.At() < WINDOW && k > 0 && (what.DeleteChars? || what.InsertChars?)
    ensures OneCell(g, Repeated(g, k, what), g.At(),
      if what.DeleteChars? then g.t.erase else Cell(g.t.erase.ch, g.cells[g.At()].style))
    decreases k
  {
    hide CloseCell, OpenCell;
    BehindOnce(g);
    var h := if what.DeleteChars? then CloseCell(g) else OpenCell(g);
    if k == 1 {
      assert Repeated(h, 0, what) == h;
    } else {
      CellBehind(h, what, k - 1);
    }
  }

  lemma BehindOnce(g: Grid)
    requires Valid(g) && g.t.x == WIDTH && g.At() < WINDOW
    ensures OneCell(g, CloseCell(g), g.At(), g.t.erase)
    ensures OneCell(g, OpenCell(g), g.At(), Cell(g.t.erase.ch, g.cells[g.At()].style))
  {
  }

  // ---------- The other functions ----------

  /** `ESC [ s` keeps the place of the cursor and `ESC [ u` goes back there. */
  lemma PlaceKept(g: Grid, n: Word32)
    requires Valid(g) && g.t.phase.Normal?
    ensures var h := ShowAll(g, Csi([n], 0x73));
      h.cells == g.cells && (h.t.x, h.t.y, h.t.savedX, h.t.savedY) == (g.t.x, g.t.y, g.t.x, g.t.y)
    ensures var h := ShowAll(g, Csi([n], 0x75));
      h.cells == g.cells && (h.t.x, h.t.y) == (g.t.savedX, g.t.savedY)
  {
    hide InCsi, ShowAll;
    var t := OneArgument(g, n, 0x73);
    PlaceFinals(t);
    var u := OneArgument(g, n, 0x75);
    PlaceFinals(u);
  }

  /** Final bytes that mean the same: HPA as CHA, VPR as CUD, HPR as CUF, HVP as CUP. */
  predicate MeansAs(a: Byte, b: Byte) {
    || (a == 0x60 && b == 0x47) || (a == 0x65 && b == 0x42) || (a == 0x61 && b == 0x43) || (a == 0x66 && b == 0x48)
  }

  lemma SameFunction(g: Grid, args: seq<Word32>, a: Byte, b: Byte)
    requires Valid(g) && g.t.phase.Normal? && 0 < |args| <= ARG_NR && MeansAs(a, b)
    ensures ShowAll(g, Csi(args, a)) == ShowAll(g, Csi(args, b))
  {
    hide ShowAll, DoGrid;
    CsiActs(g, args, a);
    CsiActs(g, args, b);
  }

  /** The final bytes that do something. */
  predicate KnownFinal(ch: Byte) {
    || 0x40 <= ch <= 0x48 || 0x4A <= ch <= 0x4D || ch == 0x50 || ch == 0x60 || ch == 0x61 || 0x64 <= ch <= 0x66
    || ch == 0x6D || ch == 0x73 || ch == 0x75
  }

  /** A sequence with any other final byte leaves the screen, the cursor and the style alone. */
  lemma UnknownFinal(g: Grid, args: seq<Word32>, final: Byte)
    requires Valid(g) && g.t.phase.Normal? && 0 < |args| <= ARG_NR
    requires final != SEMICOLON && !(0x30 <= final <= 0x39) && !KnownFinal(final)
    ensures var h := ShowAll(g, Csi(args, final));
      h.cells == g.cells && h.t == g.t.(args := h.t.args, argc := h.t.argc, ques := h.t.ques)
  {
    hide ShowAll;
    CsiActs(g, args, final);
    ArgsKeep(Begun(g.t), args);
  }

  lemma {:induction false} ArgsKeep(t: Term, args: seq<Word32>)
    requires |t.args| == ARG_NR && t.argc + |args| <= ARG_NR && args != []
    ensures WithArgs(t, args) == t.(args := WithArgs(t, args).args, argc := WithArgs(t, args).argc)
    decreases |args|
  {
    var u := t.(args := t.args[t.argc := args[0]]);
    if |args| == 1 {
    } else {
      ArgsKeep(u.(argc := u.argc + 1), args[1..]);
    }
  }

  // ---------- Select graphic rendition ----------

  /** The parts of a style byte: colours, and whether the character is bright and blinks. */
  datatype Look = Look(fore: bv8, bright: bool, back: bv8, blink: bool)

  function LookOf(style: bv8): Look {
    Look(style & 7, style & 8 != 0, (style >> 4) & 7, style & 0x80 != 0)
  }

  /** What one argument of SGR does to it here. */
  function Rendered(l: Look, arg: Word32): Look {
    if arg == 0 then Look(7, false, 0, false)
    else if arg == 1 then Look(7, true, 0, false)
    else if arg == 7 then Look(l.back, l.blink, l.fore, l.bright)
    else if arg == 128 then l.(blink := true)
    else if 30 <= arg <= 37 then l.(fore := (arg - 30) as bv8)
    else if 40 <= arg <= 47 then l.(back := (arg - 40) as bv8)
    else l
  }

  lemma StyledLooks(style: bv8, arg: Word32)
    ensures LookOf(Styled(style, arg)) == Rendered(LookOf(style), arg)
  {
    hide LookOf;
    FixedLooks();
    if 30 <= arg <= 37 {
      Small(arg - 30);
      ForeSet(style, (arg - 30) as bv8);
    } else if 40 <= arg <= 47 {
      Small(arg - 40);
      BackSet(style, (arg - 40) as bv8);
    } else if arg == 7 {
      Turned(style);
    } else if arg == 128 {
      Blinking(style);
    }
  }

  lemma FixedLooks()
    ensures LookOf(7) == Look(7, false, 0, false) && LookOf(0x0F) == Look(7, true, 0, false)
  {
  }

  lemma Turned(style: bv8)
    ensures var l := LookOf(style); LookOf((style >> 4) | (style << 4)) == Look(l.back, l.blink, l.fore, l.bright)
  {
  }

  lemma Blinking(style: bv8)
    ensures LookOf(style | 0x80) == LookOf(style).(blink := true)
  {
  }

  lemma ForeSet(style: bv8, c: bv8)
    requires c < 8
    ensures LookOf((style & 0xF8) | c) == LookOf(style).(fore := c)
  {
  }

  lemma BackSet(style: bv8, c: bv8)
    requires c < 8
    ensures LookOf((style & 0x8F) | (c << 4)) == LookOf(style).(back := c)
  {
  }

  function RenderedAll(l: Look, args: seq<Word32>): Look
    decreases |args|
  {
    if args == [] then l else RenderedAll(Rendered(l, args[0]), args[1..])
  }

  lemma {:induction false} StyleLooks(style: bv8, args: seq<Word32>)
    ensures LookOf(StyleFrom(style, args)) == RenderedAll(LookOf(style), args)
    decreases |args|
  {
    hide Styled, LookOf, Rendered;
    if args == [] {
    } else {
      StyledLooks(style, args[0]);
      StyleLooks(Styled(style, args[0]), args[1..]);
    }
  }

  /** SGR (section 8.3.117): the characters written from then on, and what is erased, look as the
      arguments say one after the other, but counted from black on black and not from how they looked
      before; the screen and the cursor stay. */
  lemma StyleSet(g: Grid, args: seq<Word32>)
    requires Valid(g) && g.t.phase.Normal? && 0 < |args| <= ARG_NR
    ensures var h := ShowAll(g, Csi(args, 0x6D));
      && h.cells == g.cells && (h.t.x, h.t.y) == (g.t.x, g.t.y)
      && LookOf(h.t.style) == RenderedAll(Look(0, false, 0, false), args) && h.t.erase == Cell(0x20, h.t.style)
  {
    hide ShowAll, StyleFrom, LookOf, RenderedAll;
    CsiActs(g, args, 0x6D);
    ArgsCount(Begun(g.t), args);
    var t := WithArgs(Begun(g.t), args);
    assert t.args[..|args|] == args by {
      assert forall k | 0 <= k < |args| :: t.args[0 + k] == args[k];
    }
    StyleLooks(0, args);
    BlackOnBlack();
  }

  lemma BlackOnBlack()
    ensures LookOf(0) == Look(0, false, 0, false)
  {
  }

  /** What is left of a style byte where the arguments neither set nor reset it. */
  function Untouched(style: bv8, args: seq<Word32>): bv8
    decreases |args|
  {
    if args == [] then style else Untouched(UntouchedBy(style, args[0]), args[1..])
  }

  function UntouchedBy(style: bv8, arg: Word32): bv8 {
    if arg == 0 || arg == 1 then 0
    else if arg == 7 then (style >> 4) | (style << 4)
    else if arg == 128 then style & 0x7F
    else if 30 <= arg <= 37 then style & 0xF8
    else if 40 <= arg <= 47 then style & 0x8F
    else style
  }

  lemma ForeAlike(a: bv8, b: bv8, c: bv8)
    requires c < 8
    ensures ((a & 0xF8) | c) ^ ((b & 0xF8) | c) == (a ^ b) & 0xF8
  {
  }

  lemma BackAlike(a: bv8, b: bv8, c: bv8)
    requires c < 8
    ensures ((a & 0x8F) | (c << 4)) ^ ((b & 0x8F) | (c << 4)) == (a ^ b) & 0x8F
  {
  }

  lemma TurnAlike(a: bv8, b: bv8)
    ensures ((a >> 4) | (a << 4)) ^ ((b >> 4) | (b << 4)) == ((a ^ b) >> 4) | ((a ^ b) << 4)
  {
  }

  lemma BlinkAlike(a: bv8, b: bv8)
    ensures (a | 0x80) ^ (b | 0x80) == (a ^ b) & 0x7F
  {
  }

  lemma NoneAlike(a: bv8)
    ensures a ^ a == 0
  {
  }

  lemma Small(n: nat)
    requires n < 8
    ensures (n as bv8) < 8
  {
  }

  lemma OnceAlike(a: bv8, b: bv8, arg: Word32)
    ensures Styled(a, arg) ^ Styled(b, arg) == UntouchedBy(a ^ b, arg)
  {
    if 30 <= arg <= 37 {
      Small(arg - 30);
      ForeAlike(a, b, (arg - 30) as bv8);
    } else if 40 <= arg <= 47 {
      Small(arg - 40);
      BackAlike(a, b, (arg - 40) as bv8);
    } else if arg == 7 {
      TurnAlike(a, b);
    } else if arg == 128 {
      BlinkAlike(a, b);
    } else if arg == 0 {
      NoneAlike(7);
    } else if arg == 1 {
      NoneAlike(0x0F);
    }
  }

  lemma {:induction false} StylesAlike(a: bv8, b: bv8, args: seq<Word32>)
    ensures StyleFrom(a, args) == StyleFrom(b, args) <==> Untouched(a ^ b, args) == 0
    decreases |args|
  {
    hide Styled, UntouchedBy;
    if args == [] {
    } else {
      OnceAlike(a, b, args[0]);
      StylesAlike(Styled(a, args[0]), Styled(b, args[0]), args[1..]);
    }
  }

  /** SGR asks for the arguments to be applied to the style there is.  So it comes out exactly when the
      arguments set or reset all of that style that is not zero. */
  lemma StyleExact(g: Grid, args: seq<Word32>)
    requires Valid(g) && g.t.phase.Normal? && 0 < |args| <= ARG_NR
    ensures ShowAll(g, Csi(args, 0x6D)).t.style == StyleFrom(g.t.style, args) <==> Untouched(g.t.style, args) == 0
  {
    hide ShowAll, StyleFrom, Untouched;
    CsiActs(g, args, 0x6D);
    ArgsCount(Begun(g.t), args);
    var t := WithArgs(Begun(g.t), args);
    assert t.args[..|args|] == args by {
      assert forall k | 0 <= k < |args| :: t.args[0 + k] == args[k];
    }
    StylesAlike(0, g.t.style, args);
    assert 0 ^ g.t.style == g.t.style;
  }

  /** `ESC [ 7 m` does not show text reversed but hides it: black on black. */
  lemma ReverseHides(g: Grid)
    requires Valid(g) && g.t.phase.Normal?
    ensures ShowAll(g, Csi([7], 0x6D)).t.style == 0
  {
    hide ShowAll;
    var t := OneArgument(g, 7, 0x6D);
    assert t.args[..1] == [7] && [7][1..] == [];
    assert StyleFrom(0, [7]) == StyleFrom(Styled(0, 7), []) == 0;
  }
}
