/** The console of src/kernel/console.c as it is run, with video memory as an array of cells. */
module VideoConsoles {
  import opened Unsigned
  import opened Consoles

  class VideoConsole {
    const mem: array<Cell>
    var screen: nat
    var pos: nat
    var t: Term

    function State(): Console
      reads this, mem
    {
      Console(mem[..], screen, pos, t)
    }

    /** `console_init` and `console_clear`. */
    constructor ()
      ensures Inv(State()) && fresh(mem)
      ensures State() == Console(seq(MEMORY, _ => Cell(0x20, 7)), 0, 0,
                                 Term(0, 0, 0, 0, Normal, seq(ARG_NR, _ => 0), 0, false, Cell(0x20, 7), 7))
    {
      mem := new Cell[MEMORY](_ => Cell(0x20, 7));
      screen, pos := 0, 0;
      t := Term(0, 0, 0, 0, Normal, seq(ARG_NR, _ => 0), 0, false, Cell(0x20, 7), 7);
      new;
      assert mem[..] == seq(MEMORY, _ => Cell(0x20, 7));
    }

    /** `erase_screen`. */
    method EraseCells(start: nat, count: nat)
      requires start + count <= mem.Length
      modifies mem
      ensures mem[..] == Fill(old(mem[..]), start, count, t.erase)
    {
      var nr := 0;
      while nr < count
        invariant 0 <= nr <= count
        invariant forall i | 0 <= i < mem.Length :: mem[i] == if start <= i < start + nr then t.erase else old(mem[i])
      {
        mem[start + nr] := t.erase;
        nr := nr + 1;
      }
    }

    /** `memcpy` towards the start of memory. */
    method CopyCells(to: nat, from: nat, count: nat)
      requires to + count <= from && from + count <= mem.Length
      modifies mem
      ensures mem[..] == Copy(old(mem[..]), to, from, count)
    {
      var nr := 0;
      while nr < count
        invariant 0 <= nr <= count
        invariant forall i | 0 <= i < mem.Length :: mem[i] == if to <= i < to + nr then old(mem[from + (i - to)]) else old(mem[i])
      {
        mem[to + nr] := mem[from + nr];
        nr := nr + 1;
      }
    }

    /** `scroll_up`. */
    method SlideWindow()
      requires Inv(State())
      modifies this`screen, this`pos, mem
      ensures State() == ScrollUp(old(State()))
    {
      if screen + WINDOW + WIDTH >= MEMORY {
        CopyCells(0, screen, WINDOW);
        pos := pos - screen;
        screen := 0;
      }
      EraseCells(screen + WINDOW, WIDTH);
      screen := screen + WIDTH;
      pos := pos + WIDTH;
    }

    /** `lf`. */
    method LineFeedNow()
      requires Inv(State())
      modifies this, mem
      ensures Inv(State()) && State() == Lf(old(State()))
    {
      LfInv(State());
      if t.y + 1 < HEIGHT {
        t := t.(y := t.y + 1);
        pos := pos + WIDTH;
        return;
      }
      SlideWindow();
    }

    /** `cr`. */
    method ReturnNow()
      requires Inv(State())
      modifies this
      ensures Inv(State()) && State() == Cr(old(State()))
    {
      pos := pos - t.x;
      t := t.(x := 0);
    }

    /** The step of `tab` and `chr` from past the end of a row to the next row. */
    method WrapRow()
      requires t.x >= WIDTH && pos >= screen + WIDTH
      requires Inv(State().(pos := pos - WIDTH, t := t.(x := t.x - WIDTH)))
      modifies this, mem
      ensures Inv(State()) && State() == NextRow(old(State()))
    {
      t := t.(x := t.x - WIDTH);
      pos := pos - WIDTH;
      LineFeedNow();
    }

    /** `tab`. */
    method TabNow()
      requires Inv(State())
      modifies this, mem
      ensures Inv(State()) && State() == DoTab(old(State()))
    {
      hide NextRow;
      var offset := 8 - t.x % 8;
      t := t.(x := t.x + offset);
      pos := pos + offset;
      if t.x >= WIDTH {
        WrapRow();
      }
    }

    /** `bs`. */
    method BackNow()
      requires Inv(State())
      modifies this, mem
      ensures Inv(State()) && State() == DoBack(old(State()))
    {
      ghost var was := mem[..];
      if t.x == 0 {
        return;
      }
      t := t.(x := t.x - 1);
      pos := pos - 1;
      mem[pos] := t.erase;
      assert mem[..] == was[pos := t.erase];
    }

    /** `chr`. */
    method PutNow(ch: Byte)
      requires Inv(State())
      modifies this, mem
      ensures Inv(State()) && State() == DoPut(old(State()), ch)
    {
      hide NextRow;
      if t.x >= WIDTH {
        NextRowInv(State());
        WrapRow();
      }
      ghost var was := mem[..];
      mem[pos] := Cell(ch, t.style);
      assert mem[..] == was[pos := Cell(ch, t.style)];
      pos := pos + 1;
      t := t.(x := t.x + 1);
    }

    /** `set_xy`. */
    method MoveCursor(x: nat, y: nat)
      requires Inv(State())
      modifies this
      ensures Inv(State()) && State() == Move(old(State()), x, y)
    {
      if x > WIDTH || y >= HEIGHT {
        return;
      }
      t := t.(x := x, y := y);
      pos := screen + y * WIDTH + x;
    }

    /** `csi_J`. */
    method EraseScreenNow(mode: nat)
      requires Inv(State())
      modifies mem
      ensures Inv(State()) && State() == DoEraseScreen(old(State()), mode)
    {
      if mode == 0 {
        EraseCells(pos, screen + WINDOW - pos);
      } else if mode == 1 {
        EraseCells(screen, pos - screen);
      } else if mode == 2 {
        EraseCells(screen, WINDOW);
      }
    }

    /** `csi_K`. */
    method EraseLineNow(mode: nat)
      requires Inv(State())
      modifies mem
      ensures Inv(State()) && State() == DoEraseLine(old(State()), mode)
    {
      if mode == 0 {
        EraseCells(pos, WIDTH - t.x);
      } else if mode == 1 {
        EraseCells(pos - t.x, t.x);
      } else if mode == 2 {
        EraseCells(pos - t.x, WIDTH);
      }
    }

    /** The loop of `insert_line` over the rows of memory, last row first. */
    method InsertLineNow()
      requires Inv(State())
      modifies mem
      ensures Inv(State()) && State() == InsertLine(old(State()))
    {
      hide ShiftDown;
      var start := screen + t.y * WIDTH;
      ghost var was := mem[..];
      var i := 2;
      while i * WIDTH <= MEMORY && MEMORY - i * WIDTH >= start
        invariant 2 <= i
        invariant ShiftDown(mem[..], start, i) == ShiftDown(was, start, 2)
        decreases MEMORY - i
      {
        ShiftDownOnce(mem[..], start, i);
        MoveRowDown(MEMORY - i * WIDTH);
        i := i + 1;
      }
      ShiftDownEnd(mem[..], start, i);
      EraseCells(start, WIDTH);
    }

    method MoveRowDown(src: nat)
      requires src + 2 * WIDTH <= mem.Length
      modifies mem
      ensures mem[..] == Copy(old(mem[..]), src + WIDTH, src, WIDTH)
    {
      var nr := 0;
      while nr < WIDTH
        invariant 0 <= nr <= WIDTH
        invariant forall i | 0 <= i < mem.Length ::
          mem[i] == if src + WIDTH <= i < src + WIDTH + nr then old(mem[i - WIDTH]) else old(mem[i])
      {
        mem[src + WIDTH + nr] := mem[src + nr];
        nr := nr + 1;
      }
    }

    /** The loop of `delete_line`. */
    method DeleteLineNow()
      requires Inv(State())
      modifies mem
      ensures Inv(State()) && State() == DeleteLine(old(State()))
    {
      hide ShiftUp;
      var start := screen + t.y * WIDTH;
      ghost var was := mem[..];
      var i := 1;
      while start + i * 2 * WIDTH < MEMORY
        invariant 1 <= i
        invariant ShiftUp(mem[..], start, i) == ShiftUp(was, start, 1)
        decreases MEMORY - i
      {
        RowEnds(start, i);
        ShiftUpOnce(mem[..], start, i);
        CopyCells(start + i * 2 * WIDTH - WIDTH, start + i * 2 * WIDTH, WIDTH);
        i := i + 1;
      }
      ShiftUpEnd(mem[..], start, i);
      EraseCells(MEMORY - WIDTH, WIDTH);
    }

    /** `delete_char`. */
    method DeleteCharNow()
      requires Inv(State())
      modifies mem
      ensures Inv(State()) && State() == DeleteChar(old(State()))
    {
      hide Copy;
      var ptr, i := pos, t.x + 1;
      ghost var was := mem[..];
      CopyNothing(was, pos, pos + 1);
      while i < WIDTH
        invariant t.x + 1 <= i && (i <= WIDTH || ptr == pos) && ptr == pos + (i - t.x - 1)
        invariant mem[..] == Copy(was, pos, pos + 1, ptr - pos)
      {
        CopyOneMore(was, pos, ptr - pos);
        mem[ptr] := mem[ptr + 1];
        ptr := ptr + 1;
        i := i + 1;
      }
      mem[ptr] := t.erase;
      assert mem[..] == Copy(was, pos, pos + 1, ptr - pos)[ptr := t.erase];
    }

    /** `insert_char`. */
    method InsertCharNow()
      requires Inv(State())
      modifies mem
      ensures Inv(State()) && State() == InsertChar(old(State()))
    {
      hide Copy;
      var n := if t.x + 1 < WIDTH then WIDTH - t.x - 1 else 0;
      var ptr := pos + n;
      ghost var was := mem[..];
      CopyNothing(was, ptr + 1, ptr);
      while ptr > pos
        invariant pos <= ptr <= pos + n
        invariant mem[..] == Copy(was, ptr + 1, ptr, pos + n - ptr)
      {
        CopyOneBack(was, ptr, pos + n - ptr);
        mem[ptr] := mem[ptr - 1];
        ptr := ptr - 1;
      }
      ghost var moved := mem[..];
      mem[pos] := Cell(t.erase.ch, mem[pos].style);
      assert mem[..] == moved[pos := Cell(t.erase.ch, moved[pos].style)];
    }

    /** The loops of `csi_L`, `csi_M`, `csi_P` and `csi_at`. */
    method Edit(n: nat, what: Action)
      requires Inv(State())
      modifies mem
      ensures Inv(State()) && State() == Times(old(State()), n, what)
    {
      hide InsertLine, DeleteLine, DeleteChar, InsertChar, Inv;
      var nr: nat := n;
      ghost var was := State();
      while nr > 0
        invariant Inv(State()) && nr <= n && Times(State(), nr, what) == Times(was, n, what)
        decreases nr
      {
        if what.InsertLines? {
          InsertLineNow();
        } else if what.DeleteLines? {
          DeleteLineNow();
        } else if what.DeleteChars? {
          DeleteCharNow();
        } else {
          InsertCharNow();
        }
        nr := nr - 1;
      }
    }

    method Apply(action: Action)
      requires Inv(State())
      modifies this, mem
      ensures Inv(State()) && State() == Do(old(State()), action)
    {
      hide Lf, Times, DoTab, DoBack, DoPut, Move, DoEraseScreen, DoEraseLine;
      match action {
        case Nothing =>
        case Put(ch) => PutNow(ch);
        case LineFeed => LineFeedNow();
        case NewLine =>
          LineFeedNow();
          ReturnNow();
        case Return => ReturnNow();
        case Tab => TabNow();
        case Back => BackNow();
        case Delete =>
          ghost var was := mem[..];
          mem[pos] := t.erase;
          assert mem[..] == was[pos := t.erase];
        case MoveTo(x, y) => MoveCursor(x, y);
        case EraseScreen(mode) => EraseScreenNow(mode);
        case EraseLine(mode) => EraseLineNow(mode);
        case InsertLines(n) => Edit(n, action);
        case DeleteLines(n) => Edit(n, action);
        case DeleteChars(n) => Edit(n, action);
        case InsertChars(n) => Edit(n, action);
      }
    }

    /** `console_write`. */
    method WriteBytes(buf: seq<Byte>)
      requires Inv(State())
      modifies this, mem
      ensures Inv(State()) && State() == WriteAll(old(State()), buf)
    {
      hide Inv, Do, Parse;
      ghost var was := State();
      var nr := 0;
      while nr < |buf|
        invariant 0 <= nr <= |buf| && Inv(State())
        invariant WriteAll(State(), buf[nr..]) == WriteAll(was, buf)
      {
        ghost var now := State();
        TermOf(now, buf[nr]);
        var p := Parse(t, buf[nr]);
        t := p.t;
        assert State() == now.(t := p.t);
        Apply(p.action);
        assert buf[nr..][1..] == buf[nr + 1..];
        nr := nr + 1;
      }
    }
  }

  lemma TermOf(c: Console, ch: Byte)
    requires Inv(c)
    ensures |c.t.args| == ARG_NR && Inv(c.(t := Parse(c.t, ch).t))
  {
    hide Parse;
    ParseOk(c.t, ch);
  }

  lemma ShiftDownOnce(mem: seq<Cell>, start: nat, i: nat)
    requires |mem| == MEMORY && i >= 2 && i * WIDTH <= MEMORY && MEMORY - i * WIDTH >= start
    ensures ShiftDown(mem, start, i) == ShiftDown(Copy(mem, MEMORY - i * WIDTH + WIDTH, MEMORY - i * WIDTH, WIDTH), start, i + 1)
  {
  }

  lemma ShiftDownEnd(mem: seq<Cell>, start: nat, i: nat)
    requires |mem| == MEMORY && i >= 2 && (i * WIDTH > MEMORY || MEMORY - i * WIDTH < start)
    ensures ShiftDown(mem, start, i) == mem
  {
  }

  lemma ShiftUpOnce(mem: seq<Cell>, start: nat, i: nat)
    requires |mem| == MEMORY && i >= 1 && start % WIDTH == 0 && start + i * 2 * WIDTH < MEMORY
    ensures start + i * 2 * WIDTH + WIDTH <= MEMORY
    ensures ShiftUp(mem, start, i) == ShiftUp(Copy(mem, start + i * 2 * WIDTH - WIDTH, start + i * 2 * WIDTH, WIDTH), start, i + 1)
  {
    RowEnds(start, i);
  }

  lemma ShiftUpEnd(mem: seq<Cell>, start: nat, i: nat)
    requires |mem| == MEMORY && i >= 1 && start % WIDTH == 0 && start + i * 2 * WIDTH >= MEMORY
    ensures ShiftUp(mem, start, i) == mem
  {
  }

  lemma CopyNothing(mem: seq<Cell>, to: nat, from: nat)
    requires to <= |mem| && from <= |mem|
    ensures Copy(mem, to, from, 0) == mem
  {
  }

  lemma CopyOneMore(mem: seq<Cell>, pos: nat, m: nat)
    requires pos + m + 1 < |mem|
    ensures Copy(mem, pos, pos + 1, m)[pos + m + 1] == mem[pos + m + 1]
    ensures Copy(mem, pos, pos + 1, m + 1) == Copy(mem, pos, pos + 1, m)[pos + m := mem[pos + m + 1]]
  {
  }

  lemma CopyOneBack(mem: seq<Cell>, ptr: nat, m: nat)
    requires 0 < ptr && ptr + 1 + m <= |mem|
    ensures Copy(mem, ptr + 1, ptr, m)[ptr - 1] == mem[ptr - 1]
    ensures Copy(mem, ptr, ptr - 1, m + 1) == Copy(mem, ptr + 1, ptr, m)[ptr := mem[ptr - 1]]
  {
  }
}
