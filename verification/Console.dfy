/** The text console (src/kernel/console.c): a window that slides over video memory and is copied
    back to the start when it meets the end, driven by control functions of ECMA-48.  Memory is
    counted in character cells of two bytes from the base of video memory. */
module Consoles {
  import opened Unsigned

  const WIDTH: nat := 80
  const HEIGHT: nat := 25
  const WINDOW: nat := 2000     // cells on the screen
  const MEMORY: nat := 8160     // cells in video memory, 102 rows
  const ARG_NR: nat := 16


  datatype Cell = Cell(ch: Byte, style: bv8)

  datatype Phase = Normal | Esc | Que | Arg

  /** What does not depend on how the screen is kept: the cursor and the state of the parser. */
  datatype Term = Term(
    x: nat, y: nat, savedX: nat, savedY: nat, phase: Phase, args: seq<Word32>, argc: nat, ques: bool,
    erase: Cell, style: bv8)

  /** `screen` is where the window starts and `pos` the cell at the cursor. */
  datatype Console = Console(mem: seq<Cell>, screen: nat, pos: nat, t: Term)

  // ---------- The parser ----------

  /** What a byte asks of the screen. */
  datatype Action =
    | Nothing
    | Put(ch: Byte)
    | LineFeed
    | NewLine
    | Return
    | Tab
    | Back
    | Delete
    | MoveTo(x: Word32, y: Word32)
    | EraseScreen(mode: Word32)
    | EraseLine(mode: Word32)
    | InsertLines(n: nat)
    | DeleteLines(n: nat)
    | DeleteChars(n: nat)
    | InsertChars(n: nat)

  datatype Parsed = Parsed(t: Term, action: Action)

  function Wrap(n: int): Word32 {
    n % 0x1_0000_0000
  }

  /** `state_normal`. */
  function InNormal(t: Term, ch: Byte): Parsed {
    match ch
    case 0x00 => Parsed(t, Nothing)
    case 0x07 => Parsed(t, Nothing)
    case 0x08 => Parsed(t, Back)
    case 0x09 => Parsed(t, Tab)
    case 0x0A => Parsed(t, NewLine)
    case 0x0B => Parsed(t, LineFeed)
    case 0x0C => Parsed(t, LineFeed)
    case 0x0D => Parsed(t, Return)
    case 0x7F => Parsed(t, Delete)
    case 0x1B => Parsed(t.(phase := Esc), Nothing)
    case _ => Parsed(t, Put(ch))
  }

  /** `state_esc`: only `[` leaves this state. */
  function InEsc(t: Term, ch: Byte): Parsed {
    match ch
    case 0x5B => Parsed(t.(phase := Que), Nothing)                        // [
    case 0x45 => Parsed(t, NewLine)                                       // E
    case 0x44 => Parsed(t, LineFeed)                                      // D
    case 0x37 => Parsed(t.(savedX := t.x, savedY := t.y), Nothing)        // 7
    case 0x38 => Parsed(t, MoveTo(Wrap(t.savedX), Wrap(t.savedY)))        // 8
    case _ => Parsed(t, Nothing)
  }

  /** `state_arg`; the flag says that `ch` ends the control sequence. */
  function InArg(t: Term, ch: Byte): (Term, bool)
    requires |t.args| == ARG_NR
  {
    if t.argc >= ARG_NR then (t, false)
    else if ch == 0x3B then (t.(argc := t.argc + 1), false)
    else if 0x30 <= ch <= 0x39 then (t.(args := t.args[t.argc := Wrap(t.args[t.argc] * 10 + (ch - 0x30))]), false)
    else (t.(argc := t.argc + 1), true)
  }

  /** How often the four editing functions are done. */
  function Repeat(n: Word32): nat {
    if n > HEIGHT then HEIGHT else if n == 0 then 1 else n
  }

  function OneIfZero(n: Word32): Word32 {
    if n == 0 then 1 else n
  }

  function LessOne(n: Word32): Word32 {
    if n == 0 then 0 else n - 1
  }

  /** One argument of `csi_m`. */
  function Styled(style: bv8, arg: Word32): bv8 {
    if arg == 0 then 7
    else if arg == 1 then 0x0F
    else if arg == 0x80 then style | 0x80
    else if arg == 7 then (style >> 4) | (style << 4)
    else if 30 <= arg <= 37 then (style & 0xF8) | ((arg - 30) as bv8)
    else if 40 <= arg <= 47 then (style & 0x8F) | (((arg - 40) as bv8) << 4)
    else style
  }

  function StyleFrom(style: bv8, args: seq<Word32>): bv8
    decreases |args|
  {
    if args == [] then style else StyleFrom(Styled(style, args[0]), args[1..])
  }

  /** `state_csi`.  Cursor arithmetic wraps around like the unsigned numbers of the code. */
  function InCsi(u: Term, ch: Byte): Parsed
    requires |u.args| == ARG_NR
  {
    var t := u.(phase := Normal);
    var a := t.args[0];
    var n := OneIfZero(a);
    if ch == 0x47 || ch == 0x60 then Parsed(t, MoveTo(LessOne(a), Wrap(t.y)))               // G `
    else if ch == 0x41 then Parsed(t, MoveTo(Wrap(t.x), Wrap(t.y - n)))                     // A
    else if ch == 0x42 || ch == 0x65 then Parsed(t, MoveTo(Wrap(t.x), Wrap(t.y + n)))       // B e
    else if ch == 0x43 || ch == 0x61 then Parsed(t, MoveTo(Wrap(t.x + n), Wrap(t.y)))       // C a
    else if ch == 0x44 then Parsed(t, MoveTo(Wrap(t.x - n), Wrap(t.y)))                     // D
    else if ch == 0x45 then Parsed(t, MoveTo(0, Wrap(t.y + n)))                             // E
    else if ch == 0x46 then Parsed(t, MoveTo(0, Wrap(t.y - n)))                             // F
    else if ch == 0x64 then Parsed(t, MoveTo(Wrap(t.x), LessOne(a)))                        // d
    else if ch == 0x48 || ch == 0x66 then Parsed(t, MoveTo(LessOne(t.args[1]), LessOne(a))) // H f
    else if ch == 0x4A then Parsed(t, EraseScreen(a))                                       // J
    else if ch == 0x4B then Parsed(t, EraseLine(a))                                         // K
    else if ch == 0x4C then Parsed(t, InsertLines(Repeat(a)))                               // L
    else if ch == 0x4D then Parsed(t, DeleteLines(Repeat(a)))                               // M
    else if ch == 0x50 then Parsed(t, DeleteChars(Repeat(a)))                               // P
    else if ch == 0x40 then Parsed(t, InsertChars(Repeat(a)))                               // @
    else if ch == 0x6D then
      var style := StyleFrom(0, if t.argc <= ARG_NR then t.args[..t.argc] else t.args);
      Parsed(t.(style := style, erase := Cell(0x20, style)), Nothing)                       // m
    else if ch == 0x73 then Parsed(t.(savedX := t.x, savedY := t.y), MoveTo(Wrap(t.x), Wrap(t.y))) // s
    else if ch == 0x75 then Parsed(t, MoveTo(Wrap(t.savedX), Wrap(t.savedY)))               // u
    else Parsed(t, Nothing)
  }

  /** One byte of `console_write`. */
  function Parse(t: Term, ch: Byte): Parsed
    requires |t.args| == ARG_NR
  {
    match t.phase
    case Normal => InNormal(t, ch)
    case Esc => InEsc(t, ch)
    case Que =>
      var u := t.(args := seq(ARG_NR, _ => 0), argc := 0, phase := Arg, ques := ch == 0x3F);
      if u.ques then Parsed(u, Nothing) else ArgThenCsi(u, ch)
    case Arg => ArgThenCsi(t, ch)
  }

  function ArgThenCsi(t: Term, ch: Byte): Parsed
    requires |t.args| == ARG_NR
  {
    var r := InArg(t, ch);
    if r.1 then InCsi(r.0, ch) else Parsed(r.0, Nothing)
  }

  // ---------- The screen in video memory ----------

  /** `erase_screen`. */
  function Fill(mem: seq<Cell>, start: nat, count: nat, cell: Cell): (r: seq<Cell>)
    requires start + count <= |mem|
    ensures |r| == |mem|
    ensures forall i | 0 <= i < |mem| :: r[i] == if start <= i < start + count then cell else mem[i]
  {
    mem[..start] + seq(count, _ => cell) + mem[start + count..]
  }

  /** A copy that reads every cell before it writes it: `memcpy` between places that do not
      overlap, and the loops that move part of a row by one cell. */
  function Copy(mem: seq<Cell>, to: nat, from: nat, count: nat): (r: seq<Cell>)
    requires to + count <= |mem| && from + count <= |mem|
    ensures |r| == |mem|
    ensures forall i | 0 <= i < |mem| :: r[i] == if to <= i < to + count then mem[from + (i - to)] else mem[i]
  {
    mem[..to] + mem[from..from + count] + mem[to + count..]
  }

  predicate TermOk(t: Term) {
    t.x <= WIDTH && t.y < HEIGHT && t.savedX <= WIDTH && t.savedY < HEIGHT && |t.args| == ARG_NR && t.argc <= ARG_NR
  }

  /** The window and the row below it are inside video memory, and the cursor's cell is where its
      coordinates say; a full row may leave it one cell past the end of the row. */
  predicate Inv(c: Console) {
    && TermOk(c.t)
    && |c.mem| == MEMORY
    && c.screen % WIDTH == 0 && c.screen + WINDOW + WIDTH <= MEMORY
    && c.pos == c.screen + c.t.y * WIDTH + c.t.x
  }

  /** `scroll_up`. */
  function ScrollUp(c: Console): Console
    requires |c.mem| == MEMORY && c.screen + WINDOW + WIDTH <= MEMORY && c.screen <= c.pos
  {
    var d := if c.screen + WINDOW + WIDTH >= MEMORY
             then c.(mem := Copy(c.mem, 0, c.screen, WINDOW), pos := c.pos - c.screen, screen := 0) else c;
    d.(mem := Fill(d.mem, d.screen + WINDOW, WIDTH, d.t.erase), screen := d.screen + WIDTH, pos := d.pos + WIDTH)
  }

  function Lf(c: Console): Console
    requires |c.mem| == MEMORY && c.screen + WINDOW + WIDTH <= MEMORY && c.screen <= c.pos
  {
    if c.t.y + 1 < HEIGHT then c.(pos := c.pos + WIDTH, t := c.t.(y := c.t.y + 1)) else ScrollUp(c)
  }

  function Cr(c: Console): Console
    requires c.t.x <= c.pos
  {
    c.(pos := c.pos - c.t.x, t := c.t.(x := 0))
  }

  /** A cursor past the end of its row goes to the next one. */
  function NextRow(c: Console): Console
    requires |c.mem| == MEMORY && c.screen + WINDOW + WIDTH <= MEMORY && c.t.x >= WIDTH && c.screen + WIDTH <= c.pos
  {
    Lf(c.(pos := c.pos - WIDTH, t := c.t.(x := c.t.x - WIDTH)))
  }

  function DoTab(c: Console): Console
    requires Inv(c)
  {
    var offset := 8 - c.t.x % 8;
    var d := c.(pos := c.pos + offset, t := c.t.(x := c.t.x + offset));
    if d.t.x >= WIDTH then NextRow(d) else d
  }

  function DoBack(c: Console): Console
    requires Inv(c)
  {
    if c.t.x == 0 then c
    else c.(mem := c.mem[c.pos - 1 := c.t.erase], pos := c.pos - 1, t := c.t.(x := c.t.x - 1))
  }

  function DoPut(c: Console, ch: Byte): (r: Console)
    requires Inv(c)
  {
    var d := if c.t.x >= WIDTH then (NextRowInv(c); NextRow(c)) else c;
    d.(mem := d.mem[d.pos := Cell(ch, d.t.style)], pos := d.pos + 1, t := d.t.(x := d.t.x + 1))
  }

  /** `set_xy`. */
  function Move(c: Console, x: nat, y: nat): Console {
    if x > WIDTH || y >= HEIGHT then c else c.(pos := c.screen + y * WIDTH + x, t := c.t.(x := x, y := y))
  }

  /** `csi_J`. */
  function DoEraseScreen(c: Console, mode: nat): Console
    requires Inv(c)
  {
    if mode == 0 then c.(mem := Fill(c.mem, c.pos, c.screen + WINDOW - c.pos, c.t.erase))
    else if mode == 1 then c.(mem := Fill(c.mem, c.screen, c.pos - c.screen, c.t.erase))
    else if mode == 2 then c.(mem := Fill(c.mem, c.screen, WINDOW, c.t.erase))
    else c
  }

  /** `csi_K`. */
  function DoEraseLine(c: Console, mode: nat): Console
    requires Inv(c)
  {
    if mode == 0 then c.(mem := Fill(c.mem, c.pos, WIDTH - c.t.x, c.t.erase))
    else if mode == 1 then c.(mem := Fill(c.mem, c.pos - c.t.x, c.t.x, c.t.erase))
    else if mode == 2 then c.(mem := Fill(c.mem, c.pos - c.t.x, WIDTH, c.t.erase))
    else c
  }

  /** The loop of `insert_line`, from the row `i` rows before the end of memory on. */
  function ShiftDown(mem: seq<Cell>, start: nat, i: nat): (r: seq<Cell>)
    requires |mem| == MEMORY && i >= 2
    ensures |r| == MEMORY
    decreases MEMORY - i
  {
    if i * WIDTH > MEMORY || MEMORY - i * WIDTH < start then mem
    else ShiftDown(Copy(mem, MEMORY - i * WIDTH + WIDTH, MEMORY - i * WIDTH, WIDTH), start, i + 1)
  }

  function InsertLine(c: Console): (d: Console)
    requires Inv(c)
    ensures Inv(d) && d == c.(mem := d.mem)
  {
    var start := c.screen + c.t.y * WIDTH;
    c.(mem := Fill(ShiftDown(c.mem, start, 2), start, WIDTH, c.t.erase))
  }

  /** The loop of `delete_line`: it takes every second row, because the row size in bytes is
      added to a pointer to cells. */
  function ShiftUp(mem: seq<Cell>, start: nat, i: nat): (r: seq<Cell>)
    requires |mem| == MEMORY && i >= 1 && start % WIDTH == 0
    ensures |r| == MEMORY
    decreases MEMORY - i
  {
    var src := start + i * 2 * WIDTH;
    if src >= MEMORY then mem
    else
      assert src + WIDTH <= MEMORY by {
        RowEnds(start, i);
      }
      ShiftUp(Copy(mem, src - WIDTH, src, WIDTH), start, i + 1)
  }

  lemma RowEnds(start: nat, i: nat)
    requires start % WIDTH == 0 && start + i * 2 * WIDTH < MEMORY
    ensures start + i * 2 * WIDTH + WIDTH <= MEMORY
  {
    var r := start / WIDTH;
    assert start == r * WIDTH;
    assert (r + 2 * i) * WIDTH < 102 * WIDTH;
  }

  function DeleteLine(c: Console): (d: Console)
    requires Inv(c)
    ensures Inv(d) && d == c.(mem := d.mem)
  {
    c.(mem := Fill(ShiftUp(c.mem, c.screen + c.t.y * WIDTH, 1), MEMORY - WIDTH, WIDTH, c.t.erase))
  }

  /** `delete_char`: the rest of the row moves left. */
  function DeleteChar(c: Console): (d: Console)
    requires Inv(c)
    ensures Inv(d) && d == c.(mem := d.mem)
  {
    var n := if c.t.x + 1 < WIDTH then WIDTH - c.t.x - 1 else 0;
    c.(mem := Copy(c.mem, c.pos, c.pos + 1, n)[c.pos + n := c.t.erase])
  }

  /** `insert_char`: the rest of the row moves right; the store through a `char` pointer leaves
      the style of the cell. */
  function InsertChar(c: Console): (d: Console)
    requires Inv(c)
    ensures Inv(d) && d == c.(mem := d.mem)
  {
    var n := if c.t.x + 1 < WIDTH then WIDTH - c.t.x - 1 else 0;
    var mem := Copy(c.mem, c.pos + 1, c.pos, n);
    c.(mem := mem[c.pos := Cell(c.t.erase.ch, mem[c.pos].style)])
  }

  function Times(c: Console, n: nat, what: Action): (d: Console)
    requires Inv(c)
    ensures Inv(d) && d == c.(mem := d.mem)
    decreases n
  {
    if n == 0 then c
    else
      var d := if what.InsertLines? then InsertLine(c) else if what.DeleteLines? then DeleteLine(c)
               else if what.DeleteChars? then DeleteChar(c) else InsertChar(c);
      Times(d, n - 1, what)
  }

  function Do(c: Console, action: Action): Console
    requires Inv(c)
  {
    match action
    case Nothing => c
    case Put(ch) => DoPut(c, ch)
    case LineFeed => Lf(c)
    case NewLine => Cr(Lf(c))
    case Return => Cr(c)
    case Tab => DoTab(c)
    case Back => DoBack(c)
    case Delete => c.(mem := c.mem[c.pos := c.t.erase])
    case MoveTo(x, y) => Move(c, x, y)
    case EraseScreen(mode) => DoEraseScreen(c, mode)
    case EraseLine(mode) => DoEraseLine(c, mode)
    case InsertLines(n) => Times(c, n, action)
    case DeleteLines(n) => Times(c, n, action)
    case DeleteChars(n) => Times(c, n, action)
    case InsertChars(n) => Times(c, n, action)
  }

  function Write(c: Console, ch: Byte): Console
    requires Inv(c)
  {
    ParseOk(c.t, ch);
    var p := Parse(c.t, ch);
    Do(c.(t := p.t), p.action)
  }

  function WriteAll(c: Console, bytes: seq<Byte>): Console
    requires Inv(c)
    decreases |bytes|
  {
    if bytes == [] then c
    else
      WriteInv(c, bytes[0]);
      WriteAll(Write(c, bytes[0]), bytes[1..])
  }

  // ---------- Every byte stream keeps the window in video memory ----------

  /** The parser leaves the cursor alone. */
  lemma ParseOk(t: Term, ch: Byte)
    requires TermOk(t)
    ensures var p := Parse(t, ch); TermOk(p.t) && p.t.x == t.x && p.t.y == t.y
  {
    hide StyleFrom;
    var u := t.(args := seq(ARG_NR, _ => 0), argc := 0, phase := Arg, ques := ch == 0x3F);
    ArgThenCsiOk(u, ch);
    if t.phase.Arg? {
      ArgThenCsiOk(t, ch);
    }
  }

  lemma ArgThenCsiOk(t: Term, ch: Byte)
    requires TermOk(t)
    ensures var p := ArgThenCsi(t, ch); TermOk(p.t) && p.t.x == t.x && p.t.y == t.y
  {
    hide StyleFrom;
  }

  lemma ScrollUpInv(c: Console)
    requires Inv(c)
    ensures Inv(ScrollUp(c)) && ScrollUp(c).t == c.t
  {
    hide Fill, Copy;
  }

  lemma LfInv(c: Console)
    requires Inv(c)
    ensures Inv(Lf(c))
  {
    hide ScrollUp;
    ScrollUpInv(c);
  }

  lemma NextRowInv(c: Console)
    requires c.t.x >= WIDTH && c.screen + WIDTH <= c.pos && Inv(c.(pos := c.pos - WIDTH, t := c.t.(x := c.t.x - WIDTH)))
    ensures Inv(NextRow(c)) && NextRow(c).t.x == c.t.x - WIDTH
  {
    hide Lf;
    LfInv(c.(pos := c.pos - WIDTH, t := c.t.(x := c.t.x - WIDTH)));
    LfKeepsX(c.(pos := c.pos - WIDTH, t := c.t.(x := c.t.x - WIDTH)));
  }

  lemma LfKeepsX(c: Console)
    requires Inv(c)
    ensures Lf(c).t.x == c.t.x
  {
    hide ScrollUp;
    ScrollUpInv(c);
  }

  lemma DoInv(c: Console, action: Action)
    requires Inv(c)
    ensures Inv(Do(c, action))
  {
    hide Lf, NextRow, Fill, Copy, Times;
    match action {
      case LineFeed => LfInv(c);
      case NewLine => LfInv(c);
      case Put(_) =>
        if c.t.x >= WIDTH {
          NextRowInv(c);
        }
      case Tab =>
        var offset := 8 - c.t.x % 8;
        var d := c.(pos := c.pos + offset, t := c.t.(x := c.t.x + offset));
        if d.t.x >= WIDTH {
          NextRowInv(d);
        }
      case _ =>
    }
  }

  lemma WriteInv(c: Console, ch: Byte)
    requires Inv(c)
    ensures Inv(Write(c, ch))
  {
    hide Do, Parse;
    ParseOk(c.t, ch);
    var p := Parse(c.t, ch);
    DoInv(c.(t := p.t), p.action);
  }

  /** For every input the window and the cursor stay inside video memory, the cursor where its
      coordinates say. */
  lemma {:induction false} WriteAllInv(c: Console, bytes: seq<Byte>)
    requires Inv(c)
    ensures Inv(WriteAll(c, bytes))
    decreases |bytes|
  {
    hide Write, Inv;
    if bytes == [] {
    } else {
      WriteInv(c, bytes[0]);
      WriteAllInv(Write(c, bytes[0]), bytes[1..]);
    }
  }
}
