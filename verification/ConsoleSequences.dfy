/** Control sequences of ECMA-48 as byte streams, numbers in decimal, and what they do to the
    screen (src/kernel/console.c). */
module ConsoleSequences {
  import opened Unsigned
  import opened Consoles
  import opened ConsoleGrids

  const ESC: Byte := 0x1B
  const BRACKET: Byte := 0x5B
  const SEMICOLON: Byte := 0x3B

  /** A number written in decimal. */
  function Decimal(n: nat): (s: seq<Byte>)
    ensures |s| > 0 && forall i | 0 <= i < |s| :: 0x30 <= s[i] <= 0x39
    decreases n
  {
    if n < 10 then [0x30 + n] else Decimal(n / 10) + [0x30 + n % 10]
  }

  /** The bytes `s` only change what the parser remembers: from grid `g` they lead to the same
      cells with term `t`. */
  ghost predicate Reads(g: Grid, s: seq<Byte>, t: Term)
    requires Valid(g)
  {
    ShowAll(g, s) == g.(t := t)
  }

  lemma {:induction false} ShowJoin(g: Grid, a: seq<Byte>, b: seq<Byte>)
    requires Valid(g)
    ensures ShowAll(g, a + b) == ShowAll(ShowAll(g, a), b)
    decreases |a|
  {
    hide Show, Parse;
    if a == [] {
      assert a + b == b;
    } else {
      assert (a + b)[0] == a[0] && (a + b)[1..] == a[1..] + b;
      ShowJoin(Show(g, a[0]), a[1..], b);
    }
  }

  lemma ReadOne(g: Grid, ch: Byte, t: Term)
    requires Valid(g) && Parse(g.t, ch) == Parsed(t, Nothing)
    ensures Reads(g, [ch], t) && Valid(g.(t := t))
  {
    hide Parse;
    ParseOk(g.t, ch);
    assert [ch][1..] == [];
    assert ShowAll(Show(g, ch), []) == Show(g, ch);
  }

  lemma ReadsJoin(g: Grid, a: seq<Byte>, t: Term, b: seq<Byte>, u: Term)
    requires Valid(g) && Reads(g, a, t) && Valid(g.(t := t)) && Reads(g.(t := t), b, u)
    ensures Reads(g, a + b, u)
  {
    hide Show, Parse;
    ShowJoin(g, a, b);
    assert g.(t := t).(t := u) == g.(t := u);
  }

  /** The parser within a control sequence, its arguments cleared, about to read the first. */
  predicate InArguments(t: Term) {
    t.phase.Arg? && t.argc < ARG_NR && |t.args| == ARG_NR && t.args[t.argc] == 0
  }

  /** Decimal digits are read as the number they stand for. */
  lemma {:induction false} ReadsDecimal(g: Grid, n: Word32)
    requires Valid(g) && InArguments(g.t)
    ensures var t := g.t.(args := g.t.args[g.t.argc := n]);
      Reads(g, Decimal(n), t) && Valid(g.(t := t))
    decreases n
  {
    hide Reads;
    var k := g.t.argc;
    if n < 10 {
      ReadOne(g, 0x30 + n, g.t.(args := g.t.args[k := n]));
    } else {
      var m: nat := n / 10;
      ReadsDecimal(g, m);
      var t := g.t.(args := g.t.args[k := m]);
      var u := g.t.(args := g.t.args[k := n]);
      assert t.args[k := n] == g.t.args[k := n];
      assert m * 10 + n % 10 == n;
      ReadOne(g.(t := t), 0x30 + n % 10, u);
      ReadsJoin(g, Decimal(m), t, [0x30 + n % 10], u);
      assert g.(t := t).(t := u) == g.(t := u);
    }
  }

  /** The term after `ESC [`, and with the arguments cleared. */
  function Opened(t: Term): Term {
    t.(phase := Que)
  }

  function Begun(t: Term): Term {
    t.(args := seq(ARG_NR, _ => 0), argc := 0, phase := Arg, ques := false)
  }

  lemma ReadsIntroducer(g: Grid)
    requires Valid(g) && g.t.phase.Normal?
    ensures Reads(g, [ESC, BRACKET], Opened(g.t)) && Valid(g.(t := Opened(g.t)))
  {
    hide Reads;
    var t := g.t.(phase := Esc);
    ReadOne(g, ESC, t);
    ReadOne(g.(t := t), BRACKET, Opened(g.t));
    ReadsJoin(g, [ESC], t, [BRACKET], Opened(g.t));
    assert [ESC] + [BRACKET] == [ESC, BRACKET];
  }

  /** The first byte after `ESC [` clears the arguments and is then read as the others are. */
  lemma {:induction false} FirstClears(g: Grid, s: seq<Byte>)
    requires Valid(g) && g.t.phase.Que? && s != [] && s[0] != 0x3F
    requires Valid(g.(t := Begun(g.t)))
    ensures ShowAll(g, s) == ShowAll(g.(t := Begun(g.t)), s)
  {
    hide ArgThenCsi, DoGrid;
    assert Parse(g.t, s[0]) == Parse(Begun(g.t), s[0]);
    assert Show(g, s[0]) == Show(g.(t := Begun(g.t)), s[0]);
  }

  /** A control sequence with the given arguments, each in decimal. */
  function Csi(args: seq<Word32>, final: Byte): seq<Byte>
    requires args != []
  {
    [ESC, BRACKET] + Arguments(args) + [final]
  }

  function Arguments(args: seq<Word32>): (s: seq<Byte>)
    requires args != []
    ensures |s| > 0 && s[0] != 0x3F
  {
    if |args| == 1 then Decimal(args[0]) else Decimal(args[0]) + [SEMICOLON] + Arguments(args[1..])
  }

  /** The term when the arguments are read, and the last is still open. */
  function WithArgs(t: Term, args: seq<Word32>): Term
    requires |t.args| == ARG_NR && t.argc + |args| <= ARG_NR && args != []
    decreases |args|
  {
    var u := t.(args := t.args[t.argc := args[0]]);
    if |args| == 1 then u else WithArgs(u.(argc := u.argc + 1), args[1..])
  }

  lemma {:induction false} ReadsArguments(g: Grid, args: seq<Word32>)
    requires Valid(g) && g.t.phase.Arg? && args != [] && g.t.argc + |args| <= ARG_NR
    requires forall k | g.t.argc <= k < ARG_NR :: g.t.args[k] == 0
    ensures Reads(g, Arguments(args), WithArgs(g.t, args)) && Valid(g.(t := WithArgs(g.t, args)))
    ensures WithArgs(g.t, args).phase.Arg?
    decreases |args|
  {
    hide Reads;
    ReadsDecimal(g, args[0]);
    var t := g.t.(args := g.t.args[g.t.argc := args[0]]);
    if |args| == 1 {
    } else {
      var u := t.(argc := t.argc + 1);
      ReadOne(g.(t := t), SEMICOLON, u);
      ReadsJoin(g, Decimal(args[0]), t, [SEMICOLON], u);
      ReadsArguments(g.(t := u), args[1..]);
      ReadsJoin(g, Decimal(args[0]) + [SEMICOLON], u, Arguments(args[1..]), WithArgs(u, args[1..]));
    }
  }

  /** What a whole control sequence does: the final byte acts with exactly the given arguments,
      whatever was in the parser before. */
  lemma CsiActs(g: Grid, args: seq<Word32>, final: Byte)
    requires Valid(g) && g.t.phase.Normal? && 0 < |args| <= ARG_NR
    requires final != SEMICOLON && !(0x30 <= final <= 0x39)
    ensures |WithArgs(Begun(g.t), args).args| == ARG_NR && WithArgs(Begun(g.t), args).argc < ARG_NR
    ensures var t := WithArgs(Begun(g.t), args);
      var p := InCsi(t.(argc := t.argc + 1), final);
      && Valid(g.(t := p.t))
      && ShowAll(g, Csi(args, final)) == DoGrid(g.(t := p.t), p.action)
  {
    hide Reads, DoGrid;
    var b := g.(t := Begun(g.t));
    ReadsIntroducer(g);
    ReadsArguments(b, args);
    var t := WithArgs(b.t, args);
    ArgsCount(b.t, args);
    var h := g.(t := t);
    assert b.(t := t) == h;
    var p := InCsi(t.(argc := t.argc + 1), final);
    assert Parse(t, final) == p;
    FinalActs(h, final);
    var s := Arguments(args) + [final];
    ReadThen(b, Arguments(args), t, [final]);
    assert s[0] != 0x3F;
    FirstClears(g.(t := Opened(g.t)), s);
    assert g.(t := Opened(g.t)).(t := Begun(Opened(g.t))) == b;
    ReadThen(g, [ESC, BRACKET], Opened(g.t), s);
    assert [ESC, BRACKET] + s == Csi(args, final);
  }

  lemma {:induction false} ArgsCount(t: Term, args: seq<Word32>)
    requires |t.args| == ARG_NR && t.argc + |args| <= ARG_NR && args != []
    ensures var u := WithArgs(t, args);
      && |u.args| == ARG_NR && u.argc == t.argc + |args| - 1
      && (forall k | 0 <= k < |args| :: u.args[t.argc + k] == args[k])
      && (forall k | 0 <= k < ARG_NR && !(t.argc <= k < t.argc + |args|) :: u.args[k] == t.args[k])
      && u.x == t.x && u.y == t.y && u.erase == t.erase && u.style == t.style
    decreases |args|
  {
    var u := t.(args := t.args[t.argc := args[0]]);
    if |args| == 1 {
    } else {
      ArgsCount(u.(argc := u.argc + 1), args[1..]);
      var v := WithArgs(t, args);
      forall k | 0 <= k < |args| ensures v.args[t.argc + k] == args[k] {
        if k > 0 {
          assert v.args[u.argc + 1 + (k - 1)] == args[1..][k - 1];
        }
      }
    }
  }

  lemma FinalActs(h: Grid, final: Byte)
    requires Valid(h)
    ensures Valid(h.(t := Parse(h.t, final).t))
    ensures ShowAll(h, [final]) == DoGrid(h.(t := Parse(h.t, final).t), Parse(h.t, final).action)
  {
    hide Parse, DoGrid;
    ParseOk(h.t, final);
    assert [final][1..] == [];
    assert ShowAll(Show(h, final), []) == Show(h, final);
  }

  lemma ReadThen(g: Grid, a: seq<Byte>, t: Term, b: seq<Byte>)
    requires Valid(g) && Reads(g, a, t) && Valid(g.(t := t))
    ensures ShowAll(g, a + b) == ShowAll(g.(t := t), b)
  {
    hide Show, Parse;
    ShowJoin(g, a, b);
  }

  // ---------- Single functions ----------

  /** The cursor at a place, if there is such a place. */
  ghost predicate CursorAt(g: Grid, h: Grid, x: int, y: int) {
    && h.cells == g.cells
    && (h.t.x, h.t.y) == (if 0 <= x <= WIDTH && 0 <= y < HEIGHT then (x as nat, y as nat) else (g.t.x, g.t.y))
  }

  /** CUP (section 8.3.21): line and column count from one. */
  lemma CursorPosition(g: Grid, line: Word32, column: Word32)
    requires Valid(g) && g.t.phase.Normal? && line > 0 && column > 0
    ensures CursorAt(g, ShowAll(g, Csi([line, column], 0x48)), column - 1, line - 1)
  {
    hide ShowAll;
    CsiActs(g, [line, column], 0x48);
    ArgsCount(Begun(g.t), [line, column]);
    assert WithArgs(Begun(g.t), [line, column]).args[0 + 1] == column;
  }

  /** CUU, CUD, CUF and CUB (sections 8.3.22, 8.3.19, 8.3.20 and 8.3.18), CNL and CPL (8.3.12 and
      8.3.13), CHA (8.3.9) and VPA (8.3.158): a move that would leave the screen is not made. */
  function Target(t: Term, n: int, final: Byte): (int, int) {
    if final == 0x41 then (t.x, t.y - n)
    else if final == 0x42 then (t.x, t.y + n)
    else if final == 0x43 then (t.x + n, t.y)
    else if final == 0x44 then (t.x - n, t.y)
    else if final == 0x45 then (0, t.y + n)
    else if final == 0x46 then (0, t.y - n)
    else if final == 0x47 then (n - 1, t.y)
    else (t.x, n - 1)
  }

  /** For every argument: the place counted as the code counts, modulo 2^32. */
  lemma CursorMoves(g: Grid, n: Word32, final: Byte)
    requires Valid(g) && g.t.phase.Normal? && (0x41 <= final <= 0x47 || final == 0x64)
    ensures var to := Target(g.t, OneIfZero(n), final); CursorAt(g, ShowAll(g, Csi([n], final)), Wrap(to.0), Wrap(to.1))
  {
    hide ShowAll, DoGrid, InCsi, Wrap;
    CsiActs(g, [n], final);
    ArgsCount(Begun(g.t), [n]);
    var t := WithArgs(Begun(g.t), [n]);
    assert t.args[0 + 0] == n;
    FinalMoves(g, t.(argc := t.argc + 1), n, final);
  }

  lemma Wraps(a: int)
    requires -0x1_0000_0000 <= a < 0x2_0000_0000
    ensures Wrap(a) == if a < 0 then a + 0x1_0000_0000 else if a < 0x1_0000_0000 then a else a - 0x1_0000_0000
  {
  }

  /** The final bytes of the cursor functions, each as one move. */
  lemma FinalIs(t: Term, n: Word32, final: Byte)
    requires |t.args| == ARG_NR && t.args[0] == n && t.x <= WIDTH && t.y < HEIGHT
    requires 0x41 <= final <= 0x47 || final == 0x64
    ensures var to := Target(t, OneIfZero(n), final);
      InCsi(t, final) == Parsed(t.(phase := Normal), MoveTo(Wrap(to.0), Wrap(to.1)))
  {
    hide StyleFrom, Wrap;
    Wraps(0);
    Wraps(LessOne(n));
    assert LessOne(n) == OneIfZero(n) - 1;
  }

  lemma FinalMoves(g: Grid, t: Term, n: Word32, final: Byte)
    requires Valid(g) && |t.args| == ARG_NR && t.args[0] == n && t.x == g.t.x && t.y == g.t.y
    requires (0x41 <= final <= 0x47 || final == 0x64) && Valid(g.(t := InCsi(t, final).t))
    ensures var p := InCsi(t, final);
      var to := Target(g.t, OneIfZero(n), final);
      CursorAt(g, DoGrid(g.(t := p.t), p.action), Wrap(to.0), Wrap(to.1))
  {
    hide InCsi, Wrap;
    FinalIs(t, n, final);
  }

  /** ED and EL (sections 8.3.39 and 8.3.41): the part after the cursor, the part before it or all,
      of the screen or of the line.  Unlike the standard the part before does not hold the
      cursor's own place. */
  lemma Erases(g: Grid, n: Word32, line: bool, i: nat)
    requires Valid(g) && g.t.phase.Normal? && i < WINDOW
    ensures var s := Csi([n], if line then 0x4B else 0x4A);
      && var h := ShowAll(g, s);
      && |h.cells| == WINDOW && h.t.x == g.t.x && h.t.y == g.t.y
      && h.cells[i] ==
        if (line ==> i / WIDTH == g.t.y) && ((n == 0 && g.At() <= i) || (n == 1 && i < g.At()) || n == 2)
        then g.t.erase else g.cells[i]
  {
    hide ShowAll;
    CsiActs(g, [n], if line then 0x4B else 0x4A);
    ArgsCount(Begun(g.t), [n]);
    assert WithArgs(Begun(g.t), [n]).args[0 + 0] == n;
  }

  // ---------- Which sequences end ----------

  /** The parser alone. */
  function ParseAll(t: Term, bytes: seq<Byte>): (r: Term)
    requires TermOk(t)
    ensures TermOk(r)
    decreases |bytes|
  {
    if bytes == [] then t
    else
      ParseOk(t, bytes[0]);
      ParseAll(Parse(t, bytes[0]).t, bytes[1..])
  }

  /** Terms that parse alike. */
  predicate ParsesAlike(t: Term, u: Term) {
    t.phase == u.phase && t.args == u.args && t.argc == u.argc
  }

  lemma CsiKeeps(t: Term, ch: Byte)
    requires |t.args| == ARG_NR
    ensures ParsesAlike(InCsi(t, ch).t, t.(phase := Normal))
  {
    hide StyleFrom;
  }

  lemma EscKeeps(t: Term, ch: Byte)
    ensures ParsesAlike(InEsc(t, ch).t, if ch == BRACKET then t.(phase := Que) else t)
  {
  }

  lemma NormalKeeps(t: Term, ch: Byte)
    ensures ParsesAlike(InNormal(t, ch).t, if ch == ESC then t.(phase := Esc) else t)
  {
  }

  /** What the parser remembers after a byte, from what it remembered before. */
  function NextArg(args: seq<Word32>, argc: nat, ch: Byte): (Phase, seq<Word32>, nat)
    requires |args| == ARG_NR
  {
    if argc >= ARG_NR then (Arg, args, argc)
    else if ch == SEMICOLON then (Arg, args, argc + 1)
    else if 0x30 <= ch <= 0x39 then (Arg, args[argc := Wrap(args[argc] * 10 + (ch - 0x30))], argc)
    else (Normal, args, argc + 1)
  }

  function NextPhase(phase: Phase, args: seq<Word32>, argc: nat, ch: Byte): (Phase, seq<Word32>, nat)
    requires |args| == ARG_NR
  {
    match phase
    case Normal => (if ch == ESC then Esc else Normal, args, argc)
    case Esc => (if ch == BRACKET then Que else Esc, args, argc)
    case Que => if ch == 0x3F then (Arg, seq(ARG_NR, _ => 0), 0) else NextArg(seq(ARG_NR, _ => 0), 0, ch)
    case Arg => NextArg(args, argc, ch)
  }

  lemma ArgNext(t: Term, ch: Byte)
    requires |t.args| == ARG_NR && t.phase.Arg?
    ensures var u := ArgThenCsi(t, ch).t; (u.phase, u.args, u.argc) == NextArg(t.args, t.argc, ch)
  {
    hide InCsi, Wrap, StyleFrom;
    var r := InArg(t, ch);
    if r.1 {
      CsiKeeps(r.0, ch);
      assert ParsesAlike(r.0.(phase := Normal), t.(phase := Normal, argc := t.argc + 1));
    } else {
      assert ArgThenCsi(t, ch).t == r.0;
    }
  }

  lemma ParseNext(t: Term, ch: Byte)
    requires TermOk(t)
    ensures var u := Parse(t, ch).t; (u.phase, u.args, u.argc) == NextPhase(t.phase, t.args, t.argc, ch)
  {
    hide ArgThenCsi, InEsc, InNormal, NextArg;
    match t.phase {
      case Normal => NormalKeeps(t, ch);
      case Esc => EscKeeps(t, ch);
      case Que => ArgNext(t.(args := seq(ARG_NR, _ => 0), argc := 0, phase := Arg, ques := ch == 0x3F), ch);
      case Arg => ArgNext(t, ch);
    }
  }

  lemma ParseAlike(t: Term, u: Term, ch: Byte)
    requires TermOk(t) && TermOk(u) && ParsesAlike(t, u)
    ensures ParsesAlike(Parse(t, ch).t, Parse(u, ch).t)
  {
    hide Parse, NextPhase;
    ParseNext(t, ch);
    ParseNext(u, ch);
  }

  lemma DoAlike(c: Console, action: Action)
    requires Inv(c)
    ensures Inv(Do(c, action)) && ParsesAlike(Do(c, action).t, c.t)
  {
    hide Fill, Copy, Times;
    DoInv(c, action);
  }

  /** What is done to the screen does not touch the parser. */
  lemma {:induction false} WriteParses(c: Console, bytes: seq<Byte>, t: Term)
    requires Inv(c) && TermOk(t) && ParsesAlike(c.t, t)
    ensures ParsesAlike(WriteAll(c, bytes).t, ParseAll(t, bytes))
    decreases |bytes|
  {
    hide Do, Parse;
    if bytes == [] {
    } else {
      ParseOk(c.t, bytes[0]);
      ParseOk(t, bytes[0]);
      var p := Parse(c.t, bytes[0]);
      ParseAlike(c.t, t, bytes[0]);
      assert Inv(c.(t := p.t));
      DoAlike(c.(t := p.t), p.action);
      WriteParses(Write(c, bytes[0]), bytes[1..], Parse(t, bytes[0]).t);
    }
  }

  lemma {:induction false} ParseJoin(t: Term, a: seq<Byte>, b: seq<Byte>)
    requires TermOk(t)
    ensures ParseAll(t, a + b) == ParseAll(ParseAll(t, a), b)
    decreases |a|
  {
    hide Parse;
    if a == [] {
      assert a + b == b;
    } else {
      assert (a + b)[0] == a[0] && (a + b)[1..] == a[1..] + b;
      ParseOk(t, a[0]);
      ParseJoin(Parse(t, a[0]).t, a[1..], b);
    }
  }

  /** The parameter string of a control sequence: digits and `;`. */
  predicate Parameters(s: seq<Byte>) {
    forall i | 0 <= i < |s| :: s[i] == SEMICOLON || 0x30 <= s[i] <= 0x39
  }

  function Semicolons(s: seq<Byte>): nat {
    if s == [] then 0 else (if s[0] == SEMICOLON then 1 else 0) + Semicolons(s[1..])
  }

  lemma ParameterOnce(t: Term, ch: Byte)
    requires TermOk(t) && t.phase.Arg? && (ch == SEMICOLON || 0x30 <= ch <= 0x39)
    ensures var u := Parse(t, ch).t;
      u.phase.Arg? && u.argc == if ch == SEMICOLON && t.argc < ARG_NR then t.argc + 1 else t.argc
  {
    hide StyleFrom;
  }

  lemma {:induction false} ParametersCount(t: Term, s: seq<Byte>)
    requires TermOk(t) && t.phase.Arg? && Parameters(s)
    ensures var u := ParseAll(t, s);
      u.phase.Arg? && u.argc == if t.argc + Semicolons(s) < ARG_NR then t.argc + Semicolons(s) else ARG_NR
    decreases |s|
  {
    hide Parse;
    if s == [] {
    } else {
      ParseOk(t, s[0]);
      ParameterOnce(t, s[0]);
      ParametersCount(Parse(t, s[0]).t, s[1..]);
    }
  }

  lemma FinalParsed(t: Term, final: Byte)
    requires TermOk(t) && t.phase.Arg? && final != SEMICOLON && !(0x30 <= final <= 0x39)
    ensures var u := ParseAll(t, [final]);
      if t.argc < ARG_NR then u.phase.Normal? else u == t
  {
    hide InCsi;
    ParseOk(t, final);
    CsiKeeps(InArg(t, final).0, final);
    var u := Parse(t, final).t;
    assert [final][1..] == [];
    assert ParseAll(u, []) == u;
  }

  lemma IntroducerParsed(t: Term)
    requires TermOk(t) && t.phase.Normal?
    ensures ParseAll(t, [ESC, BRACKET]) == Opened(t)
  {
    assert [ESC, BRACKET][1..] == [BRACKET] && [BRACKET][1..] == [];
    ParseOk(t, ESC);
    ParseOk(t.(phase := Esc), BRACKET);
    assert Parse(t, ESC).t == t.(phase := Esc);
    assert Parse(t.(phase := Esc), BRACKET).t == Opened(t);
    assert ParseAll(Opened(t), []) == Opened(t);
  }

  lemma FirstParsed(t: Term, s: seq<Byte>)
    requires TermOk(t) && t.phase.Que? && s != [] && s[0] != 0x3F
    ensures TermOk(Begun(t)) && ParseAll(t, s) == ParseAll(Begun(t), s)
  {
    hide ArgThenCsi;
    ParseOk(t, s[0]);
    assert Parse(t, s[0]) == Parse(Begun(t), s[0]);
  }

  lemma SequenceParsed(t: Term, s: seq<Byte>, final: Byte)
    requires TermOk(t) && t.phase.Normal? && Parameters(s)
    requires final != SEMICOLON && !(0x30 <= final <= 0x39) && final != 0x3F
    ensures var u := ParseAll(t, [ESC, BRACKET] + s + [final]);
      if Semicolons(s) < ARG_NR then u.phase.Normal? else u.phase.Arg? && u.argc == ARG_NR
  {
    hide Parse;
    IntroducerParsed(t);
    assert [ESC, BRACKET] + s + [final] == [ESC, BRACKET] + (s + [final]);
    ParseJoin(t, [ESC, BRACKET], s + [final]);
    FirstParsed(Opened(t), s + [final]);
    var b := Begun(Opened(t));
    ParseJoin(b, s, [final]);
    ParametersCount(b, s);
    FinalParsed(ParseAll(b, s), final);
  }

  /** Whatever its parameters and its final byte, a control sequence brings the console back to
      plain input exactly when it has fewer than sixteen `;`.  With more the console is stuck: it
      ignores everything that is written afterwards. */
  lemma SequenceEnds(c: Console, s: seq<Byte>, final: Byte, rest: seq<Byte>)
    requires Inv(c) && c.t.phase.Normal? && Parameters(s)
    requires final != SEMICOLON && !(0x30 <= final <= 0x39) && final != 0x3F
    ensures var d := WriteAll(c, [ESC, BRACKET] + s + [final]);
      && (d.t.phase.Normal? <==> Semicolons(s) < ARG_NR)
      && Inv(d) && (!d.t.phase.Normal? ==> WriteAll(d, rest) == d)
  {
    hide ParseAll, Parse, WriteAll, Write;
    var bytes := [ESC, BRACKET] + s + [final];
    WriteAllInv(c, bytes);
    WriteParses(c, bytes, c.t);
    SequenceParsed(c.t, s, final);
    var d := WriteAll(c, bytes);
    if !d.t.phase.Normal? {
      StuckForever(d, rest);
    }
  }

  lemma {:induction false} SemicolonsJoin(a: seq<Byte>, b: seq<Byte>)
    ensures Semicolons(a + b) == Semicolons(a) + Semicolons(b)
    decreases |a|
  {
    if a == [] {
      assert a + b == b;
    } else {
      assert (a + b)[0] == a[0] && (a + b)[1..] == a[1..] + b;
      SemicolonsJoin(a[1..], b);
    }
  }

  lemma {:induction false} NoSemicolons(s: seq<Byte>)
    requires forall i | 0 <= i < |s| :: 0x30 <= s[i] <= 0x39
    ensures Semicolons(s) == 0
    decreases |s|
  {
    if s == [] {
    } else {
      NoSemicolons(s[1..]);
    }
  }

  lemma {:induction false} ArgumentsAre(args: seq<Word32>)
    requires args != []
    ensures Parameters(Arguments(args)) && Semicolons(Arguments(args)) == |args| - 1
    decreases |args|
  {
    NoSemicolons(Decimal(args[0]));
    if |args| == 1 {
    } else {
      ArgumentsAre(args[1..]);
      SemicolonsJoin(Decimal(args[0]) + [SEMICOLON], Arguments(args[1..]));
      SemicolonsJoin(Decimal(args[0]), [SEMICOLON]);
      assert [SEMICOLON][1..] == [];
    }
  }

  /** For any list of arguments: the sequence ends exactly when there are at most sixteen. */
  lemma ArgumentsEnd(c: Console, args: seq<Word32>, final: Byte)
    requires Inv(c) && c.t.phase.Normal? && args != []
    requires final != SEMICOLON && !(0x30 <= final <= 0x39) && final != 0x3F
    ensures WriteAll(c, Csi(args, final)).t.phase.Normal? <==> |args| <= ARG_NR
  {
    ArgumentsAre(args);
    SequenceEnds(c, Arguments(args), final, []);
  }

  // ---------- Escape sequences do not end ----------

  lemma EscapeOnce(c: Console, ch: Byte)
    requires Inv(c) && c.t.phase.Esc?
    ensures Inv(Write(c, ch)) && (Write(c, ch).t.phase.Esc? <==> ch != BRACKET)
  {
    hide Do, Parse, NextPhase;
    WriteInv(c, ch);
    ParseOk(c.t, ch);
    ParseNext(c.t, ch);
    var p := Parse(c.t, ch);
    DoAlike(c.(t := p.t), p.action);
    EscapePhase(c.t.args, c.t.argc, ch);
  }

  lemma EscapePhase(args: seq<Word32>, argc: nat, ch: Byte)
    requires |args| == ARG_NR
    ensures NextPhase(Esc, args, argc, ch).0.Esc? <==> ch != BRACKET
  {
  }

  /** A stream leaves the console within the escape sequence after each of its bytes exactly when no
      `[` is among them: no other byte ends it, not even one that does something, such as the `E`
      of `ESC E`, which for the standard is the whole of it (section 5.3 of ECMA-48). */
  lemma {:induction false} EscapeStays(c: Console, bytes: seq<Byte>)
    requires Inv(c) && c.t.phase.Esc?
    ensures (forall n | 0 <= n <= |bytes| :: WriteAll(c, bytes[..n]).t.phase.Esc?) <==> BRACKET !in bytes
    decreases |bytes|
  {
    hide Write, Inv;
    if bytes == [] {
      assert bytes[..0] == [];
    } else {
      EscapeOnce(c, bytes[0]);
      var d, rest := Write(c, bytes[0]), bytes[1..];
      forall n | 0 < n <= |bytes| ensures WriteAll(c, bytes[..n]) == WriteAll(d, rest[..n - 1]) {
        assert bytes[..n][0] == bytes[0] && bytes[..n][1..] == rest[..n - 1];
      }
      assert bytes == [bytes[0]] + rest;
      if bytes[0] == BRACKET {
        assert rest[..0] == [];
        assert !WriteAll(c, bytes[..1]).t.phase.Esc?;
      } else {
        EscapeStays(d, rest);
        assert bytes[..0] == [];
        if BRACKET in rest {
          var n :| 0 <= n <= |rest| && !WriteAll(d, rest[..n]).t.phase.Esc?;
          assert !WriteAll(c, bytes[..n + 1]).t.phase.Esc?;
        }
      }
    }
  }

  /** So text after a saved cursor (`ESC 7`) is lost: from plain input, `ESC 7` and then any bytes
      but the five that are known leave everything on the screen as it was. */
  lemma SavedThenLost(c: Console, text: seq<Byte>)
    requires Inv(c) && c.t.phase.Normal? && forall i | 0 <= i < |text| :: !KnownInEscape(text[i])
    ensures WriteAll(c, [ESC, 0x37] + text) == c.(t := c.t.(phase := Esc, savedX := c.t.x, savedY := c.t.y))
  {
    var d := c.(t := c.t.(phase := Esc));
    var e := c.(t := c.t.(phase := Esc, savedX := c.t.x, savedY := c.t.y));
    assert Write(c, ESC) == d && Write(d, 0x37) == e;
    assert ([ESC, 0x37] + text)[0] == ESC && ([ESC, 0x37] + text)[1..] == [0x37] + text;
    assert ([0x37] + text)[0] == 0x37 && ([0x37] + text)[1..] == text;
    hide Write;
    EscapeSwallows(e, text);
  }

  // ---------- Erasing up to the cursor ----------

  /** What ED and EL ask for (sections 8.3.39 and 8.3.41): the part before the cursor holds the
      cursor's own place, unless the cursor stands behind the row. */
  function Asked(g: Grid, n: Word32, line: bool): (h: Grid)
    requires Valid(g)
    ensures Valid(h)
  {
    g.(cells := seq(WINDOW, i requires 0 <= i < WINDOW =>
      if (line ==> i / WIDTH == g.t.y)
         && ((n == 0 && g.At() <= i) || (n == 1 && (i < g.At() || (i == g.At() && g.t.x < WIDTH))) || n == 2)
      then g.t.erase else g.cells[i]))
  }

  /** The console does what they ask for exactly when it is not asked for the part before the
      cursor, or the cursor's own place was blank already. */
  lemma ErasesExact(g: Grid, n: Word32, line: bool)
    requires Valid(g) && g.t.phase.Normal?
    ensures var s := Csi([n], if line then 0x4B else 0x4A);
      && (ShowAll(g, s).cells == Asked(g, n, line).cells <==>
            (n == 1 && g.t.x < WIDTH ==> g.cells[g.At()] == g.t.erase))
  {
    hide ShowAll;
    var s := Csi([n], if line then 0x4B else 0x4A);
    forall i: nat | i < WINDOW
      ensures |ShowAll(g, s).cells| == WINDOW
      ensures ShowAll(g, s).cells[i] ==
        if (line ==> i / WIDTH == g.t.y) && ((n == 0 && g.At() <= i) || (n == 1 && i < g.At()) || n == 2)
        then g.t.erase else g.cells[i]
    {
      Erases(g, n, line, i);
    }
    Erases(g, n, line, 0);
    var cells, asked := ShowAll(g, s).cells, Asked(g, n, line).cells;
    if n == 1 && g.t.x < WIDTH {
      assert g.At() / WIDTH == g.t.y;
      assert cells[g.At()] == g.cells[g.At()] && asked[g.At()] == g.t.erase;
    }
    if n == 1 && g.t.x < WIDTH ==> g.cells[g.At()] == g.t.erase {
      assert cells == asked;
    }
  }

  /** A letter under the cursor stays: on a cleared screen, `A`, a carriage return and `ESC [ 1 K`
      or `ESC [ 1 J`. */
  lemma ErasureMissed(t: Term, line: bool)
    requires TermOk(t) && t.phase.Normal? && t.x == 0 && t.y == 0 && t.erase.ch != 0x41
    ensures var g := Cleared(t);
      && Valid(g)
      && var h := ShowAll(g, [0x41, 0x0D]);
      var s := Csi([1], if line then 0x4B else 0x4A);
      && ShowAll(h, s).cells != Asked(h, 1, line).cells
      && |ShowAll(h, s).cells| == WINDOW && ShowAll(h, s).cells[0].ch == 0x41
  {
    hide ShowAll;
    LetterReturned(t);
    var h := ShowAll(Cleared(t), [0x41, 0x0D]);
    ErasesExact(h, 1, line);
    Erases(h, 1, line, 0);
  }

  // ---------- Cursor functions with huge arguments ----------

  /** The argument that is so huge that the move comes out on the screen after all. */
  predicate TooHuge(t: Term, n: Word32, final: Byte) {
    if final == 0x41 || final == 0x46 then n > 0x1_0000_0000 + t.y - HEIGHT
    else if final == 0x42 || final == 0x45 then n >= 0x1_0000_0000 - t.y
    else if final == 0x43 then n >= 0x1_0000_0000 - t.x
    else if final == 0x44 then n >= 0x1_0000_0000 + t.x - WIDTH
    else false
  }

  /** A cursor function moves to its place, or not at all when that is not on the screen, exactly
      when its argument is not that huge. */
  lemma CursorMovesExact(g: Grid, n: Word32, final: Byte)
    requires Valid(g) && g.t.phase.Normal? && (0x41 <= final <= 0x47 || final == 0x64)
    ensures var to := Target(g.t, OneIfZero(n), final);
      CursorAt(g, ShowAll(g, Csi([n], final)), to.0, to.1) <==> !TooHuge(g.t, n, final)
  {
    hide ShowAll;
    CursorMoves(g, n, final);
    var to := Target(g.t, OneIfZero(n), final);
    Wraps(to.0);
    Wraps(to.1);
  }

  /** `ESC [ 4294967295 A` moves the cursor down. */
  lemma UpMovesDown(g: Grid)
    requires Valid(g) && g.t.phase.Normal? && g.t.y + 1 < HEIGHT
    ensures ShowAll(g, Csi([0xFFFF_FFFF], 0x41)).t.y == g.t.y + 1
  {
    hide ShowAll;
    CursorMoves(g, 0xFFFF_FFFF, 0x41);
    Wraps(g.t.y - 0xFFFF_FFFF);
    Wraps(g.t.x);
  }
}
