/** The arguments of a new program: the stack that `copy_argv_envp` (src/kernel/execve.c) builds,
    read back the way the start-up code does (src/lib/crt.asm, src/lib/crt1.c; section 2.3.1 of
    the i386 System V ABI supplement). */
module ExecArgs {
  import opened Outcomes
  import opened Unsigned

  const STACK_TOP: nat := 0x1000_0000   // USER_STACK_TOP
  const BUFFER: nat := 16384            // four kernel pages
  const POINTERS: nat := 1024           // pointers in one kernel page

  type CString = seq<Byte>

  predicate Proper(s: CString) {
    forall i | 0 <= i < |s| :: s[i] != 0
  }

  predicate AllProper(strs: seq<CString>) {
    forall i | 0 <= i < |strs| :: Proper(strs[i])
  }

  // ---------- The stack image ----------

  /** A word as it lies in memory, low byte first. */
  function Encode(w: Word32): (b: seq<Byte>)
    ensures |b| == 4
  {
    [w % 256, w / 0x100 % 256, w / 0x1_0000 % 256, w / 0x100_0000]
  }

  function Decode(b0: Byte, b1: Byte, b2: Byte, b3: Byte): Word32 {
    var h: int := b1;
    var hh: int := b2;
    var hhh: int := b3;
    b0 + h * 0x100 + hh * 0x1_0000 + hhh * 0x100_0000
  }

  function Words(ws: seq<Word32>): (b: seq<Byte>)
    ensures |b| == 4 * |ws|
  {
    if ws == [] then [] else Encode(ws[0]) + Words(ws[1..])
  }

  /** Strings one behind the other, each with its end. */
  function Cat(strs: seq<CString>): seq<Byte> {
    if strs == [] then [] else strs[0] + [0] + Cat(strs[1..])
  }

  /** The addresses of strings that end `after` bytes below the top of the stack. */
  function Pointers(strs: seq<CString>, after: nat): (p: seq<Word32>)
    requires |Cat(strs)| + after <= STACK_TOP
    ensures |p| == |strs|
  {
    if strs == [] then [] else [STACK_TOP - (|Cat(strs)| + after)] + Pointers(strs[1..], after)
  }

  /** What lies on the stack, from its lowest address: the count, the pointers to the arguments
      and a null, those to the environment and a null, and the strings. */
  function Image(filename: CString, argv: seq<CString>, envp: seq<CString>): seq<Byte>
    requires |Cat([filename] + argv)| + |Cat(envp)| <= BUFFER && |argv| < POINTERS
  {
    var names := [filename] + argv;
    Encode(|names|) + Words(Pointers(names, |Cat(envp)|) + [0]) + Words(Pointers(envp, 0) + [0]) + (Cat(names) + Cat(envp))
  }

  /** The image and the two pointer arrays fit the pages they are built in. */
  predicate Fits(filename: CString, argv: seq<CString>, envp: seq<CString>) {
    && |argv| + |envp| + 3 <= POINTERS
    && 4 * (|argv| + |envp| + 4) + |Cat([filename] + argv)| + |Cat(envp)| < BUFFER
  }

  // ---------- The start-up code ----------

  /** The lowest address of a stack image. */
  function Bottom(data: seq<Byte>): int {
    STACK_TOP - |data|
  }

  function ReadWord(data: seq<Byte>, a: int): Option<Word32> {
    var i := a - Bottom(data);
    if i < 0 || i + 4 > |data| then None
    else Some(Decode(data[i], data[i + 1], data[i + 2], data[i + 3]))
  }

  /** A string from address `a` to its end. */
  function ReadString(data: seq<Byte>, a: int): Option<CString>
    decreases STACK_TOP - a
  {
    var i := a - Bottom(data);
    if i < 0 || i >= |data| then None
    else if data[i] == 0 then Some([])
    else
      match ReadString(data, a + 1)
      case None => None
      case Some(s) => Some([data[i]] + s)
  }

  /** The strings that the pointers from address `a` on point to, up to the null. */
  function ReadArray(data: seq<Byte>, a: int): Option<seq<CString>>
    decreases STACK_TOP - a
  {
    match ReadWord(data, a)
    case None => None
    case Some(p) =>
      if p == 0 then Some([])
      else
        match ReadString(data, p)
        case None => None
        case Some(s) =>
          match ReadArray(data, a + 4)
          case None => None
          case Some(rest) => Some([s] + rest)
  }

  datatype Args = Args(argc: nat, argv: seq<CString>, envp: seq<CString>)

  /** `_start` pops the count; the arguments come next; `__libc_start_main` finds the environment
      one past their null. */
  function StartUp(data: seq<Byte>): Option<Args> {
    match ReadWord(data, Bottom(data))
    case None => None
    case Some(argc) =>
      var argv := Bottom(data) + 4;
      match ReadArray(data, argv)
      case None => None
      case Some(args) =>
        match ReadArray(data, argv + 4 * (argc + 1))
        case None => None
        case Some(env) => Some(Args(argc, args, env))
  }

  // ---------- The round trip ----------

  lemma EncodeDecode(w: Word32)
    ensures var b := Encode(w); Decode(b[0], b[1], b[2], b[3]) == w
  {
    var h := w / 0x100;
    var hh := w / 0x1_0000;
    assert hh == h / 0x100;
    assert w / 0x100_0000 == hh / 0x100;
    assert w == h * 0x100 + w % 256 && h == hh * 0x100 + h % 256 && hh == (hh / 0x100) * 0x100 + hh % 256;
  }

  lemma ReadWordAt(data: seq<Byte>, at: nat, w: Word32)
    requires at + 4 <= |data| && data[at..at + 4] == Encode(w)
    ensures ReadWord(data, Bottom(data) + at) == Some(w)
  {
    hide Encode, Decode;
    EncodeDecode(w);
    var b := data[at..at + 4];
    assert data[at] == b[0] && data[at + 1] == b[1] && data[at + 2] == b[2] && data[at + 3] == b[3];
  }

  lemma {:induction false} ReadStringAt(data: seq<Byte>, at: nat, s: CString)
    requires Proper(s) && at + |s| < |data| && data[at..at + |s|] == s && data[at + |s|] == 0
    ensures ReadString(data, Bottom(data) + at) == Some(s)
    decreases |s|
  {
    if s == [] {
      assert data[at] == 0;
    } else {
      assert data[at] == data[at..at + |s|][0] == s[0];
      assert data[at + 1..at + |s|] == data[at..at + |s|][1..] == s[1..];
      ReadStringAt(data, at + 1, s[1..]);
      assert s == [s[0]] + s[1..];
    }
  }

  /** Pointers in memory and the strings they point to give the strings back. */
  lemma {:induction false} ReadArrayAt(data: seq<Byte>, at: nat, strs: seq<CString>, after: nat)
    requires AllProper(strs) && |Cat(strs)| + after <= |data| < STACK_TOP && at + 4 * |strs| + 4 <= |data|
    requires data[at..at + 4 * |strs| + 4] == Words(Pointers(strs, after) + [0])
    requires data[|data| - |Cat(strs)| - after..|data| - after] == Cat(strs)
    ensures ReadArray(data, Bottom(data) + at) == Some(strs)
    decreases |strs|
  {
    hide ReadWord, ReadString, Encode, Cat;
    var ps := Pointers(strs, after) + [0];
    assert data[at..at + 4] == data[at..at + 4 * |strs| + 4][..4] == Encode(ps[0]);
    ReadWordAt(data, at, ps[0]);
    if strs == [] {
    } else {
      FirstString(data, strs, after);
      assert ps[1..] == Pointers(strs[1..], after) + [0];
      assert data[at + 4..at + 4 + 4 * |strs[1..]| + 4] == data[at..at + 4 * |strs| + 4][4..] == Words(ps[1..]);
      ReadArrayAt(data, at + 4, strs[1..], after);
      assert strs == [strs[0]] + strs[1..];
    }
  }

  lemma FirstString(data: seq<Byte>, strs: seq<CString>, after: nat)
    requires AllProper(strs) && strs != [] && |Cat(strs)| + after <= |data| < STACK_TOP
    requires data[|data| - |Cat(strs)| - after..|data| - after] == Cat(strs)
    ensures ReadString(data, STACK_TOP - (|Cat(strs)| + after)) == Some(strs[0])
    ensures |Cat(strs[1..])| + after <= |data|
    ensures data[|data| - |Cat(strs[1..])| - after..|data| - after] == Cat(strs[1..])
  {
    var s, rest := strs[0], Cat(strs[1..]);
    var from := |data| - |Cat(strs)| - after;
    var part := data[from..|data| - after];
    assert part == s + [0] + rest;
    assert data[from..from + |s|] == part[..|s|] == s;
    assert data[from + |s|] == part[|s|] == 0;
    assert data[from + |s| + 1..|data| - after] == part[|s| + 1..] == rest;
    ReadStringAt(data, from, s);
  }

  /** For all arguments and environments that fit, a new program finds the count, its file name
      followed by the same arguments, and the same environment, in order. */
  lemma StartUpFinds(filename: CString, argv: seq<CString>, envp: seq<CString>)
    requires Fits(filename, argv, envp) && Proper(filename) && AllProper(argv) && AllProper(envp)
    ensures StartUp(Image(filename, argv, envp)) == Some(Args(|argv| + 1, [filename] + argv, envp))
  {
    hide Encode, Words, Cat, Pointers, ReadArray, ReadWord;
    var names := [filename] + argv;
    var e := |Cat(envp)|;
    var data := Image(filename, argv, envp);
    var one, two, strings := Words(Pointers(names, e) + [0]), Words(Pointers(envp, 0) + [0]), Cat(names) + Cat(envp);
    assert data == Encode(|names|) + one + two + strings;
    assert data[0..4] == Encode(|names|);
    ReadWordAt(data, 0, |names|);
    assert data[4..4 + 4 * |names| + 4] == one;
    assert data[|data| - |Cat(names)| - e..|data| - e] == Cat(names) by {
      assert data[|data| - |strings|..] == strings;
      assert data[|data| - |strings|..|data| - e] == strings[..|Cat(names)|];
    }
    ReadArrayAt(data, 4, names, e);
    var at := 4 + 4 * (|names| + 1);
    assert data[at..at + 4 * |envp| + 4] == two;
    assert data[|data| - e - 0..|data| - 0] == Cat(envp);
    ReadArrayAt(data, at, envp, 0);
  }

  // ---------- As it is built ----------

  method CountStrings(strs: seq<CString>) returns (n: nat)
    ensures n == |strs|
  {
    n := 0;
    while n < |strs|
      invariant n <= |strs|
    {
      n := n + 1;
    }
  }

  /** `memcpy` of a string and its end to the bytes below `ktop`. */
  method PutString(buf: array<Byte>, ktop: nat, s: CString) returns (top: nat)
    requires |s| + 1 <= ktop <= buf.Length
    modifies buf
    ensures top == ktop - |s| - 1 && buf[top..] == s + [0] + old(buf[ktop..]) 
  {
    ghost var rest := buf[ktop..];
    top := ktop - (|s| + 1);
    var i := 0;
    while i < |s|
      invariant 0 <= i <= |s| && buf[top..top + i] == s[..i] && buf[ktop..] == rest
    {
      ghost var done := buf[top..top + i];
      buf[top + i] := s[i];
      assert buf[top..top + i] == done;
      i := i + 1;
    }
    ghost var done := buf[top..top + |s|];
    buf[top + |s|] := 0;
    assert buf[top..top + |s|] == done == s;
    assert buf[top..] == buf[top..top + |s|] + [buf[top + |s|]] + buf[ktop..];
  }

  /** One string and the pointer to it. */
  method CopyString(buf: array<Byte>, ktop: nat, utop: nat, s: CString, page: array<Word32>, at: nat, ghost end: nat) returns (top: nat, user: nat)
    requires |s| + 1 <= ktop <= buf.Length && |s| + 1 <= utop <= STACK_TOP && at < end <= page.Length
    modifies buf, page
    ensures top == ktop - |s| - 1 && user == utop - |s| - 1 && buf[top..] == s + [0] + old(buf[ktop..])
    ensures page[at..end] == [user as Word32] + old(page[at + 1..end])
    ensures forall k | 0 <= k < page.Length && k != at :: page[k] == old(page[k])
  {
    var len := |s| + 1;
    top := PutString(buf, ktop, s);
    user := utop - len;
    page[at] := user;
  }

  /** The loops that copy the strings, the last one first, and note where they will lie in user
      memory; pointer `i` of the strings is at place `base + i` of the page. */
  method CopyStrings(buf: array<Byte>, ktop: nat, utop: nat, strs: seq<CString>, page: array<Word32>, base: nat) returns (top: nat, user: nat)
    requires |Cat(strs)| <= ktop <= buf.Length < STACK_TOP && utop == STACK_TOP - (buf.Length - ktop) && base + |strs| <= page.Length
    modifies buf, page
    ensures top == ktop - |Cat(strs)| && user == utop - |Cat(strs)| && buf[top..] == Cat(strs) + old(buf[ktop..])
    ensures page[base..base + |strs|] == Pointers(strs, buf.Length - ktop)
    ensures forall i | 0 <= i < page.Length && !(base <= i < base + |strs|) :: page[i] == old(page[i])
  {
    hide Cat, Pointers;
    ghost var tail, after := buf[ktop..], buf.Length - ktop;
    top, user := ktop, utop;
    var i: nat := |strs|;
    PointersEnd(strs[i..], after);
    ghost var cat, pointers := Cat(strs[i..]), Pointers(strs[i..], after);
    while i > 0
      invariant i <= |strs| && |cat| <= |Cat(strs)|
      invariant cat == Cat(strs[i..]) && pointers == Pointers(strs[i..], after)
      invariant top == ktop - |cat| && user == utop - |cat| && buf[top..] == cat + tail
      invariant page[base + i..base + |strs|] == pointers
      invariant forall k | 0 <= k < page.Length && !(base <= k < base + |strs|) :: page[k] == old(page[k])
    {
      i := i - 1;
      CatFrom(strs, i);
      CatStep(strs, i, after);
      top, user := CopyString(buf, top, user, strs[i], page, base + i, base + |strs|);
      Regroup(strs[i] + [0], cat, tail);
      cat, pointers := strs[i] + [0] + cat, [user as Word32] + pointers;
    }
    assert strs[0..] == strs;
  }

  lemma Regroup(a: seq<Byte>, b: seq<Byte>, c: seq<Byte>)
    ensures a + (b + c) == (a + b) + c
  {
  }

  lemma CatStep(strs: seq<CString>, i: nat, after: nat)
    requires i < |strs| && |Cat(strs[i..])| + after <= STACK_TOP
    ensures Cat(strs[i..]) == strs[i] + [0] + Cat(strs[i + 1..])
    ensures Pointers(strs[i..], after) == [STACK_TOP - (|Cat(strs[i..])| + after)] + Pointers(strs[i + 1..], after)
  {
    assert strs[i..][0] == strs[i] && strs[i..][1..] == strs[i + 1..];
  }

  lemma PointersEnd(strs: seq<CString>, after: nat)
    requires strs == [] && after <= STACK_TOP
    ensures Cat(strs) == [] && Pointers(strs, after) == []
  {
  }

  lemma {:induction false} CatFrom(strs: seq<CString>, i: nat)
    requires i <= |strs|
    ensures |Cat(strs[i..])| <= |Cat(strs)|
    decreases i
  {
    if i == 0 {
      assert strs[0..] == strs;
    } else {
      CatFrom(strs, i - 1);
      assert strs[i - 1..][1..] == strs[i..];
    }
  }

  /** A word stored below `ktop`. */
  method PutWord(buf: array<Byte>, ktop: nat, w: Word32) returns (top: nat)
    requires 4 <= ktop <= buf.Length
    modifies buf
    ensures top == ktop - 4 && buf[top..] == Encode(w) + old(buf[ktop..])
  {
    ghost var rest := buf[ktop..];
    top := ktop - 4;
    var b := Encode(w);
    buf[top] := b[0];
    buf[top + 1] := b[1];
    buf[top + 2] := b[2];
    buf[top + 3] := b[3];
    assert buf[ktop..] == rest;
    assert buf[top..] == [buf[top], buf[top + 1], buf[top + 2], buf[top + 3]] + buf[ktop..];
  }

  /** `memcpy` of a pointer array. */
  method PutWords(buf: array<Byte>, ktop: nat, page: array<Word32>, base: nat, n: nat) returns (top: nat)
    requires 4 * n <= ktop <= buf.Length && base + n <= page.Length
    modifies buf
    ensures top == ktop - 4 * n && buf[top..] == Words(page[base..base + n]) + old(buf[ktop..])
  {
    hide Encode, Words;
    ghost var tail, words := buf[ktop..], Words(page[base + n..base + n]);
    top := ktop;
    var i := n;
    WordsEnd(page[base + n..base + n]);
    while i > 0
      invariant 0 <= i <= n && top == ktop - 4 * (n - i)
      invariant words == Words(page[base + i..base + n]) && buf[top..] == words + tail
    {
      i := i - 1;
      var w := page[base + i];
      assert page[base + i..base + n] == [w] + page[base + i + 1..base + n];
      WordsStep(w, page[base + i + 1..base + n]);
      top := PutWord(buf, top, w);
      Regroup(Encode(w), words, tail);
      words := Encode(w) + words;
    }
  }

  lemma WordsEnd(ws: seq<Word32>)
    requires ws == []
    ensures Words(ws) == []
  {
  }

  lemma WordsStep(w: Word32, ws: seq<Word32>)
    ensures Words([w] + ws) == Encode(w) + Words(ws)
  {
    assert ([w] + ws)[1..] == ws;
  }

  /** `copy_argv_envp`: the user stack pointer, and what is copied to user memory from there to the
      top of the stack.  Its assertion about the lower end of the buffer holds. */
  method CopyArgvEnvp(filename: CString, argv: seq<CString>, envp: seq<CString>) returns (utop: nat, data: seq<Byte>)
    requires Fits(filename, argv, envp)
    ensures data == Image(filename, argv, envp) && utop == Bottom(data)
  {
    hide Encode, Words, Cat, Pointers;
    var args := CountStrings(argv);
    var envc := CountStrings(envp);
    var argc := args + 1;
    var buf := new Byte[BUFFER];
    var page := new Word32[POINTERS];
    var names := [filename] + argv;
    var ktop := PlaceStrings(buf, page, names, envp);
    ktop := PutWords(buf, ktop, page, argc + 1, envc + 1);
    ktop := PutWords(buf, ktop, page, 0, argc + 1);
    ktop := PutWord(buf, ktop, argc);
    assert ktop > 0;
    data := buf[ktop..];
    utop := STACK_TOP - (BUFFER - ktop);
    ImageIs(filename, argv, envp, data);
  }

  /** The two null pointers and both runs of strings. */
  method PlaceStrings(buf: array<Byte>, page: array<Word32>, names: seq<CString>, envp: seq<CString>) returns (ktop: nat)
    requires buf.Length == BUFFER && page.Length == POINTERS && |names| + |envp| + 2 <= POINTERS && |Cat(names)| + |Cat(envp)| <= BUFFER
    modifies buf, page
    ensures ktop == BUFFER - |Cat(names)| - |Cat(envp)| && buf[ktop..] == Cat(names) + Cat(envp)
    ensures page[0..|names| + 1] == Pointers(names, |Cat(envp)|) + [0]
    ensures page[|names| + 1..|names| + 1 + |envp| + 1] == Pointers(envp, 0) + [0]
  {
    hide Cat, Pointers;
    var user := STACK_TOP;
    ktop := BUFFER;
    var first := |names| + 1;
    page[|names|] := 0;
    page[first + |envp|] := 0;
    assert buf[BUFFER..] == [];
    ktop, user := CopyStrings(buf, ktop, user, envp, page, first);
    assert page[first..first + |envp| + 1] == Pointers(envp, 0) + [0];
    ghost var env := page[first..first + |envp| + 1];
    ktop, user := CopyStrings(buf, ktop, user, names, page, 0);
    assert page[first..first + |envp| + 1] == env;
    assert Cat(names) + (Cat(envp) + []) == Cat(names) + Cat(envp);
  }

  lemma ImageIs(filename: CString, argv: seq<CString>, envp: seq<CString>, data: seq<Byte>)
    requires Fits(filename, argv, envp)
    requires var names := [filename] + argv;
      data == Encode(|names|) + (Words(Pointers(names, |Cat(envp)|) + [0]) + (Words(Pointers(envp, 0) + [0]) + (Cat(names) + Cat(envp))))
    ensures data == Image(filename, argv, envp)
  {
    hide Encode, Words, Cat, Pointers;
  }
}
