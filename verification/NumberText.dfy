/** Reading back what `number` prints (src/lib/vsprintf.c): in every base, with every width, precision
    and flag, the text says the sign, the prefix and the value. */
module NumberText {
  import opened Numbers
  import opened Outcomes
  import opened Unsigned

  // ---------- A reader of numbers ----------

  /** The value of a digit: 0 to 9, and then the letters of either case. */
  function CharValue(c: char): Option<nat> {
    if '0' <= c <= '9' then Some(c as int - '0' as int)
    else if 'A' <= c <= 'Z' then Some(c as int - 'A' as int + 10)
    else if 'a' <= c <= 'z' then Some(c as int - 'a' as int + 10)
    else None
  }

  predicate DigitOf(c: char, base: nat) {
    CharValue(c).Some? && CharValue(c).value < base
  }

  function SkipSpaces(s: string): string {
    if s != [] && s[0] == ' ' then SkipSpaces(s[1..]) else s
  }

  /** The digits at the start of a text, and what follows them. */
  function ReadDigits(s: string, base: nat, value: nat): (nat, string)
    decreases |s|
  {
    if s != [] && DigitOf(s[0], base) then ReadDigits(s[1..], base, value * base + CharValue(s[0]).value) else (value, s)
  }

  /** What a text says: its sign, the letter of its hexadecimal prefix, and its value. */
  datatype Item = Item(sign: Option<char>, hex: Option<char>, value: nat)

  /** A number between spaces; None when there is anything else. */
  function ReadItem(s: string, base: nat): Option<Item> {
    var a := SkipSpaces(s);
    var signed := a != [] && (a[0] == '+' || a[0] == '-');
    var b := if signed then a[1..] else a;
    var hex := base == 16 && |b| >= 2 && b[0] == '0' && (b[1] == 'x' || b[1] == 'X');
    var c := if hex then b[2..] else b;
    if c == [] || !DigitOf(c[0], base) then None
    else
      var (value, rest) := ReadDigits(c, base, 0);
      if SkipSpaces(rest) != [] then None
      else Some(Item(if signed then Some(a[0]) else None, if hex then Some(b[1]) else None, value))
  }

  // ---------- Digits ----------

  /** The character of digit `d`. */
  function CharOf(d: nat, small: bool): int {
    if d < 10 then '0' as int + d else if small then 'a' as int + d - 10 else 'A' as int + d - 10
  }

  lemma LowDigit(d: nat, f: Flags)
    requires 10 <= d < 18
    ensures DigitSet(f)[d] as int == CharOf(d, f.small)
  {
    match d {
      case 10 => case 11 => case 12 => case 13 => case 14 => case 15 => case 16 => case _ =>
    }
  }

  lemma HighDigit(d: nat, f: Flags)
    requires 18 <= d < 36
    ensures DigitSet(f)[d] as int == CharOf(d, f.small)
  {
    match d {
      case 18 => case 19 => case 20 => case 21 => case 22 => case 23 => case 24 => case 25 => case 26 =>
      case 27 => case 28 => case 29 => case 30 => case 31 => case 32 => case 33 => case 34 => case _ =>
    }
  }

  /** The characters of the digit sets. */
  lemma DigitIs(d: nat, f: Flags)
    requires d < 36
    ensures DigitSet(f)[d] as int == CharOf(d, f.small)
  {
    hide DigitSet;
    if d < 10 {
      DigitChar(d, f);
    } else if d < 18 {
      LowDigit(d, f);
    } else {
      HighDigit(d, f);
    }
  }

  lemma DigitReads(d: nat, f: Flags, base: nat)
    requires d < base <= 36
    ensures var c := DigitSet(f)[d]; DigitOf(c, base) && CharValue(c) == Some(d) && c != ' ' && c != '+' && c != '-'
    ensures base <= 16 ==> DigitSet(f)[d] != 'x' && DigitSet(f)[d] != 'X'
  {
    DigitIs(d, f);
  }

  lemma {:induction false} SkipRun(n: int, s: string)
    ensures SkipSpaces(Run(' ', n) + s) == SkipSpaces(s)
    decreases n
  {
    if n <= 0 {
      assert Run(' ', n) + s == s;
    } else {
      assert (Run(' ', n) + s)[1..] == Run(' ', n - 1) + s;
      SkipRun(n - 1, s);
    }
  }

  lemma {:induction false} ZerosRead(n: int, s: string, base: nat)
    requires base >= 2
    ensures ReadDigits(Run('0', n) + s, base, 0) == ReadDigits(s, base, 0)
    decreases n
  {
    if n <= 0 {
      assert Run('0', n) + s == s;
    } else {
      assert (Run('0', n) + s)[1..] == Run('0', n - 1) + s;
      ZerosRead(n - 1, s, base);
    }
  }

  lemma DigitStep(c: char, base: nat, rest: string, value: nat)
    requires DigitOf(c, base)
    ensures ReadDigits([c] + rest, base, value) == ReadDigits(rest, base, value * base + CharValue(c).value)
  {
    assert ([c] + rest)[1..] == rest;
  }

  lemma {:induction false} PlacesRead(num: nat, f: Flags, base: nat, rest: string)
    requires 2 <= base <= 36
    ensures ReadDigits(Spell(Places(num, base), DigitSet(f)) + rest, base, 0) == ReadDigits(rest, base, num)
    decreases num
  {
    hide Places, ReadDigits, DigitSet;
    var set' := DigitSet(f);
    DivMod(num, base);
    if num < base {
      PlacesSmall(num, base);
      assert Spell([num], set') + rest == [set'[num]] + rest;
      DigitReads(num, f, base);
      DigitStep(set'[num], base, rest, 0);
    } else {
      var q, last := num / base, num % base;
      PlacesLarge(num, base, q, last);
      var d := Places(q, base);
      assert Places(num, base) == d + [last];
      assert Spell(d + [last], set') + rest == Spell(d, set') + ([set'[last]] + rest);
      PlacesRead(q, f, base, [set'[last]] + rest);
      DigitReads(last, f, base);
      DigitStep(set'[last], base, rest, q);
    }
  }

  lemma DigitsEnd(value: nat, base: nat, n: int)
    ensures ReadDigits(Run(' ', n), base, value) == (value, Run(' ', n)) && SkipSpaces(Run(' ', n)) == []
  {
    SkipRun(n, []);
    assert Run(' ', n) + [] == Run(' ', n);
  }

  // ---------- The whole text ----------

  /** The digits with `n` zeros in front and `c` spaces behind. */
  function Digits(num: nat, base: nat, f: Flags, n: int, c: int): string
    requires 2 <= base <= 36
  {
    Run('0', n) + Spell(Places(num, base), DigitSet(f)) + Run(' ', c)
  }

  lemma DigitsRead(num: nat, base: nat, f: Flags, n: int, c: int)
    requires 2 <= base <= 36
    ensures var s := Digits(num, base, f, n, c);
      && s != [] && DigitOf(s[0], base) && s[0] != ' ' && s[0] != '+' && s[0] != '-'
      && ReadDigits(s, base, 0) == (num, Run(' ', c)) && SkipSpaces(Run(' ', c)) == []
      && (base <= 16 && |s| >= 2 ==> s[1] != 'x' && s[1] != 'X')
  {
    hide Places, ReadDigits, DigitSet, SkipSpaces;
    var d := Spell(Places(num, base), DigitSet(f));
    assert Digits(num, base, f, n, c) == Run('0', n) + (d + Run(' ', c));
    ZerosRead(n, d + Run(' ', c), base);
    PlacesRead(num, f, base, Run(' ', c));
    DigitsEnd(num, base, c);
    DigitReads(0, f, base);
    DigitIs(0, f);
    forall i | 0 <= i < |d| ensures DigitOf(d[i], base) && d[i] != ' ' && d[i] != '+' && d[i] != '-' && (base <= 16 ==> d[i] != 'x' && d[i] != 'X') {
      DigitReads(Places(num, base)[i], f, base);
    }
  }

  /** The letter of the prefix for hexadecimal numbers. */
  function HexLetter(base: nat, f: Flags): Option<char> {
    if f.special && base == 16 then Some(if f.small then 'x' else 'X') else None
  }

  /** The sign that is shown: a minus for a negative number, and a plus when it is asked for. */
  function SignShown(num: Word32, f: Flags): Option<char> {
    if Negative(num, f) then Some('-') else if f.plus then Some('+') else None
  }

  /** A sign, a prefix and digits, read one after the other. */
  lemma PartsRead(sign: Option<char>, hex: Option<char>, s: string, base: nat, value: nat, rest: string)
    requires s != [] && DigitOf(s[0], base) && s[0] != ' ' && s[0] != '+' && s[0] != '-'
    requires ReadDigits(s, base, 0) == (value, rest) && SkipSpaces(rest) == []
    requires base == 16 && |s| >= 2 ==> s[1] != 'x' && s[1] != 'X'
    requires (sign.Some? ==> sign.value == '+' || sign.value == '-') && (hex.Some? ==> base == 16 && (hex.value == 'x' || hex.value == 'X'))
    ensures ReadItem(Marked(sign, Hexed(hex, s)), base) == Some(Item(sign, hex, value))
    ensures SkipSpaces(Marked(sign, Hexed(hex, s))) == Marked(sign, Hexed(hex, s))
  {
    hide ReadDigits, DigitOf;
    var b := Hexed(hex, s);
    var e := Marked(sign, b);
    assert e[0] != ' ' && SkipSpaces(e) == e;
    assert sign.Some? ==> e[1..] == b;
    assert hex.Some? ==> b[2..] == s;
  }

  function Marked(sign: Option<char>, s: string): string {
    if sign.Some? then [sign.value] + s else s
  }

  function Hexed(hex: Option<char>, s: string): string {
    if hex.Some? then ['0', hex.value] + s else s
  }

  /** The text as sign, prefix and digits with zeros in front, between spaces. */
  function Text(num: Word32, base: nat, f: Flags, a: int, n: int, c: int): string
    requires 2 <= base <= 36
  {
    Run(' ', a) + Marked(SignShown(num, f), Hexed(HexLetter(base, f), Digits(Magnitude(num, f), base, f, n, c)))
  }

  lemma TextReads(num: Word32, base: nat, f: Flags, a: int, n: int, c: int)
    requires 2 <= base <= 36
    ensures ReadItem(Text(num, base, f, a, n, c), base)
         == Some(Item(SignShown(num, f), HexLetter(base, f), Magnitude(num, f)))
  {
    hide Digits, ReadDigits, DigitOf, Magnitude, Negative, Marked, Hexed;
    var s := Digits(Magnitude(num, f), base, f, n, c);
    DigitsRead(Magnitude(num, f), base, f, n, c);
    var e := Marked(SignShown(num, f), Hexed(HexLetter(base, f), s));
    PartsRead(SignShown(num, f), HexLetter(base, f), s, base, Magnitude(num, f), Run(' ', c));
    SkipRun(a, e);
    SameItem(Run(' ', a) + e, e, base);
  }

  lemma SameItem(s: string, e: string, base: nat)
    requires SkipSpaces(s) == SkipSpaces(e)
    ensures ReadItem(s, base) == ReadItem(e, base)
  {
  }

  // ---------- What number prints ----------

  lemma RunsJoin(c: char, x: int, y: int)
    ensures Run(c, x) + Run(c, y) == Run(c, Max(x, 0) + Max(y, 0))
  {
  }

  lemma OneZero(n: nat, d: string)
    ensures "0" + (Run('0', n) + d) == Run('0', n + 1) + d
  {
  }

  lemma PrefixIs(base: nat, f: Flags, n: nat, d: string)
    ensures var octal := if f.special && base == 8 then 1 else 0;
      Prefix(base, f) + (Run('0', n) + d) == Hexed(HexLetter(base, f), Run('0', n + octal) + d)
  {
    hide Run, DigitSet;
    DigitIs(33, f);
    OneZero(n, d);
  }

  lemma SignIs(num: Word32, f: Flags, s: string)
    ensures Sign(num, f) + s == (if Sign(num, f) == " " then " " else "") + Marked(SignShown(num, f), s)
  {
    hide Negative;
  }

  /** Sign, prefix, `fill` zeros, zeros up to the precision, and digits. */
  lemma BodyIs(num: Word32, base: nat, precision: int, f: Flags, fill: int) returns (n: int)
    requires 2 <= base <= 36
    ensures n >= 0
    ensures Body(num, base, precision, f, Run('0', fill))
         == (if Sign(num, f) == " " then " " else "")
            + Marked(SignShown(num, f), Hexed(HexLetter(base, f), Run('0', n) + Spell(Places(Magnitude(num, f), base), DigitSet(f))))
  {
    hide Places, Spell, DigitSet, Magnitude, Negative, Run, Sign, Prefix, Marked, Hexed;
    var d := Spell(Places(Magnitude(num, f), base), DigitSet(f));
    var k := precision - |Places(Magnitude(num, f), base)|;
    RunsJoin('0', fill, k);
    var zeros := Max(fill, 0) + Max(k, 0);
    n := zeros + if f.special && base == 8 then 1 else 0;
    PrefixIs(base, f, zeros, d);
    SignIs(num, f, Prefix(base, f) + (Run('0', zeros) + d));
    AllJoined(Sign(num, f), Prefix(base, f), Run('0', fill), Run('0', k), d);
  }

  lemma AllJoined(a: string, b: string, c: string, d: string, e: string)
    ensures a + b + c + d + e == a + (b + ((c + d) + e))
  {
  }

  lemma PartsBehind(sign: Option<char>, hex: Option<char>, s: string, more: string)
    ensures Marked(sign, Hexed(hex, s)) + more == Marked(sign, Hexed(hex, s + more))
  {
  }

  lemma OneSpace()
    ensures Run(' ', 1) == " " && Run(' ', 0) == "" && Run('0', 0) == ""
  {
  }

  /** The output has that form: spaces in front only when it is neither put to the left nor padded with
      zeros, but for the one in place of a plus, and behind only when it is put to the left. */
  lemma NumberIs(num: Word32, base: nat, size: int, precision: int, f: Flags) returns (a: int, n: int, c: int)
    requires 2 <= base <= 36
    ensures Number(num, base, size, precision, f) == Some(Text(num, base, f, a, n, c))
    ensures f.left || f.zeropad ==> a == if Sign(num, f) == " " then 1 else 0
    ensures !f.left ==> c <= 0
  {
    hide Places, Spell, DigitSet, Magnitude, Negative, Run, Body, Sign, Marked, Hexed;
    var pad := size - |Body(num, base, precision, f, "")|;
    var one := if Sign(num, f) == " " then 1 else 0;
    OneSpace();
    n := BodyIs(num, base, precision, f, if f.zeropad && !f.left then pad else 0);
    a := one + if f.left || f.zeropad then 0 else Max(pad, 0);
    c := if f.left then pad else 0;
    var d := Spell(Places(Magnitude(num, f), base), DigitSet(f));
    var m := Marked(SignShown(num, f), Hexed(HexLetter(base, f), Run('0', n) + d));
    PartsBehind(SignShown(num, f), HexLetter(base, f), Run('0', n) + d, Run(' ', c));
    assert Text(num, base, f, a, n, c) == Run(' ', a) + (m + Run(' ', c));
    if f.left {
      Regrouped(Run(' ', one), m, Run(' ', c));
    } else {
      RunsJoin(' ', pad, one);
      assert m + "" == m;
      if !f.zeropad {
        Regrouped(Run(' ', pad), Run(' ', one), m);
      }
    }
  }

  lemma Regrouped(a: string, b: string, c: string)
    ensures a + b + c == a + (b + c)
  {
  }

  /** Read back, the output says the number: its sign, its prefix and its value. */
  lemma NumberReads(num: Word32, base: nat, size: int, precision: int, f: Flags)
    requires 2 <= base <= 36
    ensures var r := Number(num, base, size, precision, f);
      r.Some? && ReadItem(r.value, base) == Some(Item(SignShown(num, f), HexLetter(base, f), Magnitude(num, f)))
  {
    hide Number, Text, ReadItem;
    var a, n, c := NumberIs(num, base, size, precision, f);
    TextReads(num, base, f, a, n, c);
  }
}
