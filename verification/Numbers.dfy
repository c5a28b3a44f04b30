/** Printing and reading numbers: `number` of src/lib/vsprintf.c and `atoi` of src/lib/stdlib.c. */
module Numbers {
  import opened Outcomes
  import opened Unsigned


  const INT_MAX: int := 0x7FFF_FFFF
  const INT_MIN: int := -0x8000_0000

  datatype Flags = Flags(zeropad: bool, signed: bool, plus: bool, space: bool, left: bool, special: bool, small: bool)

  const DIGITS := "0123456789ABCDEFGHIJKLMNOPQRSTUVWXYZ"
  const SMALL_DIGITS := "0123456789abcdefghijklmnopqrstuvwxyz"

  function DigitSet(f: Flags): (s: string)
    ensures |s| == 36
  {
    if f.small then SMALL_DIGITS else DIGITS
  }

  // ---------- What is printed ----------

  lemma DivMod(num: nat, base: nat)
    requires base >= 2
    ensures num == num / base * base + num % base && 0 <= num % base < base && num / base <= num / 2
    ensures num >= base ==> 0 < num / base < num
    ensures num < base ==> num / base == 0 && num % base == num
  {
    var q := num / base;
    assert num == q * base + num % base;
    assert q * base >= q * 2;
    assert q > 0 ==> q * base >= base;
  }

  /** The digits of a number, most significant first; one digit for zero. */
  function Places(num: nat, base: nat): (d: seq<nat>)
    requires base >= 2
    ensures |d| > 0 && forall i | 0 <= i < |d| :: d[i] < base
    decreases num
  {
    DivMod(num, base);
    if num < base then [num] else Places(num / base, base) + [num % base]
  }

  function Value(d: seq<nat>, base: nat): nat {
    if d == [] then 0 else Value(d[..|d| - 1], base) * base + d[|d| - 1]
  }

  /** The digits are those of positional notation: they have the value of the number, and no zero
      in front of a number other than zero. */
  lemma {:induction false} PlacesValue(num: nat, base: nat)
    requires base >= 2
    ensures Value(Places(num, base), base) == num
    ensures num > 0 ==> Places(num, base)[0] > 0
    decreases num
  {
    DivMod(num, base);
    if num < base {
      assert [num][..0] == [];
    } else {
      var q, r := num / base, num % base;
      PlacesValue(q, base);
      var d := Places(q, base);
      assert (d + [r])[..|d|] == d;
    }
  }

  function Power(base: nat, n: nat): nat {
    if n == 0 then 1 else base * Power(base, n - 1)
  }

  lemma PowerOne()
    ensures Power(2, 1) == 2
  {
    assert Power(2, 1) == 2 * Power(2, 0);
  }

  lemma {:induction false} PlacesFew(num: nat, base: nat, n: nat)
    requires base >= 2 && n > 0 && num < Power(2, n)
    ensures |Places(num, base)| <= n
    decreases n
  {
    DivMod(num, base);
    if num < base {
    } else {
      PowerOne();
      assert num / 2 < Power(2, n - 1);
      PlacesFew(num / base, base, n - 1);
    }
  }

  /** The digits of a 32-bit number fit `tmp[36]` in every base. */
  lemma PlacesFit(num: Word32, base: nat)
    requires base >= 2
    ensures |Places(num, base)| <= 32
  {
    assert Power(2, 32) == 0x1_0000_0000 by {
      assert Power(2, 4) == 16;
      assert Power(2, 8) == 16 * Power(2, 4);
      assert Power(2, 16) == 256 * Power(2, 8) by {
        assert Power(2, 12) == 16 * Power(2, 8);
      }
      assert Power(2, 24) == 256 * Power(2, 16) by {
        assert Power(2, 20) == 16 * Power(2, 16);
      }
      assert Power(2, 28) == 16 * Power(2, 24);
    }
    PlacesFew(num, base, 32);
  }

  /** Digits as characters. */
  function Spell(d: seq<nat>, set': string): (s: string)
    requires |set'| == 36 && forall i | 0 <= i < |d| :: d[i] < 36
    ensures |s| == |d|
  {
    seq(|d|, i requires 0 <= i < |d| => set'[d[i]])
  }

  function Run(c: char, n: int): (s: string)
    ensures |s| == if n > 0 then n else 0
  {
    if n > 0 then seq(n, _ => c) else []
  }

  predicate Negative(num: Word32, f: Flags) {
    f.signed && num >= 0x8000_0000
  }

  /** The number without its sign; the least one is its own negation. */
  function Magnitude(num: Word32, f: Flags): Word32 {
    if Negative(num, f) then 0x1_0000_0000 - num else num
  }

  function Sign(num: Word32, f: Flags): string {
    if Negative(num, f) then "-" else if f.plus then "+" else if f.space then " " else ""
  }

  function Prefix(base: nat, f: Flags): string {
    if !f.special then "" else if base == 8 then "0" else if base == 16 then ['0', DigitSet(f)[33]] else ""
  }

  /** Sign, prefix, zeros up to the precision and digits. */
  function Body(num: Word32, base: nat, precision: int, f: Flags, fill: string): string
    requires 2 <= base <= 36
  {
    var d := Places(Magnitude(num, f), base);
    Sign(num, f) + Prefix(base, f) + fill + Run('0', precision - |d|) + Spell(d, DigitSet(f))
  }

  /** `number`: the body padded to the width, on the left with spaces, inside with zeros, or on
      the right.  None stands for the base it refuses. */
  function Number(num: Word32, base: int, size: int, precision: int, f: Flags): (r: Option<string>)
  {
    if base < 2 || base > 36 then None
    else
      var pad := size - |Body(num, base, precision, f, "")|;
      if f.left then Some(Body(num, base, precision, f, "") + Run(' ', pad))
      else if f.zeropad then Some(Body(num, base, precision, f, Run('0', pad)))
      else Some(Run(' ', pad) + Body(num, base, precision, f, ""))
  }

  /** The output is as long as the width, or as the sign, prefix and digits if they need more. */
  lemma NumberLength(num: Word32, base: nat, size: int, precision: int, f: Flags)
    requires 2 <= base <= 36
    ensures var r := Number(num, base, size, precision, f);
      r.Some? && |r.value| == Max(size, |Sign(num, f)| + |Prefix(base, f)| + Max(precision, |Places(Magnitude(num, f), base)|))
  {
    hide Places, Spell, Run, Sign, Prefix;
  }

  // ---------- atoi ----------

  /** The loop of `atoi`; None is signed overflow, which C leaves undefined. */
  function AtoiFrom(s: string, result: int): Option<int>
    decreases |s|
  {
    if s == [] then Some(result)
    else
      var r := result * 10 + (s[0] as int - '0' as int);
      if INT_MIN <= result * 10 <= INT_MAX && INT_MIN <= r <= INT_MAX then AtoiFrom(s[1..], r) else None
  }

  function Atoi(s: string): Option<int> {
    if s != [] && s[0] == '-' then
      match AtoiFrom(s[1..], 0)
      case None => None
      case Some(r) => if r == INT_MIN then None else Some(-r)
    else AtoiFrom(s, 0)
  }

  /** The signed value of a word. */
  function Signed(num: Word32): int {
    if num < 0x8000_0000 then num else num - 0x1_0000_0000
  }

  lemma AtoiStep(d: nat, f: Flags, rest: string, result: int)
    requires d < 10 && 0 <= result <= INT_MAX + 1
    ensures AtoiFrom([DigitSet(f)[d]] + rest, result) == if result * 10 + d <= INT_MAX then AtoiFrom(rest, result * 10 + d) else None
  {
    DigitChar(d, f);
    assert ([DigitSet(f)[d]] + rest)[1..] == rest;
  }

  lemma {:induction false} AtoiDigits(num: nat, f: Flags, rest: string)
    requires num <= INT_MAX + 1
    ensures forall i | 0 <= i < |Places(num, 10)| :: Places(num, 10)[i] < 36
    ensures AtoiFrom(Spell(Places(num, 10), DigitSet(f)) + rest, 0) == if num <= INT_MAX then AtoiFrom(rest, num) else None
    decreases num
  {
    hide Places, AtoiFrom, DigitSet;
    var set' := DigitSet(f);
    if num < 10 {
      PlacesSmall(num, 10);
      assert Spell([num], set') + rest == [set'[num]] + rest;
      AtoiStep(num, f, rest, 0);
    } else {
      var q, last := num / 10, num % 10;
      PlacesLarge(num, 10, q, last);
      var d := Places(q, 10);
      assert Places(num, 10) == d + [last];
      assert Spell(d + [last], set') + rest == Spell(d, set') + ([set'[last]] + rest);
      AtoiDigits(q, f, [set'[last]] + rest);
      AtoiStep(last, f, rest, q);
    }
  }

  lemma DigitChar(d: nat, f: Flags)
    requires d < 10
    ensures DigitSet(f)[d] as int == '0' as int + d
  {
    assert DIGITS[d] == SMALL_DIGITS[d] == "0123456789"[d];
  }

  /** Reading back plain signed decimal output gives the number, exactly for every number but the
      least. */
  lemma AtoiReadsNumber(num: Word32, small: bool)
    ensures var f := Flags(false, true, false, false, false, false, small);
      var r := Number(num, 10, 0, -1, f);
      r.Some? && Atoi(r.value) == if num == 0x8000_0000 then None else Some(Signed(num))
  {
    hide Places;
    var f := Flags(false, true, false, false, false, false, small);
    var m := Magnitude(num, f);
    var text := Spell(Places(m, 10), DigitSet(f));
    AtoiDigits(m, f, []);
    assert text + [] == text;
    assert Number(num, 10, 0, -1, f).value == Sign(num, f) + text;
    if Negative(num, f) {
      assert ("-" + text)[1..] == text;
    } else {
      assert "" + text == text;
      FirstDigit(m, f);
    }
  }

  lemma FirstDigit(m: nat, f: Flags)
    ensures forall i | 0 <= i < |Places(m, 10)| :: Places(m, 10)[i] < 36
    ensures Spell(Places(m, 10), DigitSet(f))[0] != '-'
  {
    DigitChar(Places(m, 10)[0], f);
  }

  // ---------- As it is run ----------

  /** The digits of `number` in `tmp`, least significant first. */
  method FillTmp(num: Word32, base: nat, f: Flags, tmp: array<char>) returns (i: nat)
    requires 2 <= base <= 36 && tmp.Length == 36
    modifies tmp
    ensures var d := Places(num, base);
      && i == |d| <= 36
      && forall k | 0 <= k < i :: tmp[i - 1 - k] == DigitSet(f)[d[k]]
  {
    hide Places;
    PlacesFit(num, base);
    ghost var all := Places(num, base);
    i := 0;
    if num == 0 {
      PlacesSmall(num, base);
      DigitChar(0, f);
      tmp[0] := '0';
      i := 1;
      return;
    }
    var n: nat := num;
    while n != 0
      invariant 0 <= i <= |all| && (n == 0 <==> i == |all|)
      invariant n > 0 ==> all[..|all| - i] == Places(n, base)
      invariant forall k | |all| - i <= k < |all| :: tmp[|all| - 1 - k] == DigitSet(f)[all[k]]
      decreases n
    {
      DivMod(n, base);
      ghost var d := Places(n, base);
      PlacesStep(n, base);
      var index := n % base;
      assert all[|all| - 1 - i] == d[|d| - 1] == index;
      assert n >= base ==> d[..|d| - 1] == all[..|all| - 1 - i];
      n := n / base;
      tmp[i] := DigitSet(f)[index];
      i := i + 1;
    }
  }

  lemma PlacesSmall(num: nat, base: nat)
    requires 0 <= num < base && base >= 2
    ensures Places(num, base) == [num]
  {
  }

  lemma PlacesStep(num: nat, base: nat)
    requires base >= 2
    ensures var d := Places(num, base);
      && d[|d| - 1] == num % base
      && (num >= base ==> d[..|d| - 1] == Places(num / base, base))
      && (num < base ==> |d| == 1 && num / base == 0)
  {
    DivMod(num, base);
    if num < base {
      PlacesSmall(num, base);
    } else {
      PlacesLarge(num, base, num / base, num % base);
    }
  }

  lemma PlacesLarge(num: nat, base: nat, q: nat, r: nat)
    requires 2 <= base <= num && q == num / base && r == num % base
    ensures var d := Places(num, base); d[|d| - 1] == r && d[..|d| - 1] == Places(q, base)
  {
    assert Places(num, base) == Places(q, base) + [r];
  }

  /** A loop `while (n-- > 0) *str++ = c`, with what it leaves in `n`. */
  method Repeat(str: string, c: char, n: int) returns (out: string, left: int)
    ensures out == str + Run(c, n)
    ensures left == if n > 0 then -1 else n - 1
  {
    out, left := str, n;
    assert str + Run(c, 0) == str;
    while left > 0
      invariant left <= n && (n > 0 ==> left >= 0) && (n <= 0 ==> left == n)
      invariant out == str + Run(c, n - left)
      decreases left
    {
      assert Run(c, n - left) + [c] == Run(c, n - left + 1);
      out := out + [c];
      left := left - 1;
    }
    left := left - 1;
  }

  method TakeSign(word: Word32, f: Flags) returns (sign: string, num: Word32)
    ensures sign == Sign(word, f) && num == Magnitude(word, f)
  {
    num := word;
    if f.signed && word >= 0x8000_0000 {
      sign := "-";
      num := 0x1_0000_0000 - word;
    } else {
      sign := if f.plus then "+" else if f.space then " " else "";
    }
  }

  /** Room that is left of the width, up to the digits. */
  method Narrow(width: int, sign: string, base: nat, f: Flags) returns (size: int)
    requires |sign| <= 1
    ensures size == width - |sign| - |Prefix(base, f)|
  {
    size := width;
    if sign != "" {
      size := size - 1;
    }
    if f.special {
      if base == 16 {
        size := size - 2;
      } else if base == 8 {
        size := size - 1;
      }
    }
  }

  method PutPrefix(str: string, base: nat, f: Flags) returns (out: string)
    ensures out == str + Prefix(base, f)
  {
    out := str;
    if f.special {
      if base == 8 {
        out := out + ['0'];
      } else if base == 16 {
        out := out + ['0'];
        out := out + [DigitSet(f)[33]];
      }
    }
  }

  /** `number`: None for a base it refuses, else the characters it stores. */
  method PrintNumber(word: Word32, base: int, width: int, digitsWanted: int, f: Flags) returns (out: Option<string>)
    ensures out == Number(word, base, width, digitsWanted, f)
  {
    hide Places, Spell, Sign, Prefix, Run, DigitSet, Magnitude, Number;
    if base < 2 || base > 36 {
      Refused(word, base, width, digitsWanted, f);
      return None;
    }
    var zeropad := f.zeropad && !f.left;
    var sign, num := TakeSign(word, f);
    SignShort(word, f);
    var size := Narrow(width, sign, base, f);
    var tmp := new char[36];
    var i := FillTmp(num, base, f, tmp);
    ghost var d := Places(num, base);
    var precision := digitsWanted;
    if i > precision {
      precision := i;
    }
    size := size - precision;
    ghost var pad := size;
    var str: string := "";
    ghost var before := "";
    if !zeropad && !f.left {
      before := Run(' ', size);
      str, size := Repeat(str, ' ', size);
    }
    str := str + sign;
    str := PutPrefix(str, base, f);
    ghost var fill := "";
    if !f.left {
      fill := Run(if zeropad then '0' else ' ', size);
      str, size := Repeat(str, if zeropad then '0' else ' ', size);
    }
    var zeros, rest;
    str, zeros := Repeat(str, '0', precision - i);
    str := PutDigits(str, tmp, i, d, f);
    ghost var after := Run(' ', size);
    str, rest := Repeat(str, ' ', size);
    out := Some(str);
    assert str == "" + before + sign + Prefix(base, f) + fill + Run('0', precision - i) + Spell(d, DigitSet(f)) + after;
    Assemble(word, base, width, digitsWanted, f, precision, pad, before, fill, after);
  }

  lemma SignShort(word: Word32, f: Flags)
    ensures |Sign(word, f)| <= 1
  {
  }

  lemma Refused(word: Word32, base: int, width: int, precision: int, f: Flags)
    requires base < 2 || base > 36
    ensures Number(word, base, width, precision, f) == None
  {
  }

  /** At most one of the three places for padding is used, and it is the right one. */
  lemma Assemble(word: Word32, base: nat, width: int, wanted: int, f: Flags, precision: int, pad: int,
                 before: string, fill: string, after: string)
    requires 2 <= base <= 36
    requires var n := |Places(Magnitude(word, f), base)|;
      precision == (if n > wanted then n else wanted) && pad == width - |Sign(word, f)| - |Prefix(base, f)| - precision
    requires before == if !f.zeropad && !f.left then Run(' ', pad) else ""
    requires fill == if f.zeropad && !f.left then Run('0', pad) else ""
    requires after == if f.left then Run(' ', pad) else ""
    ensures var d := Places(Magnitude(word, f), base);
      Number(word, base, width, wanted, f) ==
      Some("" + before + Sign(word, f) + Prefix(base, f) + fill + Run('0', precision - |d|) + Spell(d, DigitSet(f)) + after)
  {
    hide Places, Spell, Sign, Prefix, Run, DigitSet, Magnitude;
    var d := Places(Magnitude(word, f), base);
    RunSame('0', precision - |d|, wanted - |d|);
    Grouped(before, Sign(word, f), Prefix(base, f), fill, Run('0', precision - |d|), Spell(d, DigitSet(f)), after);
    var body := Body(word, base, wanted, f, fill);
    assert "" + body == body && body + "" == body;
    BodyLength(word, base, wanted, f);
    if f.left {
      assert before + body == body;
    } else {
      assert before + body + after == before + body;
    }
  }

  lemma BodyLength(word: Word32, base: nat, wanted: int, f: Flags)
    requires 2 <= base <= 36
    ensures var n := |Places(Magnitude(word, f), base)|;
      |Body(word, base, wanted, f, "")| == |Sign(word, f)| + |Prefix(base, f)| + if n > wanted then n else wanted
  {
    hide Places, Spell, Sign, Prefix, DigitSet, Magnitude;
  }

  lemma Grouped(a: string, b: string, c: string, d: string, e: string, g: string, h: string)
    ensures "" + a + b + c + d + e + g + h == a + (b + c + d + e + g) + h
  {
    assert "" + a == a;
    assert a + b + c + d + e + g == a + (b + c + d + e + g) by {
      assert a + b + c == a + (b + c);
      assert a + (b + c) + d == a + (b + c + d);
      assert a + (b + c + d) + e == a + (b + c + d + e);
    }
  }

  lemma RunSame(c: char, m: int, n: int)
    requires m == if n < 0 then 0 else n
    ensures Run(c, m) == Run(c, n)
  {
  }

  /** The loop that stores the digits, last one of `tmp` first. */
  method PutDigits(head: string, tmp: array<char>, i: nat, ghost d: seq<nat>, f: Flags) returns (str: string)
    requires i == |d| <= tmp.Length && (forall k | 0 <= k < |d| :: d[k] < 36)
    requires forall k | 0 <= k < i :: tmp[i - 1 - k] == DigitSet(f)[d[k]]
    ensures str == head + Spell(d, DigitSet(f))
  {
    hide Spell;
    str := head;
    var left: nat := i;
    while left > 0
      invariant left <= i && str == head + Spell(d, DigitSet(f))[..i - left]
    {
      left := left - 1;
      var k := i - 1 - left;
      assert tmp[i - 1 - k] == DigitSet(f)[d[k]];
      SpellAt(d, DigitSet(f), k);
      str := str + [tmp[left]];
    }
    assert Spell(d, DigitSet(f))[..i] == Spell(d, DigitSet(f));
  }

  lemma SpellAt(d: seq<nat>, set': string, k: nat)
    requires |set'| == 36 && (forall i | 0 <= i < |d| :: d[i] < 36) && k < |d|
    ensures Spell(d, set')[..k + 1] == Spell(d, set')[..k] + [set'[d[k]]]
  {
  }

  /** `atoi`. */
  method ReadNumber(s: string) returns (r: Option<int>)
    ensures r == Atoi(s)
  {
    var sign, at := 1, 0;
    if s != [] && s[0] == '-' {
      sign, at := -1, 1;
    }
    var result := 0;
    var i := at;
    while i < |s|
      invariant at <= i <= |s| && INT_MIN <= result <= INT_MAX
      invariant AtoiFrom(s[i..], result) == AtoiFrom(s[at..], 0)
    {
      var next := result * 10 + (s[i] as int - '0' as int);
      assert s[i..][1..] == s[i + 1..];
      if !(INT_MIN <= result * 10 <= INT_MAX && INT_MIN <= next <= INT_MAX) {
        assert s[0..] == s;
        return None;
      }
      result := next;
      i := i + 1;
    }
    assert s[0..] == s;
    if sign == -1 && result == INT_MIN {
      return None;
    }
    return Some(result * sign);
  }
}
