/** Bitmaps over bytes (src/lib/bitmap.c) against plain sequences of booleans. */
module Bitmaps {
  import opened Outcomes

  /** The bits from `s` to `s + n` are all clear. */
  predicate ClearRun(bits: seq<bool>, s: nat, n: nat) {
    s + n <= |bits| && forall i | s <= i < s + n :: !bits[i]
  }

  /** The bits from `s` to `s + n` are all set. */
  predicate TakenRun(bits: seq<bool>, s: nat, n: nat) {
    s + n <= |bits| && forall i | s <= i < s + n :: bits[i]
  }

  /** The start of the lowest run of `n` clear bits at or after `from`. */
  function FirstRun(bits: seq<bool>, n: nat, from: nat := 0): (r: Option<nat>)
    ensures r.Some? ==> from <= r.value && ClearRun(bits, r.value, n)
    ensures forall s | from <= s && (r.Some? ==> s < r.value) :: !ClearRun(bits, s, n)
    decreases |bits| - from
  {
    if from + n > |bits| then None
    else if ClearRun(bits, from, n) then Some(from)
    else FirstRun(bits, n, from + 1)
  }

  function SetRun(bits: seq<bool>, s: nat, n: nat, value: bool): (r: seq<bool>)
    requires s + n <= |bits|
    ensures |r| == |bits|
    ensures forall i | 0 <= i < |bits| :: r[i] == if s <= i < s + n then value else bits[i]
  {
    bits[..s] + seq(n, i => value) + bits[s + n..]
  }

  predicate Bit(b: bv8, k: nat)
    requires k < 8
  {
    b & (1 << k) != 0
  }

  lemma BitOr(b: bv8, k: nat, j: nat)
    requires k < 8 && j < 8
    ensures Bit(b | (1 << k), j) <==> j == k || Bit(b, j)
  {
  }

  lemma BitAndNot(b: bv8, k: nat, j: nat)
    requires k < 8 && j < 8
    ensures Bit(b & !(1 << k), j) <==> j != k && Bit(b, j)
  {
  }

  class Bitmap {
    const bits: array<bv8>
    const offset: nat

    constructor (length: nat, offset: nat)
      ensures fresh(bits) && bits.Length == length && this.offset == offset
      ensures View() == seq(8 * length, i => false)
    {
      bits := new bv8[length](i => 0);
      this.offset := offset;
    }

    ghost function View(): (v: seq<bool>)
      reads bits
      ensures |v| == 8 * bits.Length
    {
      seq(8 * bits.Length, i requires 0 <= i < 8 * bits.Length reads bits => Bit(bits[i / 8], i % 8))
    }

    /** `bitmap_test`. */
    method Test(index: nat) returns (taken: bool)
      requires offset <= index < offset + 8 * bits.Length
      ensures taken == View()[index - offset]
    {
      var i := index - offset;
      taken := bits[i / 8] & (1 << (i % 8)) != 0;
    }

    /** `bitmap_set`. */
    method Set(index: nat, value: bool)
      requires offset <= index < offset + 8 * bits.Length
      modifies bits
      ensures View() == old(View())[index - offset := value]
    {
      hide Bit;
      var i := index - offset;
      if value {
        bits[i / 8] := bits[i / 8] | (1 << (i % 8));
      } else {
        bits[i / 8] := bits[i / 8] & !(1 << (i % 8));
      }
      forall k | 0 <= k < 8
        ensures Bit(bits[i / 8], k) == if k == i % 8 then value else Bit(old(bits[i / 8]), k)
      {
        BitOr(old(bits[i / 8]), i % 8, k);
        BitAndNot(old(bits[i / 8]), i % 8, k);
      }
    }

    /** The first loop of `bitmap_scan`: `counter` clear bits lie just before `nextBit`. */
    method Search(count: nat) returns (start: int)
      requires count > 0
      ensures FirstRun(View(), count).None? ==> start == -1
      ensures FirstRun(View(), count).Some? ==> start == FirstRun(View(), count).value
    {
      hide View;
      start := -1;
      ghost var v := View();
      var bitsLeft, nextBit, counter := bits.Length * 8, 0, 0;
      while bitsLeft > 0
        invariant 0 <= bitsLeft && nextBit + bitsLeft == |v|
        invariant 0 <= counter <= nextBit && counter < count
        invariant forall i | nextBit - counter <= i < nextBit :: !v[i]
        invariant forall s: nat | s < nextBit - counter :: !ClearRun(v, s, count)
      {
        bitsLeft := bitsLeft - 1;
        var taken := Test(offset + nextBit);
        if !taken {
          counter := counter + 1;
        } else {
          assert v[nextBit];
          counter := 0;
        }
        nextBit := nextBit + 1;
        if counter == count {
          assert ClearRun(v, nextBit - count, count);
          return nextBit - count;
        }
      }
    }

    /** `bitmap_scan`: takes the lowest run of `count` clear bits, or returns -1. */
    method Scan(count: nat) returns (start: int)
      requires count > 0
      modifies bits
      ensures FirstRun(old(View()), count).None? ==> start == -1 && View() == old(View())
      ensures FirstRun(old(View()), count).Some? ==>
        var s := FirstRun(old(View()), count).value;
        start == s + offset && View() == SetRun(old(View()), s, count, true)
    {
      hide View;
      start := Search(count);
      if start == -1 {
        return;
      }
      ghost var v := View();
      var done := 0;
      while done < count
        invariant 0 <= done <= count
        invariant View() == SetRun(v, start, done, true)
      {
        Set(offset + start + done, true);
        done := done + 1;
      }
      start := start + offset;
    }
  }
}
