/** The ring buffer of src/lib/fifo.c. */
module Fifos {

  /** Place `i` after place `tail` of a ring of length `l`. */
  function After(tail: nat, i: nat, l: nat): (p: nat)
    requires tail < l && i <= l
    ensures p < l
  {
    if tail + i < l then tail + i else tail + i - l
  }

  /** `n` bytes of the ring `buf` from place `tail` on. */
  function Ring(buf: seq<bv8>, tail: nat, n: nat): (r: seq<bv8>)
    requires tail < |buf| && n <= |buf|
    ensures |r| == n && forall i | 0 <= i < n :: r[i] == buf[After(tail, i, |buf|)]
  {
    seq(n, i requires 0 <= i < n => buf[After(tail, i, |buf|)])
  }

  /** Number of bytes between `tail` and `head`. */
  function Gap(head: nat, tail: nat, length: nat): nat
    requires head < length && tail < length
  {
    if tail <= head then head - tail else head + length - tail
  }

  /** `fifo_put` on the bytes in the ring: a full ring loses its oldest byte. */
  function Enqueue(q: seq<bv8>, capacity: nat, byte: bv8): seq<bv8>
    requires capacity > 0
  {
    (if |q| == capacity then q[1..] else q) + [byte]
  }

  lemma RingDrop(buf: seq<bv8>, tail: nat, n: nat)
    requires tail < |buf| && 0 < n <= |buf|
    ensures Ring(buf, After(tail, 1, |buf|), n - 1) == Ring(buf, tail, n)[1..]
  {
  }

  lemma RingPut(buf: seq<bv8>, tail: nat, n: nat, byte: bv8)
    requires tail < |buf| && n < |buf|
    ensures Ring(buf[After(tail, n, |buf|) := byte], tail, n + 1) == Ring(buf, tail, n) + [byte]
  {
  }

  lemma Wrap(x: nat, l: nat)
    requires 0 < l && x < 2 * l
    ensures x % l == if x < l then x else x - l
  {
    if x >= l {
      assert x == l + (x - l);
    }
  }

  class Fifo {
    const buf: array<bv8>
    var head: nat
    var tail: nat

    ghost predicate Valid()
      reads this
    {
      buf.Length >= 2 && head < buf.Length && tail < buf.Length
    }

    /** The bytes put and not yet taken, oldest first. */
    ghost function Contents(): (q: seq<bv8>)
      requires Valid()
      reads this, buf
    {
      Ring(buf[..], tail, Gap(head, tail, buf.Length))
    }

    constructor (length: nat)
      requires length >= 2
      ensures Valid() && fresh(buf) && buf.Length == length && Contents() == []
    {
      buf := new bv8[length];
      head, tail := 0, 0;
    }

    function Next(pos: nat): nat
      requires buf.Length > 0
    {
      (pos + 1) % buf.Length
    }

    /** One place of the ring stays free, so it holds one byte less than its length. */
    method Full() returns (full: bool)
      requires Valid()
      ensures full <==> |Contents()| == buf.Length - 1
    {
      Wrap(head + 1, buf.Length);
      full := Next(head) == tail;
    }

    method Empty() returns (empty: bool)
      requires Valid()
      ensures empty <==> Contents() == []
    {
      empty := head == tail;
    }

    method Get() returns (byte: bv8)
      requires Valid() && Contents() != []
      modifies this
      ensures Valid() && old(Contents()) == [byte] + Contents()
    {
      RingDrop(buf[..], tail, Gap(head, tail, buf.Length));
      Wrap(tail + 1, buf.Length);
      byte := buf[tail];
      tail := Next(tail);
    }

    /** A loop drops bytes until there is room; it never drops more than one. */
    method Put(byte: bv8)
      requires Valid()
      modifies this, buf
      ensures Valid() && Contents() == Enqueue(old(Contents()), buf.Length - 1, byte)
    {
      ghost var was := Contents();
      var full := Full();
      while full
        invariant Valid() && full == (|Contents()| == buf.Length - 1)
        invariant Contents() == if full || |was| < buf.Length - 1 then was else was[1..]
        decreases full
      {
        var oldest := Get();
        full := Full();
      }
      ghost var n := Gap(head, tail, buf.Length);
      Wrap(head + 1, buf.Length);
      RingPut(buf[..], tail, n, byte);
      ghost var before := buf[..];
      buf[head] := byte;
      assert buf[..] == before[head := byte];
      head := Next(head);
    }
  }
}
