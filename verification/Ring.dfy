/**
 The byte ring between one producer and one consumer. One cell stays empty, so that a
 full ring differs from an empty one.
 */
module Ring {
  import opened Words

  /** A bounded queue: a byte that does not fit is dropped. */
  function Pushed(q: seq<byte>, capacity: nat, b: byte): seq<byte> {
    if |q| < capacity then q + [b] else q
  }

  function Wrap(x: nat, size: nat): (c: nat)
    requires x < 2 * size
    ensures c < size
  {
    if x < size then x else x - size
  }

  lemma WrapIsMod(x: nat, size: nat)
    requires x < 2 * size
    ensures x % size == Wrap(x, size)
  {
    DivUnique(x, size, if x < size then 0 else 1, Wrap(x, size));
  }

  /** The bytes in `n` cells from `tail` on, going round the end. */
  function Window(cells: seq<byte>, tail: nat, n: nat): (s: seq<byte>)
    requires tail < |cells| && n <= |cells|
    ensures |s| == n
  {
    seq<byte>(n, i requires 0 <= i < n => cells[Wrap(tail + i, |cells|)])
  }

  lemma WindowPush(cells: seq<byte>, tail: nat, n: nat, b: byte)
    requires tail < |cells| && n < |cells|
    ensures Window(cells[Wrap(tail + n, |cells|) := b], tail, n + 1) == Window(cells, tail, n) + [b]
  {
    var after := cells[Wrap(tail + n, |cells|) := b];
    forall i | 0 <= i < n ensures Window(after, tail, n + 1)[i] == Window(cells, tail, n)[i] {
      assert Wrap(tail + i, |cells|) != Wrap(tail + n, |cells|);
    }
    assert Window(after, tail, n + 1)[n] == b;
  }

  lemma WindowDrop(cells: seq<byte>, tail: nat, n: nat, k: nat)
    requires tail < |cells| && n <= |cells| && k <= n && k < |cells|
    ensures Window(cells, Wrap(tail + k, |cells|), n - k) == Window(cells, tail, n)[k..]
  {
    var a, b := Window(cells, Wrap(tail + k, |cells|), n - k), Window(cells, tail, n)[k..];
    forall i | 0 <= i < n - k ensures a[i] == b[i] {
      assert Wrap(Wrap(tail + k, |cells|) + i, |cells|) == Wrap(tail + (k + i), |cells|);
    }
  }

  class Fifo {
    const buf: array<byte>
    var head: nat
    var tail: nat

    ghost predicate Valid()
      reads this
    {
      head < buf.Length && tail < buf.Length
    }

    function Count(): (n: nat)
      requires Valid()
      reads this
      ensures n <= Capacity() && head == Wrap(tail + n, buf.Length)
    {
      if head >= tail then head - tail else head + buf.Length - tail
    }

    function Capacity(): nat
      requires Valid()
      reads this
    {
      buf.Length - 1
    }

    ghost function Contents(): (s: seq<byte>)
      requires Valid()
      reads this, buf
      ensures |s| == Count()
    {
      Window(buf[..], tail, Count())
    }

    constructor (size: nat)
      requires size > 0
      ensures Valid() && fresh(buf) && Contents() == [] && Capacity() == size - 1
    {
      buf := new byte[size](_ => 0);
      head, tail := 0, 0;
    }

    method Push(b: byte) returns (ok: bool, wasEmpty: bool)
      requires Valid()
      modifies this`head, buf
      ensures Valid() && ok == (|old(Contents())| < Capacity())
      ensures Contents() == Pushed(old(Contents()), Capacity(), b)
      ensures Contents() == old(Contents()) + if ok then [b] else []
      ensures wasEmpty == (ok && old(Contents()) == [])
    {
      WrapIsMod(head + 1, buf.Length);
      var next := (head + 1) % buf.Length;
      if next == tail {
        return false, false;
      }
      WindowPush(buf[..], tail, Count(), b);
      wasEmpty := head == tail;
      buf[head] := b;
      head := next;
      ok := true;
    }

    method Pop() returns (ok: bool, b: byte)
      requires Valid()
      modifies this`tail
      ensures Valid() && ok == (old(Contents()) != [])
      ensures if ok then old(Contents()) == [b] + Contents() else Contents() == old(Contents())
    {
      if head == tail {
        return false, 0;
      }
      ghost var before := Contents();
      b := buf[tail];
      assert before[0] == buf[..][Wrap(tail + 0, buf.Length)] == b;
      Consume(1);
      ok := true;
    }

    /** The longest run that does not wrap. */
    method Peek() returns (at: nat, n: nat)
      requires Valid()
      ensures n <= Count() && at + n <= buf.Length && (n == 0) == (Contents() == [])
      ensures buf[at..at + n] == Contents()[..n]
      ensures n < Count() ==> at + n == buf.Length
    {
      at := tail;
      n := Min(Count(), buf.Length - tail);
      forall i | 0 <= i < n ensures buf[at..at + n][i] == Contents()[i] {
        assert Wrap(tail + i, buf.Length) == tail + i;
      }
    }

    method Consume(n: nat)
      requires Valid() && n <= Count()
      modifies this`tail
      ensures Valid() && Contents() == old(Contents())[n..]
    {
      WindowDrop(buf[..], tail, Count(), n);
      WrapIsMod(tail + n, buf.Length);
      tail := (tail + n) % buf.Length;
    }

    method Clear()
      requires Valid()
      modifies this`tail
      ensures Valid() && Contents() == []
    {
      tail := head;
    }
  }
}
