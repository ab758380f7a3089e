/** The pipe's ring buffer and the passes `read_pipe` and `write_pipe` make over it between sleeps. */
module Pipe {
  import opened CInt

  function Min(a: nat, b: nat): nat { if a < b then a else b }

  class Ring {
    const buffer: array<Byte>
    var readPtr: nat
    var writePtr: nat
    ghost var written: seq<Byte>
    ghost var consumed: seq<Byte>

    /** `create_pipe`. A ring of no bytes has no place for its pointers. */
    constructor (size: nat)
      ensures (Valid() <==> size > 0) && written == [] && consumed == [] && buffer.Length == size && fresh(buffer)
      ensures size > 0 ==> Contents() == []
    {
      buffer := new Byte[size](_ => 0);
      readPtr, writePtr, written, consumed := 0, 0, [], [];
    }

    /** The unread bytes, oldest first. */
    ghost function Contents(): seq<Byte>
      reads this, buffer
      requires readPtr < buffer.Length && writePtr < buffer.Length
    {
      if readPtr <= writePtr then buffer[readPtr..writePtr] else buffer[readPtr..] + buffer[..writePtr]
    }

    /** Both pointers are in the buffer, and what was read followed by what is buffered is what was written. */
    ghost predicate Valid()
      reads this, buffer
    {
      readPtr < buffer.Length && writePtr < buffer.Length && written == consumed + Contents()
    }

    function Unread(): (n: nat)
      requires Valid()
      reads this, buffer
      ensures n == |Contents()|
    {
      if readPtr == writePtr then 0
      else if readPtr > writePtr then (buffer.Length - readPtr) + writePtr
      else writePtr - readPtr
    }

    function Available(): (n: nat)
      requires Valid()
      reads this, buffer
      ensures n + |Contents()| == buffer.Length - 1
    {
      if readPtr == writePtr then buffer.Length - 1
      else if readPtr > writePtr then readPtr - writePtr - 1
      else (buffer.Length - writePtr) + readPtr - 1
    }

    /** One turn of the inner loop of `read_pipe`. */
    method Take() returns (b: Byte)
      requires Valid() && Contents() != []
      modifies `readPtr, `consumed
      ensures Valid() && b == old(Contents())[0] && Contents() == old(Contents())[1..]
      ensures consumed == old(consumed) + [b]
    {
      ghost var all := Contents();
      b := buffer[readPtr];
      assert all == [b] + all[1..];
      readPtr := readPtr + 1;
      if readPtr == buffer.Length {
        readPtr := 0;
      }
      consumed := consumed + [b];
      assert Contents() == all[1..];
    }

    /** One turn of the inner loop of `write_pipe`. */
    method Put(b: Byte)
      requires Valid() && |Contents()| < buffer.Length - 1
      modifies `writePtr, `written, buffer
      ensures Valid() && Contents() == old(Contents()) + [b] && written == old(written) + [b]
    {
      buffer[writePtr] := b;
      writePtr := writePtr + 1;
      if writePtr == buffer.Length {
        writePtr := 0;
      }
      written := written + [b];
      assert Contents() == old(Contents()) + [b];
      assert written == consumed + (old(Contents()) + [b]);
    }

    /** A whole pass of `read_pipe`: as many bytes as there are and as were asked for. */
    method ReadPass(size: nat, out: array<Byte>) returns (collected: nat)
      requires Valid() && size <= out.Length && out != buffer
      modifies `readPtr, `consumed, out
      ensures Valid() && collected == Min(|old(Contents())|, size)
      ensures collected <= size && (collected < size ==> Contents() == [])
      ensures out[..collected] == old(Contents())[..collected] && out[collected..] == old(out[collected..])
      ensures Contents() == old(Contents())[collected..] && consumed == old(consumed) + old(Contents())[..collected]
    {
      hide Contents;
      collected := 0;
      ghost var all, out0, consumed0 := Contents(), out[..], consumed;
      assert all[0..] == all && all[..0] == [];
      while Unread() > 0 && collected < size
        invariant Valid() && collected <= size && collected <= |all|
        invariant Contents() == all[collected..]
        invariant forall k :: 0 <= k < collected ==> out[k] == all[k]
        invariant forall k :: collected <= k < out.Length ==> out[k] == out0[k]
        invariant consumed == consumed0 + all[..collected]
        decreases size - collected
      {
        var b := Take();
        assert all[..collected + 1] == all[..collected] + [b];
        out[collected] := b;
        collected := collected + 1;
      }
    }

    /** A whole pass of `write_pipe` from position `done` of the request. */
    method WritePass(data: array<Byte>, size: nat, done: nat) returns (w: nat)
      requires Valid() && done <= size <= data.Length && data != buffer
      modifies `writePtr, `written, buffer
      ensures Valid() && w == done + Min(buffer.Length - 1 - |old(Contents())|, size - done)
      ensures done <= w <= size && (w < size ==> |Contents()| == buffer.Length - 1)
      ensures Contents() == old(Contents()) + data[done..w] && written == old(written) + data[done..w]
    {
      w := done;
      while Available() > 0 && w < size
        invariant Valid() && done <= w <= size && data[..] == old(data[..])
        invariant Contents() == old(Contents()) + data[done..w] && written == old(written) + data[done..w]
        decreases size - w
      {
        Put(data[w]);
        w := w + 1;
      }
    }
  }
}
