/** The mirror-bit ring buffer: two indices into a buffer, each with one more bit that flips when
    the index wraps around, so that a full buffer is told from an empty one. */
module RingBuffer {
  import opened Bytes
  import opened Ring

  datatype State = Empty | Full | HalfFull

  class RingBuffer {
    const pool: array<Byte>
    const size: nat
    var readMirror: bool
    var readIndex: nat
    var writeMirror: bool
    var writeIndex: nat

    /** The indices are inside the buffer, and the writer is ahead of the reader by at most one
        round: in the same mirror not behind it, in the other mirror not beyond it. */
    ghost predicate Valid()
      reads this
    {
      && 0 < size <= pool.Length && size < 0x8000
      && readIndex < size && writeIndex < size
      && if readMirror == writeMirror then readIndex <= writeIndex else writeIndex <= readIndex
    }

    function Status(): State
      reads this
    {
      if readIndex == writeIndex then (if readMirror == writeMirror then Empty else Full) else HalfFull
    }

    /** The number of bytes in the buffer. */
    function DataLen(): (n: nat)
      requires Valid()
      reads this
      ensures n <= size && Wrap(readIndex + n, size) == writeIndex
      ensures n == if readMirror == writeMirror then writeIndex - readIndex else size - readIndex + writeIndex
    {
      match Status()
      case Empty => 0
      case Full => size
      case HalfFull => if writeIndex > readIndex then writeIndex - readIndex else size - (readIndex - writeIndex)
    }

    function SpaceLen(): nat
      requires Valid()
      reads this
    {
      size - DataLen()
    }

    /** The bytes in the buffer, oldest first. */
    ghost function Contents(): (c: seq<Byte>)
      requires Valid()
      reads this, pool
      ensures |c| == DataLen()
    {
      Queue(pool[..size], readIndex, DataLen())
    }

    /** rt_ringbuffer_init; the size is aligned down. */
    constructor (pool: array<Byte>, size: nat)
      requires 4 <= size < 0x8000 && size <= pool.Length
      ensures Valid() && Contents() == [] && this.pool == pool && this.size == size / 4 * 4
      ensures readIndex == writeIndex == 0 && readMirror == writeMirror
    {
      this.pool := pool;
      this.size := size / 4 * 4;
      readMirror, readIndex, writeMirror, writeIndex := false, 0, false, 0;
    }

    /** memcpy into the buffer. */
    method CopyIn(at: nat, x: seq<Byte>)
      requires at + |x| <= pool.Length
      modifies pool
      ensures forall p :: 0 <= p < pool.Length ==> pool[p] == if at <= p < at + |x| then x[p - at] else old(pool[p])
    {
      for j := 0 to |x|
        invariant forall p :: 0 <= p < pool.Length ==> pool[p] == if at <= p < at + j then x[p - at] else old(pool[p])
      {
        pool[at + j] := x[j];
      }
    }

    /** Writes bytes at the write index and moves it on, flipping its mirror at the end. */
    method Store(x: seq<Byte>)
      requires Valid() && |x| <= size
      modifies pool, this`writeMirror, this`writeIndex
      ensures Written(old(pool[..size]), pool[..size], old(writeIndex), x)
      ensures writeIndex == Wrap(old(writeIndex) + |x|, size)
      ensures writeMirror == if old(writeIndex) + |x| < size then old(writeMirror) else !old(writeMirror)
    {
      if size - writeIndex > |x| {
        CopyIn(writeIndex, x);
        writeIndex := writeIndex + |x|;
        return;
      }
      CopyIn(writeIndex, x[..size - writeIndex]);
      CopyIn(0, x[size - writeIndex..]);
      writeMirror := !writeMirror;
      writeIndex := |x| - (size - writeIndex);
    }

    /** rt_ringbuffer_put: appends as much of the data as fits. */
    method Put(data: seq<Byte>) returns (n: nat)
      requires Valid()
      modifies pool, this`writeMirror, this`writeIndex
      ensures Valid() && n == (if old(SpaceLen()) < |data| then old(SpaceLen()) else |data|)
      ensures Contents() == old(Contents()) + data[..n]
    {
      hide Queue, Written;
      n := SpaceLen();
      if n == 0 { return; }
      if n > |data| { n := |data|; }
      ghost var b, d := pool[..size], DataLen();
      Store(data[..n]);
      QueueBack(b, pool[..size], readIndex, d, data[..n]);
    }

    /** rt_ringbuffer_put_force: as rt_ringbuffer_put when the data fits. When it does not, `size`
        bytes are taken from the caller, however short the request, and replace everything;
        except that a buffer whose two indices are in the same mirror, and which is not empty,
        comes out empty. */
    method PutForce(ptr: seq<Byte>, length: nat) returns (n: nat)
      requires Valid() && length <= |ptr| && (length > SpaceLen() ==> size <= |ptr|)
      modifies pool, this
      ensures Valid() && n == (if length <= old(SpaceLen()) then length else size)
      ensures length <= old(SpaceLen()) ==> Contents() == old(Contents()) + ptr[..length]
      ensures length > old(SpaceLen()) ==>
        Contents() == if old(Status() == HalfFull && readMirror == writeMirror) then [] else ptr[..size]
    {
      hide Written;
      ghost var b, d, w := pool[..size], DataLen(), writeIndex;
      var space := SpaceLen();
      n := length;
      if n > space { n := size; }
      Store(ptr[..n]);
      if n > space {
        readMirror := !readMirror;
        readIndex := writeIndex;
        QueueBack(b, pool[..size], w, 0, ptr[..n]);
      } else {
        QueueBack(b, pool[..size], readIndex, d, ptr[..n]);
      }
    }

    /** rt_ringbuffer_get: takes out the oldest bytes, as many as asked for and present. */
    method Get(count: nat) returns (data: seq<Byte>)
      requires Valid()
      modifies this`readMirror, this`readIndex
      ensures Valid() && |data| == (if count < old(DataLen()) then count else old(DataLen()))
      ensures old(Contents()) == data + Contents()
    {
      hide Queue, Slices;
      var n := DataLen();
      if n == 0 { return []; }
      if n > count { n := count; }
      QueueFront(pool[..size], readIndex, DataLen(), n);
      data := CopyOut(n);
      if size - readIndex > n {
        readIndex := readIndex + n;
        return;
      }
      readMirror := !readMirror;
      readIndex := n - (size - readIndex);
    }

    /** memcpy out of the buffer. */
    method CopyOut(n: nat) returns (data: seq<Byte>)
      requires Valid() && n <= size
      ensures data == Slices(pool[..size], readIndex, n)
    {
      if size - readIndex > n {
        data := pool[readIndex..readIndex + n];
      } else {
        data := pool[readIndex..size] + pool[..n - (size - readIndex)];
      }
    }

    /** rt_ringbuffer_putchar. */
    method PutChar(ch: Byte) returns (n: nat)
      requires Valid()
      modifies pool, this`writeMirror, this`writeIndex
      ensures Valid() && n == (if old(SpaceLen()) == 0 then 0 else 1)
      ensures Contents() == old(Contents()) + [ch][..n]
    {
      if SpaceLen() == 0 { return 0; }
      ghost var b, d := pool[..size], DataLen();
      pool[writeIndex] := ch;
      QueueBack(b, pool[..size], readIndex, d, [ch]);
      if writeIndex == size - 1 {
        writeMirror := !writeMirror;
        writeIndex := 0;
      } else {
        writeIndex := writeIndex + 1;
      }
      assert [ch][..1] == [ch];
      n := 1;
    }

    /** rt_ringbuffer_putchar_force: on a full buffer exactly the oldest byte is dropped. */
    method PutCharForce(ch: Byte) returns (n: nat)
      requires Valid()
      modifies pool, this
      ensures Valid() && n == 1
      ensures Contents() == (if old(SpaceLen()) == 0 then old(Contents())[1..] else old(Contents())) + [ch]
    {
      hide Queue, Slices;
      var oldState := Status();
      if oldState == Full {
        QueueOverwritten(pool[..size], readIndex, ch);
      } else {
        QueueMore(pool[..size], readIndex, DataLen(), ch);
      }
      ghost var b: seq<Byte> := pool[..size][writeIndex := ch];
      pool[writeIndex] := ch;
      assert pool[..size] == b;
      if writeIndex == size - 1 {
        writeMirror := !writeMirror;
        writeIndex := 0;
        if oldState == Full {
          readMirror := !readMirror;
          readIndex := writeIndex;
        }
      } else {
        writeIndex := writeIndex + 1;
        if oldState == Full {
          readIndex := writeIndex;
        }
      }
      n := 1;
    }

    /** rt_ringbuffer_getchar. */
    method GetChar() returns (n: nat, ch: Byte)
      requires Valid()
      modifies this`readMirror, this`readIndex
      ensures Valid() && n == (if old(DataLen()) == 0 then 0 else 1)
      ensures if n == 0 then Contents() == old(Contents()) else old(Contents()) == [ch] + Contents()
    {
      if DataLen() == 0 { return 0, 0; }
      QueueFront(pool[..size], readIndex, DataLen(), 1);
      SliceOne(pool[..size], readIndex);
      ch := pool[readIndex];
      if readIndex == size - 1 {
        readMirror := !readMirror;
        readIndex := 0;
      } else {
        readIndex := readIndex + 1;
      }
      n := 1;
    }
  }

  /** Forcing four bytes into a buffer of four that holds one: all four are taken, and none is there. */
  method LostByForce(x: Byte, y: seq<Byte>) returns (rb: RingBuffer, n: nat)
    requires |y| == 4
    ensures fresh(rb) && rb.Valid() && rb.size == n == 4 && rb.Contents() == []
  {
    var pool := new Byte[4](_ => 0);
    rb := new RingBuffer(pool, 4);
    var one := rb.Put([x]);
    n := rb.PutForce(y, 4);
  }
}
