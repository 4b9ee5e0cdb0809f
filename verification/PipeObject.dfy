/** The pipe as the kernel keeps it: a ring of 4096 bytes with two free-running 32-bit counters.  Every method
    is proved to do to the bytes in the ring what the pass of the same name in module Pipe does to a queue,
    also where a counter overflows and where a copy is split at the end of the ring. */
module PipeObject {
  import opened Basics
  import opened Pipe

  /** The counters wrap at a multiple of the ring size. */
  lemma WrapSlot(x: nat)
    ensures (x % WORD) % CAPACITY == x % CAPACITY
  {
  }

  /** The place in the ring that lies i bytes behind a counter. */
  function SlotOf(tail: nat, i: nat): (x: nat)
    ensures x < CAPACITY
    ensures i <= CAPACITY ==>
              var left := tail % CAPACITY; x == if left + i < CAPACITY then left + i else left + i - CAPACITY
  {
    (tail + i) % CAPACITY
  }

  /** n bytes of a ring from a counter on, oldest first. */
  function Ring(b: seq<Byte>, tail: nat, n: nat): (q: seq<Byte>)
    requires |b| == CAPACITY
    ensures |q| == n
  {
    seq(n, i requires 0 <= i < n => b[SlotOf(tail, i)])
  }

  /** Advancing the tail drops the oldest bytes. */
  lemma RingDrop(b: seq<Byte>, tail: nat, n: nat, k: nat)
    requires |b| == CAPACITY && k <= n
    ensures Ring(b, (tail + k) % WORD, n - k) == Ring(b, tail, n)[k..]
    ensures Ring(b, tail, k) == Ring(b, tail, n)[..k]
  {
  }

  /** A copy out of the ring in one piece, or in two where it passes the end. */
  lemma RingSplit(b: seq<Byte>, tail: nat, k: nat)
    requires |b| == CAPACITY && k <= CAPACITY
    ensures var left := tail % CAPACITY;
            Ring(b, tail, k) == if left + k > CAPACITY then b[left..] + b[..left + k - CAPACITY] else b[left..left + k]
  {
  }

  /** The ring after a copy into it at left, in one piece or two. */
  function Stored(b: seq<Byte>, left: nat, bytes: seq<Byte>): (b': seq<Byte>)
    requires |b| == CAPACITY && left < CAPACITY && |bytes| <= CAPACITY
    ensures |b'| == CAPACITY
  {
    if left + |bytes| > CAPACITY then
      bytes[CAPACITY - left..] + b[left + |bytes| - CAPACITY..left] + bytes[..CAPACITY - left]
    else b[..left] + bytes + b[left + |bytes|..]
  }

  lemma OneCopy(b: seq<Byte>, left: nat, bytes: seq<Byte>)
    requires |b| == CAPACITY && left < CAPACITY && left + |bytes| <= CAPACITY
    ensures Stored(b, left, bytes) == b[..left] + bytes + b[left + |bytes|..]
  {
  }

  lemma TwoCopies(b: seq<Byte>, left: nat, bytes: seq<Byte>)
    requires |b| == CAPACITY && left < CAPACITY && |bytes| <= CAPACITY < left + |bytes|
    ensures var b1 := b[..left] + bytes[..CAPACITY - left];
            Stored(b, left, bytes) == b1[..0] + bytes[CAPACITY - left..] + b1[left + |bytes| - CAPACITY..]
  {
  }

  lemma Counters(head: nat, tail: nat, k: nat)
    requires head < WORD && tail < WORD
    ensures var size := (head - tail) % WORD;
            && (tail + size) % WORD == head
            && (k <= size ==> (head - (tail + k) % WORD) % WORD == size - k)
            && (size + k < WORD ==> ((head + k) % WORD - tail) % WORD == size + k)
  {
    assert (head - tail) % WORD == if head >= tail then head - tail else head - tail + WORD;
    assert k < WORD ==> (tail + k) % WORD == if tail + k < WORD then tail + k else tail + k - WORD;
    assert k < WORD ==> (head + k) % WORD == if head + k < WORD then head + k else head + k - WORD;
  }

  lemma NothingBetween(head: nat, tail: nat)
    requires head < WORD && tail < WORD
    ensures (head - tail) % WORD == 0 <==> head == tail
  {
  }

  /** Bytes stored behind the head follow those in the ring, and overwrite none of them. */
  lemma RingPut(b: seq<Byte>, head: nat, tail: nat, bytes: seq<Byte>)
    requires |b| == CAPACITY && head < WORD && tail < WORD && (head - tail) % WORD + |bytes| <= CAPACITY
    ensures var size := (head - tail) % WORD;
            Ring(Stored(b, head % CAPACITY, bytes), tail, size + |bytes|) == Ring(b, tail, size) + bytes
  {
    hide Stored;
    var size, left := (head - tail) % WORD, head % CAPACITY;
    var b' := Stored(b, left, bytes);
    Counters(head, tail, 0);
    RingDrop(b', tail, size + |bytes|, size);
    assert Ring(b', head, |bytes|) == bytes by { StoredThere(b, head, bytes); }
    RingKept(b, head, tail, bytes);
    var q := Ring(b', tail, size + |bytes|);
    assert q == q[..size] + q[size..];
    assert q[..size] == Ring(b', tail, size);
  }

  lemma RingKept(b: seq<Byte>, head: nat, tail: nat, bytes: seq<Byte>)
    requires |b| == CAPACITY && head < WORD && tail < WORD && (head - tail) % WORD + |bytes| <= CAPACITY
    ensures var size := (head - tail) % WORD;
            Ring(Stored(b, head % CAPACITY, bytes), tail, size) == Ring(b, tail, size)
  {
    hide Stored;
    var size, left := (head - tail) % WORD, head % CAPACITY;
    var b' := Stored(b, left, bytes);
    Counters(head, tail, 0);
    assert left == SlotOf(tail, size) by { WrapSlot(tail + size); }
    forall i | 0 <= i < size ensures b'[SlotOf(tail, i)] == b[SlotOf(tail, i)] {
      StoredElsewhere(b, left, bytes, SlotOf(tail, i));
    }
  }

  lemma StoredThere(b: seq<Byte>, head: nat, bytes: seq<Byte>)
    requires |b| == CAPACITY && |bytes| <= CAPACITY
    ensures Ring(Stored(b, head % CAPACITY, bytes), head, |bytes|) == bytes
  {
  }

  lemma StoredElsewhere(b: seq<Byte>, left: nat, bytes: seq<Byte>, x: nat)
    requires |b| == CAPACITY && left < CAPACITY && |bytes| <= CAPACITY && x < CAPACITY
    requires if left + |bytes| > CAPACITY then left + |bytes| - CAPACITY <= x < left
             else x < left || left + |bytes| <= x
    ensures Stored(b, left, bytes)[x] == b[x]
  {
  }

  class PipeState {
    const buffer: array<Byte>
    var head: nat
    var tail: nat
    var readWait: seq<nat>
    var writeWait: seq<nat>
    var readAlive: bool
    var writeAlive: bool

    function Size(): (n: nat)
      reads this
    {
      (head - tail) % WORD
    }

    ghost predicate Valid()
      reads this
    {
      buffer.Length == CAPACITY && head < WORD && tail < WORD && Size() <= CAPACITY
    }

    ghost function Value(): Pipe
      requires Valid()
      reads this, buffer
    {
      Pipe(Ring(buffer[..], tail, Size()), readWait, writeWait, readAlive, writeAlive)
    }

    constructor ()
      ensures Valid() && Value() == Empty().pipe && fresh(buffer)
    {
      buffer := new Byte[CAPACITY];
      head, tail, readWait, writeWait, readAlive, writeAlive := 0, 0, [], [], true, true;
    }

    method Read(pid: nat, size: nat) returns (r: Result)
      requires Valid()
      modifies this
      ensures Valid() && (Value(), r) == ReadPass(old(Value()), pid, size)
    {
      hide Ring;
      if head == tail && writeAlive {
        readWait := readWait + [pid];
        return Waits;
      }
      if head == tail && !writeAlive {
        return Got([]);
      }
      NothingBetween(head, tail);
      var len := Min(Size(), size);
      var bytes := CopyOut(len);
      RingDrop(buffer[..], tail, Size(), len);
      Consume(len);
      writeWait := [];
      return Got(bytes);
    }

    method Consume(len: nat)
      requires Valid() && len <= Size()
      modifies this`tail
      ensures Valid() && tail == (old(tail) + len) % WORD && Size() == old(Size()) - len
    {
      Counters(head, tail, len);
      tail := (tail + len) % WORD;
    }

    /** The copy from the tail on, in one piece or two. */
    method CopyOut(len: nat) returns (bytes: seq<Byte>)
      requires Valid() && len <= CAPACITY
      ensures bytes == Ring(buffer[..], tail, len)
    {
      hide Ring;
      var left := tail % CAPACITY;
      RingSplit(buffer[..], tail, len);
      if left + len > CAPACITY {
        var firstLen := CAPACITY - left;
        bytes := buffer[left..] + buffer[..len - firstLen];
      } else {
        bytes := buffer[left..left + len];
      }
    }

    method Write(pid: nat, bytes: seq<Byte>) returns (r: Result)
      requires Valid()
      modifies this, buffer
      ensures Valid() && (Value(), r) == WritePass(old(Value()), pid, bytes)
    {
      hide Ring, Stored;
      if Size() == CAPACITY && readAlive {
        writeWait := writeWait + [pid];
        return Waits;
      }
      if !readAlive {
        return Epipe;
      }
      var len := Min(CAPACITY - Size(), |bytes|);
      Counters(head, tail, len);
      RingPut(buffer[..], head, tail, bytes[..len]);
      Store(bytes[..len]);
      head := (head + len) % WORD;
      readWait := [];
      return Put(len);
    }

    /** memcpy into the ring. */
    method CopyIn(at: nat, bytes: seq<Byte>)
      requires at + |bytes| <= buffer.Length
      modifies buffer
      ensures buffer[..] == old(buffer[..at]) + bytes + old(buffer[at + |bytes|..])
    {
      forall i | 0 <= i < |bytes| { buffer[at + i] := bytes[i]; }
    }

    /** The copy behind the head, in one piece or two. */
    method Store(bytes: seq<Byte>)
      requires Valid() && |bytes| <= CAPACITY
      modifies buffer
      ensures buffer[..] == Stored(old(buffer[..]), head % CAPACITY, bytes)
    {
      hide Stored;
      var left := head % CAPACITY;
      if left + |bytes| > CAPACITY {
        var firstLen := CAPACITY - left;
        ghost var b := buffer[..];
        CopyIn(left, bytes[..firstLen]);
        assert b[left + firstLen..] == [] && buffer[..] == b[..left] + bytes[..firstLen];
        CopyIn(0, bytes[firstLen..]);
        TwoCopies(b, left, bytes);
      } else {
        CopyIn(left, bytes);
        OneCopy(old(buffer[..]), left, bytes);
      }
    }

    method OnReadClosed()
      requires Valid()
      modifies this
      ensures Valid() && Value() == CloseRead(old(Value()))
    {
      readAlive := false;
      writeWait := [];
    }

    method OnWriteClosed()
      requires Valid()
      modifies this
      ensures Valid() && Value() == CloseWrite(old(Value()))
    {
      writeAlive := false;
      readWait := [];
    }
  }
}
