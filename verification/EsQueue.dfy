/** The frame queue of Firmware/AppBase/Src/Libraries/ES_Queue.c: a ring of bytes, two indices and
    two counters, proved to behave as the FrameFifo of the same capacity. */
module EsQueue {
  import opened Cyclic
  import opened FrameFifo

  /** ES_Queue_ReturnCode_t is a set of bits that the operations OR together. */
  datatype ReturnCode = ReturnCode(succeed: bool, overlap: bool, cycle: bool) {
    function Or(other: ReturnCode): ReturnCode {
      ReturnCode(succeed || other.succeed, overlap || other.overlap, cycle || other.cycle)
    }
  }
  const FAILED := ReturnCode(false, false, false)
  const SUCCEED := ReturnCode(true, false, false)
  const OVERLAP := ReturnCode(false, true, false)
  const CYCLE := ReturnCode(false, false, true)

  /** The value a `uint32_t` counter shows after `x` increments from zero. */
  function U32(x: nat): (r: nat)
    ensures r < 0x1_0000_0000
  {
    if x < 0x1_0000_0000 then x else U32(x - 0x1_0000_0000)
  }

  function Increment32(x: nat): (r: nat) { if x == 0xFFFF_FFFF then 0 else x + 1 }
  function Increment16(x: nat): (r: nat) { if x == 0xFFFF then 0 else x + 1 }
  function Decrement16(x: nat): (r: nat) { if x == 0 then 0xFFFF else x - 1 }

  /** Between `read` and `write` the ring holds the frames `held`, then the part of a frame under
      construction; at least one cell stays free. */
  ghost predicate Holds(ring: seq<byte>, read: nat, write: nat, held: seq<Frame>, part: seq<byte>) {
    && AllStorable(held)
    && read < |ring|
    && |Stream(held)| + |part| < |ring|
    && write == Wrap(read + |Stream(held)| + |part|, |ring|)
    && Window(ring, read, |Stream(held)| + |part|) == Stream(held) + part
  }

  /** As Holds, right after a byte was stored: the ring may be full, and then the indices meet. */
  ghost predicate Filled(ring: seq<byte>, read: nat, write: nat, held: seq<Frame>, part: seq<byte>) {
    && AllStorable(held)
    && read < |ring|
    && 0 < |part| < |ring|
    && |Stream(held)| + |part| <= |ring|
    && write == Wrap(read + |Stream(held)| + |part|, |ring|)
    && Window(ring, read, |Stream(held)| + |part|) == Stream(held) + part
  }

  lemma ByteStored(before: seq<byte>, after: seq<byte>, read: nat, write: nat, held: seq<Frame>, part: seq<byte>,
                   b: byte)
    requires Holds(before, read, write, held, part)
    requires |part| + 1 < |before| && after == before[write := b]
    ensures Filled(after, read, Wrap(write + 1, |before|), held, part + [b])
  {
    WindowExtend(before, after, read, |Stream(held)| + |part|, b);
    assert Stream(held) + part + [b] == Stream(held) + (part + [b]);
  }

  lemma RoomLeft(ring: seq<byte>, read: nat, write: nat, held: seq<Frame>, part: seq<byte>)
    requires Filled(ring, read, write, held, part)
    ensures write != read ==> Holds(ring, read, write, held, part)
    ensures write == read <==> |Stream(held)| + |part| == |ring|
  {
  }

  lemma StreamParts(held: seq<Frame>)
    requires AllStorable(held)
    ensures held == [] ==> Stream(held) == []
    ensures held != [] ==> Stream(held) == Encode(held[0]) + Stream(held[1..])
  {
  }

  /** When the indices meet, the two cells there hold the oldest frame's length, and jumping over
      that frame leaves a ring that holds the others. */
  lemma OldestFrame(ring: seq<byte>, read: nat, held: seq<Frame>, part: seq<byte>)
    requires Filled(ring, read, read, held, part)
    ensures held != [] && 2 + |held[0]| <= |ring| && 3 * |held| <= |ring|
    ensures (ring[read] as int) + 256 * (ring[Wrap(read + 1, |ring|)] as int) == |held[0]|
    ensures Holds(ring, Wrap(read + 2 + |held[0]|, |ring|), read, held[1..], part)
  {
    hide Window, Stream;
    RoomLeft(ring, read, read, held, part);
    StreamParts(held);
    var head, rest := Encode(held[0]), Stream(held[1..]) + part;
    assert |head| + |rest| == |ring| && Window(ring, read, |ring|) == head + rest by {
      assert Stream(held) + part == head + rest;
    }
    hide Holds, Filled;
    FrameLength(ring, read, held[0], rest);
    WindowDrop(ring, read, head, rest);
    RestHeld(ring, Wrap(read + |head|, |ring|), held[1..], part);
  }

  lemma FrameLength(ring: seq<byte>, read: nat, f: Frame, rest: seq<byte>)
    requires Storable(f) && read < |ring| && |Encode(f)| + |rest| <= |ring|
    requires Window(ring, read, |Encode(f)| + |rest|) == Encode(f) + rest
    ensures (ring[read] as int) + 256 * (ring[Wrap(read + 1, |ring|)] as int) == |f|
  {
    hide Window;
    var n := |Encode(f)| + |rest|;
    WindowAt(ring, read, n, 0);
    WindowAt(ring, read, n, 1);
    assert (Encode(f) + rest)[0] == Encode(f)[0] && (Encode(f) + rest)[1] == Encode(f)[1];
  }

  lemma RestHeld(ring: seq<byte>, read: nat, held: seq<Frame>, part: seq<byte>)
    requires AllStorable(held) && read < |ring| && |Stream(held)| + |part| < |ring|
    requires Window(ring, read, |Stream(held) + part|) == Stream(held) + part
    ensures Holds(ring, read, Wrap(read + |Stream(held) + part|, |ring|), held, part)
  {
    hide Window, Stream;
  }

  /** A ring with a free cell needs at most one eviction for one more byte. */
  lemma EvictOne(held: seq<Frame>, part: nat, capacity: nat)
    requires AllStorable(held) && |Stream(held)| + part <= capacity && part + 1 <= capacity
    ensures Evict(held, part + 1, capacity) ==
            if |Stream(held)| + part == capacity then held[1..] else held
  {
    if held != [] {
      assert Stream(held) == Encode(held[0]) + Stream(held[1..]);
    }
  }

  /** Before its first byte, a write has evicted nothing. */
  lemma WriteStarts(ring: seq<byte>, read: nat, write: nat, held: seq<Frame>, f: Frame)
    requires Storable(f) && Holds(ring, read, write, held, [])
    ensures Holds(ring, read, write, held, Encode(f)[..0])
    ensures Evict(held, 0, |ring| - 1) == held
    ensures write < |ring| && Wrap(write + 0, |ring|) == write
  {
  }

  lemma {:induction false} CountUp(x: nat)
    ensures Increment32(U32(x)) == U32(x + 1)
  {
    if x >= 0x1_0000_0000 {
      CountUp(x - 0x1_0000_0000);
    }
  }

  /** Once all its bytes are in, the frame under construction is the youngest frame held. */
  lemma FrameComplete(ring: seq<byte>, read: nat, write: nat, held: seq<Frame>, f: Frame)
    requires Storable(f) && |ring| < 0x1_0000 && Holds(ring, read, write, held, Encode(f)[..2 + |f|])
    ensures AllStorable(held + [f]) && Holds(ring, read, write, held + [f], [])
    ensures |held| + 1 < 0x1_0000
  {
    StreamSnoc(held, f);
    assert Encode(f)[..2 + |f|] == Encode(f);
    assert Stream(held + [f]) + [] == Stream(held + [f]);
  }

  /** The indices meet exactly when nothing is held. */
  lemma EmptyWhenMet(ring: seq<byte>, read: nat, write: nat, held: seq<Frame>)
    requires Holds(ring, read, write, held, [])
    ensures read < |ring| && write < |ring|
    ensures read == write <==> held == []
  {
  }

  /** The ring holds its oldest frame cell by cell, across the wrap too, and dropping that frame
      leaves a ring that holds the others. */
  lemma HeldFrame(ring: seq<byte>, read: nat, write: nat, held: seq<Frame>)
    requires held != [] && Holds(ring, read, write, held, [])
    ensures 2 + |held[0]| < |ring|
    ensures (ring[read] as int) + 256 * (ring[Wrap(read + 1, |ring|)] as int) == |held[0]|
    ensures forall i :: 0 <= i < |held[0]| ==> ring[Wrap(read + 2 + i, |ring|)] == held[0][i]
    ensures Holds(ring, Wrap(read + 2 + |held[0]|, |ring|), write, held[1..], [])
  {
    hide Window, Stream;
    StreamParts(held);
    var head, rest := Encode(held[0]), Stream(held[1..]);
    assert Stream(held) + [] == head + rest && rest + [] == rest;
    FrameLength(ring, read, held[0], rest);
    forall i | 0 <= i < |held[0]|
      ensures ring[Wrap(read + 2 + i, |ring|)] == held[0][i]
    {
      WindowAt(ring, read, |head| + |rest|, 2 + i);
      assert (head + rest)[2 + i] == head[2 + i];
    }
    WindowDrop(ring, read, head, rest);
    RestHeld(ring, Wrap(read + |head|, |ring|), held[1..], []);
  }

  class Queue {
    const data: array<byte>
    var indexWrite: nat
    var indexRead: nat
    var elementCounter: nat
    var overlapCounter: nat
    /** What the queue holds and what became of every frame written since the last clear. */
    ghost var content: Fifo

    ghost predicate Valid()
      reads this, data
    {
      && 0 < data.Length < 0x1_0000
      && Consistent(content)
      && Holds(data[..], indexRead, indexWrite, content.frames, [])
      && elementCounter == |content.frames|
      && overlapCounter == U32(content.dropped)
    }

    /** ES_Queue_Init: the buffer is whatever it was, the queue is empty. */
    constructor (buffer: array<byte>)
      requires 0 < buffer.Length < 0x1_0000
      ensures Valid() && data == buffer && content == EMPTY
    {
      data := buffer;
      indexWrite, indexRead := 0, 0;
      elementCounter, overlapCounter := 0, 0;
      content := EMPTY;
    }

    /** ES_Queue_Next. */
    method Next(index: nat) returns (next: nat, code: ReturnCode)
      requires index < data.Length
      ensures next == Wrap(index + 1, data.Length)
      ensures code == if next == 0 then CYCLE else SUCCEED
    {
      if index + 1 < data.Length {
        return index + 1, SUCCEED;
      } else {
        return 0, CYCLE;
      }
    }

    /** ES_Queue_PreventOverlap: when the write index has run into the read index, the read index
        jumps over the oldest frame, whose length it takes from the ring. */
    method PreventOverlap(write: nat, read: nat, ghost held: seq<Frame>, ghost part: seq<byte>)
      returns (read': nat, code: ReturnCode, ghost held': seq<Frame>)
      requires data.Length < 0x1_0000 && Filled(data[..], read, write, held, part)
      requires elementCounter == |held|
      modifies this`elementCounter, this`overlapCounter
      ensures held' == if |Stream(held)| + |part| == data.Length then held[1..] else held
      ensures Holds(data[..], read', write, held', part)
      ensures code == if |held'| == |held| then SUCCEED else OVERLAP
      ensures elementCounter == |held'|
      ensures overlapCounter == if |held'| == |held| then old(overlapCounter) else Increment32(old(overlapCounter))
    {
      held', read' := held, read;
      ghost var ring := data[..];
      RoomLeft(ring, read, write, held, part);
      if write == read {
        OldestFrame(ring, read, held, part);
        var low := data[read'];
        read', code := Next(read');
        var high := data[read'];
        read', code := Next(read');
        var length: nat := (low as int) + 256 * (high as int);
        for i := 0 to length
          invariant read' == Wrap(read + 2 + i, data.Length)
          invariant elementCounter == |held| && overlapCounter == old(overlapCounter)
        {
          read', code := Next(read');
        }
        elementCounter := Decrement16(elementCounter);
        overlapCounter := Increment32(overlapCounter);
        held' := held[1..];
        assert read' == Wrap(read + 2 + |held[0]|, |ring|) && write == read;
        assert data[..] == ring;
        code := OVERLAP;
      } else {
        code := SUCCEED;
      }
    }

    /** One byte of a frame: store it, advance the write index, make room if the ring is full. */
    method PutByte(b: byte, write: nat, read: nat, ghost held: seq<Frame>, ghost part: seq<byte>)
      returns (write': nat, read': nat, code: ReturnCode, ghost held': seq<Frame>)
      requires data.Length < 0x1_0000 && Holds(data[..], read, write, held, part)
      requires |part| + 1 < data.Length
      requires elementCounter == |held|
      modifies this`elementCounter, this`overlapCounter, data
      ensures held' == Evict(held, |part| + 1, data.Length - 1)
      ensures held' == held || (held != [] && held' == held[1..])
      ensures Holds(data[..], read', write', held', part + [b])
      ensures write' == Wrap(write + 1, data.Length)
      ensures code == ReturnCode(|held'| == |held| || write' != 0, |held'| < |held|, write' == 0)
      ensures elementCounter == |held'|
      ensures overlapCounter == if |held'| == |held| then old(overlapCounter) else Increment32(old(overlapCounter))
    {
      ghost var before := data[..];
      data[write] := b;
      ByteStored(before, data[..], read, write, held, part, b);
      EvictOne(held, |part|, data.Length - 1);
      var step, overlap;
      write', step := Next(write);
      read', overlap, held' := PreventOverlap(write', read, held, part + [b]);
      code := step.Or(overlap);
    }

    /** The state of a write after `k` bytes of the frame `f`: the frames `held` are those of
        `before` that had to make room for `k` bytes and no more. */
    ghost predicate Writing(f: Frame, k: nat, before: Fifo, start: nat, write: nat, read: nat,
                            held: seq<Frame>, code: ReturnCode)
      reads this, data
      requires Storable(f) && k <= 2 + |f| && AllStorable(before.frames)
    {
      && 2 + |f| < data.Length < 0x1_0000 && start < data.Length
      && Holds(data[..], read, write, held, Encode(f)[..k])
      && held == Evict(before.frames, k, data.Length - 1)
      && write == Wrap(start + k, data.Length)
      && elementCounter == |held|
      && overlapCounter == U32(before.dropped + |before.frames| - |held|)
      && code.overlap == (|held| < |before.frames|)
      && code.cycle == (start + k >= data.Length)
      && (k >= 1 ==> code.succeed || (k == 1 && start + 1 == data.Length))
    }

    method PutNext(b: byte, write: nat, read: nat, code: ReturnCode,
                   ghost f: Frame, ghost k: nat, ghost before: Fifo, ghost start: nat, ghost held: seq<Frame>)
      returns (write': nat, read': nat, code': ReturnCode, ghost held': seq<Frame>)
      requires Storable(f) && AllStorable(before.frames) && k < 2 + |f| && b == Encode(f)[k]
      requires Writing(f, k, before, start, write, read, held, code)
      modifies this`elementCounter, this`overlapCounter, data
      ensures Writing(f, k + 1, before, start, write', read', held', code')
    {
      hide Encode, Holds, Evict, U32, Stream;
      var step;
      write', read', step, held' := PutByte(b, write, read, held, Encode(f)[..k]);
      code' := code.Or(step);
      EvictStepwise(before.frames, k, k + 1, data.Length - 1);
      CountUp(before.dropped + |before.frames| - |held|);
      TakeNext(Encode(f), k);
    }

    /** ES_Queue_Write: the queue becomes the bounded FIFO's answer to the same frame; the result
        says whether a frame was lost and whether the write index went round. */
    method Write(f: Frame) returns (code: ReturnCode)
      requires Valid()
      requires |f| + 2 < data.Length
      modifies this, data
      ensures Valid()
      ensures f == [] ==> code == FAILED && content == old(content)
      ensures f != [] ==> content == Push(old(content), f, data.Length - 1)
      ensures f != [] ==> code == ReturnCode(true, content.dropped > old(content.dropped),
                                             old(indexWrite) + 2 + |f| >= data.Length)
    {
      hide Holds, Evict, U32, Stream, Window;
      code := FAILED;
      if |f| > 0 {
        ghost var held := content.frames;
        var write, read := indexWrite, indexRead;
        WriteStarts(data[..], indexRead, indexWrite, held, f);
        write, read, code, held := PutNext(|f| % 256, write, read, code, f, 0, content, indexWrite, held);
        write, read, code, held := PutNext(|f| / 256, write, read, code, f, 1, content, indexWrite, held);
        for i := 0 to |f|
          invariant content == old(content) && indexWrite == old(indexWrite)
          invariant Writing(f, 2 + i, content, indexWrite, write, read, held, code)
        {
          write, read, code, held := PutNext(f[i], write, read, code, f, 2 + i, content, indexWrite, held);
        }
        FrameComplete(data[..], read, write, held, f);
        PushConsistent(content, f, data.Length - 1);
        ghost var ring := data[..];
        content := Push(content, f, data.Length - 1);
        indexWrite := write;
        indexRead := read;
        elementCounter := Increment16(elementCounter);
        assert data[..] == ring;
      }
    }

    /** The loop of ES_Queue_Read over the payload. */
    method CopyFrame(dst: array<byte>, from: nat, length: nat, before: ReturnCode, ghost frame: Frame)
      returns (read: nat, code: ReturnCode)
      requires dst != data && length == |frame| <= dst.Length && from < data.Length && length < data.Length
      requires before.succeed && !before.overlap && (before.cycle ==> from + length < data.Length)
      requires forall i :: 0 <= i < |frame| ==> data[Wrap(from + i, data.Length)] == frame[i]
      modifies dst
      ensures read == Wrap(from + length, data.Length)
      ensures code == ReturnCode(true, false, before.cycle || from + length >= data.Length)
      ensures dst[..length] == frame && dst[length..] == old(dst[length..])
    {
      var step;
      read, code := from, before;
      for i := 0 to length
        invariant read == Wrap(from + i, data.Length)
        invariant code == ReturnCode(true, false, before.cycle || from + i >= data.Length)
        invariant forall j :: 0 <= j < i ==> dst[j] == frame[j]
        invariant forall j :: i <= j < dst.Length ==> dst[j] == old(dst[j])
      {
        dst[i] := data[read];
        read, step := Next(read);
        code := code.Or(step);
      }
    }

    /** ES_Queue_Read: hands over the oldest frame byte for byte, or reports failure exactly when
        the queue is empty; the result says whether the read index went round. */
    method Read(dst: array<byte>) returns (code: ReturnCode, length: nat)
      requires Valid() && dst != data
      requires content.frames != [] ==> |content.frames[0]| <= dst.Length
      modifies this, dst
      ensures Valid()
      ensures old(content).frames == [] ==> code == FAILED && length == 0 &&
                                            content == old(content) && dst[..] == old(dst[..])
      ensures old(content).frames != [] ==>
                && content == Pop(old(content))
                && length == |old(content).frames[0]|
                && dst[..length] == old(content).frames[0]
                && dst[length..] == old(dst[length..])
                && code == ReturnCode(true, false, old(indexRead) + 2 + length >= data.Length)
    {
      hide Holds, Stream, Window, Encode, Consistent;
      code, length := FAILED, 0;
      EmptyWhenMet(data[..], indexRead, indexWrite, content.frames);
      if indexRead != indexWrite {
        ghost var ring, frame := data[..], content.frames[0];
        HeldFrame(ring, indexRead, indexWrite, content.frames);
        var read, step := indexRead, FAILED;
        var low := data[read];
        read, step := Next(read);
        code := code.Or(step);
        var high := data[read];
        read, step := Next(read);
        code := code.Or(step);
        length := (low as int) + 256 * (high as int);
        read, code := CopyFrame(dst, read, length, code, frame);
        PopConsistent(content);
        content := Pop(content);
        indexRead := read;
        elementCounter := Decrement16(elementCounter);
        assert data[..] == ring;
      }
    }

    /** ES_Queue_ClearAll. */
    method ClearAll()
      requires Valid()
      modifies this, data
      ensures Valid() && content == EMPTY
      ensures forall i :: 0 <= i < data.Length ==> data[i] == 0
    {
      for i := 0 to data.Length
        invariant forall j :: 0 <= j < i ==> data[j] == 0
      {
        data[i] := 0;
      }
      indexRead, indexWrite := 0, 0;
      elementCounter, overlapCounter := 0, 0;
      content := EMPTY;
    }
  }

  /** Since the last clear: the frames written are the frames read, plus the element counter, plus
      the frames dropped, which the overlap counter shows until it goes round. */
  lemma CountersBalance(q: Queue)
    requires q.Valid()
    ensures |q.content.Written()| == |q.content.delivered| + q.elementCounter + q.content.dropped
    ensures q.content.dropped < 0x1_0000_0000 ==>
              |q.content.Written()| == |q.content.delivered| + q.elementCounter + q.overlapCounter
  {
    hide Holds;
  }
}
