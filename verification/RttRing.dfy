/** The ring buffers of Firmware/AppBase/Src/RTT/SEGGER_RTT.c: one side stores, the other reads,
    with no lock between them. The side that is not the firmware is the host, which may act before
    every single byte the firmware copies.

    A ring remembers which bytes have been read and which are still to be read; together, in that
    order, they are all the bytes ever stored. */
module RttRing {
  import opened Cyclic

  /** The configured behaviour for data that does not fit. Blocking is not part of this model. */
  datatype Mode = NoBlockSkip | NoBlockTrim

  function Min(a: nat, b: nat): (r: nat) { if a < b then a else b }

  class Ring {
    const buffer: array<byte>
    const mode: Mode
    var wrOff: nat
    var rdOff: nat
    ghost var delivered: seq<byte>
    ghost var unread: seq<byte>

    /** Every byte ever stored, in order. */
    ghost function Stored(): seq<byte>
      reads this
    {
      delivered + unread
    }

    ghost function Free(): int
      reads this
    {
      buffer.Length - 1 - |unread|
    }

    ghost predicate Valid()
      reads this, buffer
    {
      && rdOff < buffer.Length
      && |unread| < buffer.Length
      && wrOff == Wrap(rdOff + |unread|, buffer.Length)
      && Window(buffer[..], rdOff, |unread|) == unread
    }

    constructor (buffer: array<byte>, mode: Mode)
      requires buffer.Length > 0
      ensures Valid() && Stored() == [] && this.buffer == buffer && this.mode == mode
    {
      this.buffer, this.mode := buffer, mode;
      wrOff, rdOff := 0, 0;
      delivered, unread := [], [];
    }

    function Held(): (n: int)
      reads this
    {
      if wrOff >= rdOff then wrOff - rdOff else wrOff + buffer.Length - rdOff
    }

    // ----- the host's side -----

    /** The host of an up-buffer takes any number of the bytes that are there, from the memory
        they are in. */
    method HostReads() returns (n: nat)
      requires Valid()
      modifies this`rdOff, this`delivered, this`unread
      ensures Valid()
      ensures n <= |old(unread)| && unread == old(unread)[n..]
      ensures delivered == old(delivered) + old(unread)[..n]
      ensures Stored() == old(Stored())
    {
      hide Window;
      ghost var ring := buffer[..];
      assert Held() == |unread|;
      n :| n <= Held();
      ghost var bytes := Window(buffer[..], rdOff, |unread|)[..n];
      assert unread == unread[..n] + unread[n..];
      WindowDrop(ring, rdOff, unread[..n], unread[n..]);
      rdOff := Wrap(rdOff + n, buffer.Length);
      delivered, unread := delivered + bytes, unread[n..];
      assert buffer[..] == ring;
    }

    /** The host of a down-buffer stores any bytes for which there is room. */
    method HostStores()
      requires Valid()
      modifies this`wrOff, this`unread, buffer
      ensures Valid()
      ensures old(unread) <= unread
    {
      hide Window;
      var bytes: seq<byte> := *;
      var room := buffer.Length - 1 - Held();
      var n := Min(room, |bytes|);
      for i := 0 to n
        invariant Valid() && |unread| == |old(unread)| + i
        invariant old(unread) <= unread
        invariant rdOff == old(rdOff)
      {
        ghost var ring := buffer[..];
        buffer[wrOff] := bytes[i];
        WindowExtend(ring, buffer[..], rdOff, |unread|, bytes[i]);
        unread := unread + [bytes[i]];
        wrOff := Wrap(wrOff + 1, buffer.Length);
      }
    }

    // ----- the write offset at the end of the buffer -----

    /** Between the two assignments that wrap the write offset: it stands behind the last cell, the
        unread bytes reach up to there, or the host has just read them all and wrapped its own. */
    ghost predicate AtEnd()
      reads this, buffer
    {
      && wrOff == buffer.Length > 0 && rdOff < buffer.Length && |unread| < buffer.Length
      && (if unread == [] then rdOff == 0 else rdOff > 0 && rdOff + |unread| == buffer.Length)
      && Window(buffer[..], rdOff, |unread|) == unread
    }

    /** What the host must not do then: once it has read everything, look again before the write
        offset is back at zero. The offsets tell it the number of unread bytes exactly if there are
        any; else they show a whole buffer of old bytes. */
    lemma LooksFull()
      requires AtEnd()
      ensures Held() == |unread| <==> unread != []
      ensures unread == [] ==> Held() == buffer.Length
    {
    }

    /** The host of an up-buffer, while the write offset is at the end, and there is something to read. */
    method HostReadsAtEnd() returns (n: nat)
      requires AtEnd() && unread != []
      modifies this`rdOff, this`delivered, this`unread
      ensures AtEnd()
      ensures n <= |old(unread)| && unread == old(unread)[n..]
      ensures delivered == old(delivered) + old(unread)[..n]
      ensures Stored() == old(Stored())
    {
      hide Window;
      ghost var ring := buffer[..];
      LooksFull();
      n :| n <= Held();
      ghost var bytes := Window(buffer[..], rdOff, |unread|)[..n];
      assert unread == unread[..n] + unread[n..];
      WindowDrop(ring, rdOff, unread[..n], unread[n..]);
      rdOff := Wrap(rdOff + n, buffer.Length);
      delivered, unread := delivered + bytes, unread[n..];
      assert buffer[..] == ring;
    }

    // ----- SEGGER_RTT_Write -----

    /** Copies a chunk into the free cells behind the write offset, which reach to the end of the
        buffer at most. The host may read before each byte; it never sees a byte of the chunk, and
        no byte it has not read yet is touched. */
    method CopyIn(src: seq<byte>)
      requires Valid() && |src| <= Free() && wrOff + |src| <= buffer.Length
      modifies this`rdOff, this`delivered, this`unread, buffer
      ensures Valid() && Stored() == old(Stored()) && |unread| <= |old(unread)|
      ensures |delivered| >= |old(delivered)|
      ensures buffer[wrOff..wrOff + |src|] == src
    {
      for i := 0 to |src|
        invariant Valid() && Stored() == old(Stored()) && |unread| <= |old(unread)|
        invariant |delivered| >= |old(delivered)|
        invariant forall j :: 0 <= j < i ==> buffer[wrOff + j] == src[j]
      {
        var _ := HostReads();
        PutBehind(i, src[i]);
      }
    }

    /** Stores a byte in a free cell that the host does not know of yet. */
    method PutBehind(i: nat, b: byte)
      requires Valid() && i < Free() && wrOff + i < buffer.Length
      modifies buffer
      ensures Valid() && buffer[..] == old(buffer[..])[wrOff + i := b]
    {
      hide Window;
      ghost var ring := buffer[..];
      FreeCell(rdOff, wrOff, |unread|, i, buffer.Length);
      buffer[wrOff + i] := b;
      WindowFrame(ring, buffer[..], rdOff, |unread|);
    }

    /** Moves the write offset behind a chunk that was copied in. Where the offset wraps, the host may
        act in between. */
    method Publish(n: nat, ghost src: seq<byte>)
      requires Valid() && n == |src| <= Free() && wrOff + n <= buffer.Length
      requires buffer[wrOff..wrOff + n] == src
      modifies this
      ensures Valid() && Stored() == old(Stored()) + src && |unread| <= |old(unread)| + n
      ensures |delivered| >= |old(delivered)|
      ensures wrOff == Wrap(old(wrOff) + n, buffer.Length)
    {
      hide Window;
      WindowConcat(buffer[..], rdOff, |unread|, wrOff, src);
      assert delivered + unread + src == delivered + (unread + src);
      PublishedAt(rdOff, wrOff, |unread|, n, buffer.Length);
      wrOff := wrOff + n;
      unread := unread + src;
      if wrOff == buffer.Length {
        var _ := HostReadsAtEnd();
        wrOff := 0;
      }
    }

    /** One turn of the write loop: copies a chunk, then makes it visible to the host. */
    method StoreChunk(src: seq<byte>)
      requires Valid() && |src| <= Free() && wrOff + |src| <= buffer.Length
      modifies this, buffer
      ensures Valid() && Stored() == old(Stored()) + src && Free() >= old(Free()) - |src|
      ensures |delivered| >= |old(delivered)|
      ensures wrOff == Wrap(old(wrOff) + |src|, buffer.Length)
    {
      hide Window;
      CopyIn(src);
      ghost var copied := buffer[wrOff..wrOff + |src|];
      var _ := HostReads();
      assert buffer[wrOff..wrOff + |src|] == copied;
      Publish(|src|, src);
    }

    /** The loop of SEGGER_RTT_Write: stores the first `n` bytes, for which there is room, in at most
        two turns. */
    method StoreAll(data: seq<byte>, n: nat) returns (written: nat, ghost copies: nat)
      requires Valid() && n <= |data| && n <= Free()
      modifies this, buffer
      ensures Valid() && written == n && copies <= 2
      ensures Stored() == old(Stored()) + data[..n]
      ensures |delivered| >= |old(delivered)|
    {
      hide Window;
      var numBytes: int := n;
      written, copies := 0, 0;
      while numBytes > 0
        invariant Valid() && 0 <= numBytes && n == written + numBytes
        invariant numBytes <= Free()
        invariant Stored() == old(Stored()) + data[..written]
        invariant |delivered| >= |old(delivered)|
        invariant copies == 0 || (copies == 1 && (wrOff == 0 || numBytes == 0)) || (copies == 2 && numBytes == 0)
        decreases numBytes
      {
        var _ := HostReads();
        var rd := rdOff;
        var chunk := rd - wrOff - 1;
        if chunk < 0 {
          chunk := chunk + buffer.Length;
        }
        assert chunk == Free() && rd == rdOff;
        chunk := Min(chunk, buffer.Length - wrOff);
        chunk := Min(chunk, numBytes);
        assert 0 < chunk <= numBytes && (chunk < numBytes ==> wrOff + chunk == buffer.Length);
        var src := data[written..written + chunk];
        StoreChunk(src);
        copies := copies + 1;
        AppendSlice(old(Stored()), data, written, chunk);
        written := written + chunk;
        numBytes := numBytes - chunk;
      }
    }

    /** SEGGER_RTT_Write in a non-blocking mode. `room` is the free space when the firmware looked.
        Everything fits and is stored, or nothing (SKIP) or what fits (TRIM) is; the host, however
        it moves meanwhile, goes on reading the stored bytes in order. */
    method Write(data: seq<byte>) returns (written: nat, ghost room: nat, ghost copies: nat)
      requires Valid() && |data| < 0x8000_0000
      modifies this, buffer
      ensures Valid()
      ensures old(Free()) <= room < buffer.Length
      ensures written == if |data| <= room then |data| else if mode == NoBlockSkip then 0 else room
      ensures Stored() == old(Stored()) + data[..written]
      ensures |delivered| >= |old(delivered)| && copies <= 2
    {
      hide Window;
      copies := 0;
      var _ := HostReads();
      var rd := rdOff;
      room := Free();
      var free := rd - wrOff - 1;
      if free < 0 {
        free := free + buffer.Length;
      }
      assert free == room;
      var numBytes := |data|;
      if numBytes > free {
        if mode == NoBlockSkip {
          return 0, room, copies;
        }
        numBytes := free;
      }
      if numBytes == 0 {
        return 0, room, copies;
      }
      written, copies := StoreAll(data, numBytes);
    }

    // ----- SEGGER_RTT_Read -----

    /** Copies `n` more of the unread bytes, of which `done` are copied already, from the local
        read position `rd`; the run of cells reaches to the end of the buffer at most. The host may
        store before each byte; it touches none of the unread ones. */
    method CopyOut(dst: array<byte>, rd: nat, done: nat, n: nat)
      requires Valid() && dst != buffer && done + n <= dst.Length && done + n <= |unread|
      requires rd == Wrap(rdOff + done, buffer.Length) && rd + n <= buffer.Length
      requires dst[..done] == unread[..done]
      modifies this`wrOff, this`unread, buffer, dst
      ensures Valid()
      ensures old(unread) <= unread
      ensures dst[..done + n] == unread[..done + n]
      ensures forall j :: done + n <= j < dst.Length ==> dst[j] == old(dst[j])
    {
      hide Window;
      for i := 0 to n
        invariant Valid()
        invariant old(unread) <= unread
        invariant dst[..done + i] == unread[..done + i]
        invariant forall j :: done + n <= j < dst.Length ==> dst[j] == old(dst[j])
      {
        ghost var before, had := dst[..], unread;
        HostStores();
        assert dst[..] == before;
        assert unread[..done + i] == had[..done + i];
        WindowAt(buffer[..], rdOff, |unread|, done + i);
        dst[done + i] := buffer[rd + i];
        assert dst[..done + i] == before[..done + i];
      }
    }

    /** Gives the cells of the bytes copied out back to the host. */
    method Release(rd: nat, ghost taken: seq<byte>)
      requires Valid() && |taken| <= |unread| && taken == unread[..|taken|]
      requires rd == Wrap(rdOff + |taken|, buffer.Length)
      modifies this`rdOff, this`delivered, this`unread
      ensures Valid() && Stored() == old(Stored())
      ensures delivered == old(delivered) + taken
    {
      ghost var ring, rest := buffer[..], unread[|taken|..];
      assert unread == taken + rest;
      WindowDrop(ring, rdOff, taken, rest);
      rdOff := rd;
      assert delivered + unread == delivered + taken + rest;
      delivered, unread := delivered + taken, rest;
      assert buffer[..] == ring;
    }

    /** The two copies of SEGGER_RTT_Read, for the offsets it found, when `held` bytes were there. */
    method CopyRuns(dst: array<byte>, size: nat, wr: nat, ghost held: nat) returns (rd: nat, count: nat)
      requires Valid() && dst != buffer && size <= dst.Length && held == |unread| && wr == wrOff
      modifies this`wrOff, this`unread, buffer, dst
      ensures Valid() && old(unread) <= unread
      ensures count == Min(size, held) && rd == Wrap(rdOff + count, buffer.Length)
      ensures dst[..count] == unread[..count]
      ensures forall j :: count <= j < dst.Length ==> dst[j] == old(dst[j])
    {
      hide Window;
      assert Held() == |unread|;
      var bufferSize: int, rem: int := size, 0;
      rd, count := rdOff, 0;
      if rd > wr {
        rem := Min(buffer.Length - rd, bufferSize);
        CopyOut(dst, rd, 0, rem);
        count := count + rem;
        bufferSize := bufferSize - rem;
        rd := rd + rem;
        if rd == buffer.Length {
          rd := 0;
        }
      }
      assert dst[..count] == unread[..count];
      rem := if wr - rd < bufferSize then wr - rd else bufferSize;
      if rem > 0 {
        CopyOut(dst, rd, count, rem);
        count := count + rem;
        rd := rd + rem;
      }
    }

    /** SEGGER_RTT_Read: takes the first bytes stored, as many as asked for and there are. `held`
        is how many the firmware found there when it looked. */
    method Read(dst: array<byte>, size: nat) returns (count: nat, ghost held: nat)
      requires Valid() && dst != buffer && size <= dst.Length && size < 0x8000_0000
      modifies this, buffer, dst
      ensures Valid()
      ensures |old(unread)| <= held < buffer.Length && count == Min(size, held)
      ensures delivered == old(delivered) + dst[..count]
      ensures old(Stored()) <= Stored()
      ensures forall j :: count <= j < dst.Length ==> dst[j] == old(dst[j])
    {
      hide Window;
      HostStores();
      var wr := wrOff;
      held := |unread|;
      var rd;
      rd, count := CopyRuns(dst, size, wr, held);
      assert old(unread) <= unread;
      PrefixOfStored(delivered, old(unread), unread);
      if count > 0 {
        Release(rd, dst[..count]);
      }
    }
  }

  /** Where the write offset gets, relative to the unread bytes, when a chunk is published. */
  lemma PublishedAt(read: nat, write: nat, held: nat, n: nat, size: nat)
    requires read < size && held + n < size && write == Wrap(read + held, size) && write + n <= size
    ensures write + n < size ==> write + n == Wrap(read + held + n, size)
    ensures write + n == size && held + n > 0 ==> read > 0 && read + held + n == size
    ensures write + n == size ==> n > 0
  {
  }

  lemma PrefixOfStored(delivered: seq<byte>, before: seq<byte>, after: seq<byte>)
    requires before <= after
    ensures delivered + before <= delivered + after
  {
  }

  lemma AppendSlice(before: seq<byte>, data: seq<byte>, from: nat, n: nat)
    requires from + n <= |data|
    ensures before + data[..from] + data[from..from + n] == before + data[..from + n]
  {
    assert data[..from + n] == data[..from] + data[from..from + n];
  }

  /** A cell behind the stored bytes, with room left, is not one of the unread cells. */
  lemma FreeCell(read: nat, write: nat, held: nat, i: nat, size: nat)
    requires read < size && held + i + 1 < size && write == Wrap(read + held, size) && write + i < size
    ensures !Inside(write + i, read, held, size)
  {
  }
}