/** The buffers and the flash themselves, with operations that complete at once. Every operation is
    recorded, so that FlashTrace says what the same operations do when they complete later. */
module FlashWriter {
  import opened Cyclic
  import opened FlashTrace

  /** The four buffers in the one block of memory they share. */
  function Rows(block: seq<byte>): (rows: seq<seq<byte>>)
    requires |block| == BUFFER_COUNT * BUFFER_LENGTH
    ensures |rows| == BUFFER_COUNT
    ensures forall i :: 0 <= i < BUFFER_COUNT ==> |rows[i]| == BUFFER_LENGTH
  {
    [block[..128], block[128..256], block[256..384], block[384..]]
  }

  lemma RowPatched(before: seq<byte>, after: seq<byte>, row: nat, pos: nat, bytes: seq<byte>)
    requires |before| == |after| == BUFFER_COUNT * BUFFER_LENGTH && row < BUFFER_COUNT
    requires pos + |bytes| <= BUFFER_LENGTH
    requires forall i :: 0 <= i < |before| ==>
               after[i] == if 128 * row + pos <= i < 128 * row + pos + |bytes| then bytes[i - (128 * row + pos)]
                           else before[i]
    ensures Rows(after) == Rows(before)[row := Patch(Rows(before)[row], pos, bytes)]
  {
    var rows := Rows(before)[row := Patch(Rows(before)[row], pos, bytes)];
    forall r | 0 <= r < BUFFER_COUNT
      ensures Rows(after)[r] == rows[r]
    {
      assert |Rows(after)[r]| == |rows[r]|;
      forall k | 0 <= k < BUFFER_LENGTH
        ensures Rows(after)[r][k] == rows[r][k]
      {
        assert Rows(after)[r][k] == after[128 * r + k] && Rows(before)[r][k] == before[128 * r + k];
      }
    }
  }

  class Writer {
    const flash: array<byte>
    const block: array<byte>
    var current: nat
    ghost var trace: seq<Op>
    /** The memory at the beginning, from which the trace leads to the present one. */
    ghost const origin: Mem

    ghost function View(): (m: Mem)
      requires block.Length == BUFFER_COUNT * BUFFER_LENGTH
      reads this, flash, block
    {
      Mem(flash[..], Rows(block[..]), current)
    }

    ghost predicate Valid()
      reads this, flash, block
    {
      && block.Length == BUFFER_COUNT * BUFFER_LENGTH && flash != block && current < BUFFER_COUNT
      && Sound(origin) && |origin.flash| == flash.Length && AllFit(flash.Length, trace)
      && Replay(origin, trace) == View()
    }

    constructor (flash: array<byte>)
      ensures Valid() && fresh(block) && this.flash == flash && trace == [] && origin == View()
    {
      this.flash := flash;
      var buffers := new byte[BUFFER_COUNT * BUFFER_LENGTH];
      block := buffers;
      current := 0;
      trace := [];
      origin := Mem(flash[..], Rows(buffers[..]), 0);
    }

    /** memcpy into the current buffer. */
    method FillBuffer(pos: nat, bytes: seq<byte>)
      requires Valid() && pos + |bytes| <= BUFFER_LENGTH
      modifies this`trace, block
      ensures Valid()
      ensures trace == old(trace) + [Fill(pos, bytes)] && View() == Sync(old(View()), Fill(pos, bytes))
    {
      hide Replay;
      ghost var before, cells := block[..], flash[..];
      forall i | 0 <= i < |bytes| {
        block[128 * current + pos + i] := bytes[i];
      }
      assert flash[..] == cells;
      RowPatched(before, block[..], current, pos, bytes);
      ReplayOne(origin, trace, Fill(pos, bytes));
      trace := trace + [Fill(pos, bytes)];
    }

    /** FLASH_BUFFER_SWAP. */
    method SwapBuffers()
      requires Valid()
      modifies this`trace, this`current
      ensures Valid()
      ensures trace == old(trace) + [Swap] && View() == Sync(old(View()), Swap)
    {
      hide Replay;
      ghost var m := View();
      ReplayOne(origin, trace, Swap);
      current := (current + 1) % 4;
      trace := trace + [Swap];
      assert View() == m.(cur := current);
    }

    /** nrf_dfu_flash_erase: fails by itself, or outside the flash. */
    method EraseFlash(addr: nat, n: nat, ok: bool) returns (done: bool)
      requires Valid()
      modifies this`trace, flash
      ensures Valid()
      ensures done == (ok && addr + n <= flash.Length)
      ensures trace == old(trace) + (if done then [Erase(addr, n)] else [])
      ensures View() == if done then Sync(old(View()), Erase(addr, n)) else old(View())
    {
      hide Replay;
      done := ok && addr + n <= flash.Length;
      if done {
        ghost var before, cells := flash[..], block[..];
        forall i | addr <= i < addr + n {
          flash[i] := ERASED;
        }
        assert block[..] == cells;
        assert flash[..] == EraseCells(before, addr, n);
        ReplayOne(origin, trace, Erase(addr, n));
        trace := trace + [Erase(addr, n)];
      } else {
        assert trace + [] == trace;
      }
    }

    /** nrf_dfu_flash_store of the first bytes of the current buffer, and the FLASH_BUFFER_SWAP that
        follows it whether it succeeded or not. */
    method FlushBuffer(addr: nat, n: nat, ok: bool) returns (done: bool)
      requires Valid() && n <= BUFFER_LENGTH
      modifies this`trace, this`current, flash
      ensures Valid()
      ensures done == (ok && addr + n <= flash.Length)
      ensures trace == old(trace) + [if done then Flush(addr, n) else Swap]
      ensures View() == Sync(old(View()), if done then Flush(addr, n) else Swap)
    {
      hide Replay, ProgramCell;
      done := ok && addr + n <= flash.Length;
      if done {
        ghost var before, cells, bytes := flash[..], block[..], Rows(block[..])[current][..n];
        assert forall i :: 0 <= i < n ==> bytes[i] == block[128 * current + i];
        forall i | 0 <= i < n {
          flash[addr + i] := ProgramCell(flash[addr + i], block[128 * current + i]);
        }
        assert block[..] == cells;
        assert flash[..] == ProgramCells(before, addr, bytes);
        ReplayOne(origin, trace, Flush(addr, n));
        trace := trace + [Flush(addr, n)];
        current := (current + 1) % 4;
      } else {
        SwapBuffers();
      }
    }
  }
}
