/** Cyclic buffers: the arithmetic of an index that runs around a fixed-size array, shared by the
    frame queue (ES_Queue.c) and the RTT ring (SEGGER_RTT.c). */
module Cyclic {

  /** The firmware's `uint8_t`. */
  type byte = x: int | 0 <= x < 256

  /** A position at most one turn past the end, brought back into the buffer. */
  function Wrap(i: nat, size: nat): (r: nat)
    requires i < 2 * size
    ensures r < size
  {
    if i < size then i else i - size
  }

  /** The `n` cells that start at `start`, in cyclic order. */
  function Window<T>(buffer: seq<T>, start: nat, n: nat): (w: seq<T>)
    requires start < |buffer| && n <= |buffer|
    ensures |w| == n
  {
    if n == 0 then [] else Window(buffer, start, n - 1) + [buffer[Wrap(start + n - 1, |buffer|)]]
  }

  lemma {:induction false} WindowAt<T>(buffer: seq<T>, start: nat, n: nat, i: nat)
    requires start < |buffer| && i < n <= |buffer|
    ensures Window(buffer, start, n)[i] == buffer[Wrap(start + i, |buffer|)]
  {
    if i < n - 1 {
      WindowAt(buffer, start, n - 1, i);
    }
  }

  /** Whether cell `j` of a ring of `size` cells lies in the window. */
  predicate Inside(j: nat, start: nat, n: nat, size: nat)
    requires j < size && start < size
  {
    if start <= j then j - start < n else j + size - start < n
  }

  /** Two buffers that agree on the cells of a window show the same window. */
  lemma {:induction false} WindowFrame<T>(before: seq<T>, after: seq<T>, start: nat, n: nat)
    requires |before| == |after| && start < |before| && n <= |before|
    requires forall j :: 0 <= j < |before| && Inside(j, start, n, |before|) ==> after[j] == before[j]
    ensures Window(after, start, n) == Window(before, start, n)
  {
    if n > 0 {
      WindowFrame(before, after, start, n - 1);
      assert Inside(Wrap(start + n - 1, |before|), start, n, |before|);
    }
  }

  lemma TakeNext<T>(s: seq<T>, k: nat)
    requires k < |s|
    ensures s[..k] + [s[k]] == s[..k + 1]
  {
  }

  /** Writing the cell just behind a window extends the window by that cell and moves nothing else. */
  lemma WindowExtend<T>(before: seq<T>, after: seq<T>, start: nat, n: nat, x: T)
    requires start < |before| && n < |before|
    requires after == before[Wrap(start + n, |before|) := x]
    ensures Window(after, start, n + 1) == Window(before, start, n) + [x]
  {
    WindowFrame(before, after, start, n);
  }

  /** Advancing the start over the oldest part of a window leaves the rest, with the same end. */
  lemma WindowDrop<T>(buffer: seq<T>, start: nat, front: seq<T>, rest: seq<T>)
    requires start < |buffer| && |front| + |rest| <= |buffer|
    requires Window(buffer, start, |front| + |rest|) == front + rest
    ensures Window(buffer, Wrap(start + |front|, |buffer|), |rest|) == rest
    ensures Wrap(Wrap(start + |front|, |buffer|) + |rest|, |buffer|) == Wrap(start + |front| + |rest|, |buffer|)
  {
    var n, read := |front| + |rest|, Wrap(start + |front|, |buffer|);
    forall i | 0 <= i < |rest|
      ensures Window(buffer, read, |rest|)[i] == rest[i]
    {
      WindowAt(buffer, read, |rest|, i);
      WindowAt(buffer, start, n, |front| + i);
      assert (front + rest)[|front| + i] == rest[i];
    }
  }

  /** Cells filled behind a window, still in one stretch, extend it by what they were filled with. */
  lemma {:induction false} WindowConcat<T>(buffer: seq<T>, start: nat, n: nat, end: nat, more: seq<T>)
    requires start < |buffer| && n + |more| <= |buffer|
    requires end < |buffer| && end == Wrap(start + n, |buffer|)
    requires end + |more| <= |buffer| && buffer[end..end + |more|] == more
    ensures Window(buffer, start, n + |more|) == Window(buffer, start, n) + more
    decreases |more|
  {
    if more == [] {
      assert Window(buffer, start, n) + more == Window(buffer, start, n);
    } else {
      var k := |more| - 1;
      assert buffer[end..end + k] == more[..k];
      assert buffer[end + k] == buffer[end..end + |more|][k] == more[k];
      WindowConcat(buffer, start, n, end, more[..k]);
      assert more == more[..k] + [more[k]];
    }
  }
}
