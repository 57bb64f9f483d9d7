/** What the frame queue of ES_Queue.c is for, without indices: a first-in first-out list of
    variable-length frames in a bounded number of bytes, which makes room by dropping its oldest
    frames. The history of a queue since it was last cleared is kept beside its content. */
module FrameFifo {
  import opened Cyclic

  type Frame = seq<byte>

  /** A frame the queue can be asked to store: not empty, length in a `uint16_t`. */
  predicate Storable(f: Frame) {
    0 < |f| < 0x1_0000
  }

  /** The bytes a frame occupies: its length, low byte first, then its payload. */
  function Encode(f: Frame): (r: seq<byte>)
    requires Storable(f)
    ensures |r| == 2 + |f|
    ensures (r[0] as int) + 256 * (r[1] as int) == |f|
  {
    [|f| % 256, |f| / 256] + f
  }

  predicate AllStorable(frames: seq<Frame>) {
    forall i :: 0 <= i < |frames| ==> Storable(frames[i])
  }

  /** The bytes of a list of frames, oldest first. */
  function Stream(frames: seq<Frame>): (r: seq<byte>)
    requires AllStorable(frames)
    ensures |r| >= 3 * |frames|
  {
    if frames == [] then [] else Encode(frames[0]) + Stream(frames[1..])
  }

  /** Drops oldest frames until `need` more bytes fit into `capacity`. */
  function Evict(frames: seq<Frame>, need: nat, capacity: nat): (kept: seq<Frame>)
    requires AllStorable(frames)
    ensures AllStorable(kept)
    ensures |kept| <= |frames|
  {
    if frames == [] || |Stream(frames)| + need <= capacity then frames
    else Evict(frames[1..], need, capacity)
  }

  /** The content of a queue and its history since the last clear: `gone` are the frames that
      have left, in order, of which `delivered` were read and `dropped` many were lost to overlap. */
  datatype Fifo = Fifo(frames: seq<Frame>, gone: seq<Frame>, delivered: seq<Frame>, dropped: nat) {
    /** Every frame written since the last clear. */
    function Written(): seq<Frame> { gone + frames }
  }

  const EMPTY := Fifo([], [], [], 0)

  function Push(q: Fifo, f: Frame, capacity: nat): (r: Fifo)
    requires AllStorable(q.frames) && Storable(f)
  {
    var kept := Evict(q.frames, 2 + |f|, capacity);
    var lost := |q.frames| - |kept|;
    Fifo(kept + [f], q.gone + q.frames[..lost], q.delivered, q.dropped + lost)
  }

  function Pop(q: Fifo): (r: Fifo)
    requires q.frames != []
  {
    Fifo(q.frames[1..], q.gone + [q.frames[0]], q.delivered + [q.frames[0]], q.dropped)
  }

  // ----- eviction drops the shortest prefix that makes room -----

  lemma {:induction false} EvictIsSuffix(frames: seq<Frame>, need: nat, capacity: nat)
    requires AllStorable(frames)
    ensures Evict(frames, need, capacity) == frames[|frames| - |Evict(frames, need, capacity)|..]
  {
    if frames != [] && |Stream(frames)| + need > capacity {
      EvictIsSuffix(frames[1..], need, capacity);
    }
  }

  /** The number of dropped frames is the least that makes room: dropping any fewer does not,
      and what is kept fits as soon as the empty queue would. */
  lemma {:induction false} EvictIsShortest(frames: seq<Frame>, need: nat, capacity: nat)
    requires AllStorable(frames) && need <= capacity
    ensures |Stream(Evict(frames, need, capacity))| + need <= capacity
    ensures forall d :: 0 <= d < |frames| - |Evict(frames, need, capacity)| ==>
              |Stream(frames[d..])| + need > capacity
  {
    if frames != [] && |Stream(frames)| + need > capacity {
      EvictIsShortest(frames[1..], need, capacity);
      forall d | 0 <= d < |frames| - |Evict(frames, need, capacity)|
        ensures |Stream(frames[d..])| + need > capacity
      {
        if d == 0 {
          assert frames[0..] == frames;
        } else {
          assert frames[d..] == frames[1..][d - 1..];
        }
      }
    }
  }

  /** Making room byte by byte drops exactly the frames that making room at once drops. */
  lemma {:induction false} EvictStepwise(frames: seq<Frame>, a: nat, b: nat, capacity: nat)
    requires AllStorable(frames) && a <= b
    ensures Evict(Evict(frames, a, capacity), b, capacity) == Evict(frames, b, capacity)
  {
    if frames != [] && |Stream(frames)| + a > capacity {
      EvictStepwise(frames[1..], a, b, capacity);
    }
  }

  // ----- histories -----

  /** `a` is what remains of `b` after deleting some elements. */
  ghost predicate IsSubsequence<T>(a: seq<T>, b: seq<T>) {
    a == [] || (b != [] && (IsSubsequence(a, b[..|b| - 1]) ||
                            (a[|a| - 1] == b[|b| - 1] && IsSubsequence(a[..|a| - 1], b[..|b| - 1]))))
  }

  /** The queue history is consistent: nothing is invented, reordered or lost uncounted. */
  ghost predicate Consistent(q: Fifo) {
    && AllStorable(q.frames)
    && IsSubsequence(q.delivered, q.gone)
    && |q.gone| == |q.delivered| + q.dropped
  }

  lemma {:induction false} SubsequenceGrows<T>(a: seq<T>, b: seq<T>, more: seq<T>)
    requires IsSubsequence(a, b)
    ensures IsSubsequence(a, b + more)
    decreases |more|
  {
    if more == [] {
      assert b + more == b;
    } else {
      var init := more[..|more| - 1];
      SubsequenceGrows(a, b, init);
      assert (b + more)[..|b + more| - 1] == b + init;
    }
  }

  lemma SubsequenceSnoc<T>(a: seq<T>, b: seq<T>, x: T)
    requires IsSubsequence(a, b)
    ensures IsSubsequence(a + [x], b + [x])
  {
    assert (a + [x])[..|a|] == a && (b + [x])[..|b|] == b;
  }

  lemma {:induction false} SubsequenceShorter<T>(a: seq<T>, b: seq<T>)
    requires IsSubsequence(a, b)
    ensures |a| <= |b|
    ensures |a| == |b| ==> a == b
    decreases |b|
  {
    if a != [] {
      if IsSubsequence(a, b[..|b| - 1]) {
        SubsequenceShorter(a, b[..|b| - 1]);
      } else {
        SubsequenceShorter(a[..|a| - 1], b[..|b| - 1]);
      }
    }
  }

  /** Extending both sides on the right keeps the relation. */
  lemma {:induction false} SubsequenceAppend<T>(a: seq<T>, b: seq<T>, c: seq<T>)
    requires IsSubsequence(a, b)
    ensures IsSubsequence(a + c, b + c)
    decreases |c|
  {
    if c == [] {
      assert a + c == a && b + c == b;
    } else {
      var init := c[..|c| - 1];
      SubsequenceAppend(a, b, init);
      SubsequenceSnoc(a + init, b + init, c[|c| - 1]);
      assert a + c == (a + init) + [c[|c| - 1]] && b + c == (b + init) + [c[|c| - 1]];
    }
  }

  /** Deleting more from a subsequence leaves a subsequence. */
  lemma {:induction false} SubsequenceDelete<T>(a: seq<T>, b: seq<T>, c: seq<T>, all: seq<T>)
    requires IsSubsequence(a + b + c, all)
    ensures IsSubsequence(a + c, all)
    decreases |all|
  {
    if a + b + c == [] || b == [] {
      assert a + c == a + b + c;
    } else if IsSubsequence(a + b + c, all[..|all| - 1]) {
      SubsequenceDelete(a, b, c, all[..|all| - 1]);
    } else if c == [] {
      assert (a + b + c)[..|a + b + c| - 1] == a + b[..|b| - 1] + c;
      SubsequenceDelete(a, b[..|b| - 1], c, all[..|all| - 1]);
    } else {
      assert (a + b + c)[..|a + b + c| - 1] == a + b + c[..|c| - 1];
      SubsequenceDelete(a, b, c[..|c| - 1], all[..|all| - 1]);
      assert (a + c)[..|a + c| - 1] == a + c[..|c| - 1];
    }
  }

  /** A write adds its frame to the history and to nothing else. */
  lemma PushConsistent(q: Fifo, f: Frame, capacity: nat)
    requires Consistent(q) && Storable(f)
    ensures Consistent(Push(q, f, capacity))
    ensures Push(q, f, capacity).Written() == q.Written() + [f]
  {
    hide IsSubsequence, Evict, Stream;
    var kept := Evict(q.frames, 2 + |f|, capacity);
    var lost := |q.frames| - |kept|;
    EvictIsSuffix(q.frames, 2 + |f|, capacity);
    SubsequenceGrows(q.delivered, q.gone, q.frames[..lost]);
    assert q.frames == q.frames[..lost] + kept;
  }

  lemma PopConsistent(q: Fifo)
    requires Consistent(q) && q.frames != []
    ensures Consistent(Pop(q))
    ensures Pop(q).Written() == q.Written()
  {
    SubsequenceSnoc(q.delivered, q.gone, q.frames[0]);
  }

  /** A write keeps every frame it can: it drops the shortest prefix of oldest frames that makes
      room for the new frame, leaves the others as they were and puts the new frame behind them. */
  lemma PushDropsShortestPrefix(q: Fifo, f: Frame, capacity: nat)
    requires AllStorable(q.frames) && Storable(f) && 2 + |f| <= capacity
    ensures var r := Push(q, f, capacity);
            var lost := r.dropped - q.dropped;
            && 0 <= lost <= |q.frames|
            && r.frames == q.frames[lost..] + [f]
            && |Stream(q.frames[lost..])| + 2 + |f| <= capacity
            && forall d :: 0 <= d < lost ==> |Stream(q.frames[d..])| + 2 + |f| > capacity
  {
    hide Evict, Stream;
    EvictIsSuffix(q.frames, 2 + |f|, capacity);
    EvictIsShortest(q.frames, 2 + |f|, capacity);
  }

  // ----- runs -----

  /** One use of the queue by its owner. */
  datatype Op = Write(frame: Frame) | Read

  ghost predicate Usable(ops: seq<Op>, capacity: nat) {
    forall i :: 0 <= i < |ops| && ops[i].Write? ==>
      |ops[i].frame| + 2 <= capacity && |ops[i].frame| < 0x1_0000
  }

  /** Writing no bytes and reading an empty queue leave the queue as it is. */
  ghost function Apply(q: Fifo, op: Op, capacity: nat): (r: Fifo)
    requires AllStorable(q.frames) && (op.Write? ==> |op.frame| < 0x1_0000)
    ensures AllStorable(r.frames)
  {
    match op
    case Write(f) => if f == [] then q else Push(q, f, capacity)
    case Read => if q.frames == [] then q else Pop(q)
  }

  ghost function Run(ops: seq<Op>, capacity: nat): (r: Fifo)
    requires Usable(ops, capacity)
    ensures AllStorable(r.frames)
  {
    if ops == [] then EMPTY
    else Apply(Run(ops[..|ops| - 1], capacity), ops[|ops| - 1], capacity)
  }

  /** The frames that a run asks the queue to store, in order. */
  ghost function Writes(ops: seq<Op>): seq<Frame> {
    if ops == [] then []
    else
      var last := ops[|ops| - 1];
      Writes(ops[..|ops| - 1]) + if last.Write? && last.frame != [] then [last.frame] else []
  }

  lemma ApplyConsistent(q: Fifo, op: Op, capacity: nat)
    requires Consistent(q) && |Stream(q.frames)| <= capacity
    requires op.Write? ==> |op.frame| + 2 <= capacity && |op.frame| < 0x1_0000
    ensures var r := Apply(q, op, capacity);
            && Consistent(r) && |Stream(r.frames)| <= capacity
            && r.Written() == q.Written() + if op.Write? && op.frame != [] then [op.frame] else []
  {
    hide IsSubsequence;
    match op {
      case Write(f) =>
        if f != [] {
          PushConsistent(q, f, capacity);
          EvictIsShortest(q.frames, 2 + |f|, capacity);
          StreamSnoc(Evict(q.frames, 2 + |f|, capacity), f);
        }
      case Read =>
        if q.frames != [] {
          PopConsistent(q);
          assert Stream(q.frames) == Encode(q.frames[0]) + Stream(q.frames[1..]);
        }
    }
  }

  lemma {:induction false} RunConsistent(ops: seq<Op>, capacity: nat)
    requires Usable(ops, capacity)
    ensures Consistent(Run(ops, capacity))
    ensures Run(ops, capacity).Written() == Writes(ops)
    ensures |Stream(Run(ops, capacity).frames)| <= capacity
  {
    hide Apply, Consistent, Stream;
    if ops == [] {
      NothingHeld();
    } else {
      RunConsistent(ops[..|ops| - 1], capacity);
      ApplyConsistent(Run(ops[..|ops| - 1], capacity), ops[|ops| - 1], capacity);
    }
  }

  lemma NothingHeld()
    ensures Consistent(EMPTY) && Stream(EMPTY.frames) == [] && EMPTY.Written() == []
  {
  }

  /** Over every run since a clear: the frames written are the frames read, plus the frames still
      held, plus the frames dropped; those read and held are the written ones in their order; the
      content stays within capacity; and a run that drops nothing loses nothing. */
  lemma RunConserves(ops: seq<Op>, capacity: nat)
    requires Usable(ops, capacity)
    ensures var q := Run(ops, capacity);
            && |Writes(ops)| == |q.delivered| + |q.frames| + q.dropped
            && IsSubsequence(q.delivered + q.frames, Writes(ops))
            && |Stream(q.frames)| <= capacity
            && (q.dropped == 0 ==> q.delivered + q.frames == Writes(ops))
  {
    var q := Run(ops, capacity);
    RunConsistent(ops, capacity);
    SubsequenceAppend(q.delivered, q.gone, q.frames);
    SubsequenceShorter(q.delivered, q.gone);
  }

  lemma {:induction false} StreamSnoc(frames: seq<Frame>, f: Frame)
    requires AllStorable(frames) && Storable(f)
    ensures Stream(frames + [f]) == Stream(frames) + Encode(f)
  {
    hide Encode;
    if frames == [] {
      assert [f][1..] == [];
      assert Stream([f]) == Encode(f) + Stream([]);
      assert frames + [f] == [f];
    } else {
      var all := frames + [f];
      StreamSnoc(frames[1..], f);
      assert all[0] == frames[0] && all[1..] == frames[1..] + [f];
      assert Stream(all) == Encode(all[0]) + Stream(all[1..]);
    }
  }
}
