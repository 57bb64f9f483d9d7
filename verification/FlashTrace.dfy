/** The path from RAM to flash in dfu_req_handling.c: four rotating buffers, and a flash whose
    operations may complete later. What the request handler does to them is a trace of operations,
    which has a meaning when every operation completes at once, and one when completions come when
    they come. */
module FlashTrace {
  import opened Arithmetic
  import opened Cyclic

  const BUFFER_COUNT := 4
  const BUFFER_LENGTH := 128
  const ERASED: byte := 255

  /** And of the last `n` bits. */
  function And(a: nat, b: nat, n: nat): nat {
    if n == 0 then 0 else (if a % 2 == 1 && b % 2 == 1 then 1 else 0) + 2 * And(a / 2, b / 2, n - 1)
  }

  lemma {:induction false} AndBound(a: nat, b: nat, n: nat)
    ensures And(a, b, n) < Pow2(n)
  {
    if n > 0 {
      AndBound(a / 2, b / 2, n - 1);
    }
  }

  /** Programming a flash cell can only clear bits. */
  function ProgramCell(cell: byte, b: byte): (r: byte) {
    AndBound(cell, b, 8);
    WordSize();
    And(cell, b, 8)
  }

  lemma {:induction false} AndOnes(b: nat, n: nat)
    requires b < Pow2(n)
    ensures And(Pow2(n) - 1, b, n) == b
  {
    if n > 0 {
      AndOnes(b / 2, n - 1);
    }
  }

  /** An erased cell takes the byte it is programmed with. */
  lemma ErasedCellTakes(b: byte)
    ensures ProgramCell(ERASED, b) == b
  {
    WordSize();
    AndOnes(b, 8);
  }

  datatype Mem = Mem(flash: seq<byte>, bufs: seq<seq<byte>>, cur: nat)

  ghost predicate Sound(m: Mem) {
    && |m.bufs| == BUFFER_COUNT && m.cur < BUFFER_COUNT
    && forall i :: 0 <= i < BUFFER_COUNT ==> |m.bufs[i]| == BUFFER_LENGTH
  }

  /** Erase: flash pages. Fill: bytes into the current buffer. Flush: store the first bytes of the
      current buffer and go to the next one, as the code always does after a store. Swap: go to the
      next buffer alone. */
  datatype Op = Erase(addr: nat, n: nat) | Fill(pos: nat, bytes: seq<byte>) | Flush(addr: nat, n: nat) | Swap

  /** An operation on a flash of `size` bytes stays inside the flash and the buffer. */
  predicate Fits(size: nat, op: Op) {
    match op
    case Erase(addr, n) => addr + n <= size
    case Fill(pos, bytes) => pos + |bytes| <= BUFFER_LENGTH
    case Flush(addr, n) => addr + n <= size && n <= BUFFER_LENGTH
    case Swap => true
  }

  ghost predicate AllFit(size: nat, ops: seq<Op>) {
    forall i :: 0 <= i < |ops| ==> Fits(size, ops[i])
  }

  function EraseCells(flash: seq<byte>, addr: nat, n: nat): (r: seq<byte>)
    ensures |r| == |flash|
  {
    seq(|flash|, i requires 0 <= i < |flash| => if addr <= i < addr + n then ERASED else flash[i])
  }

  function ProgramCells(flash: seq<byte>, addr: nat, bytes: seq<byte>): (r: seq<byte>)
    ensures |r| == |flash|
  {
    seq(|flash|, i requires 0 <= i < |flash| =>
      if addr <= i < addr + |bytes| then ProgramCell(flash[i], bytes[i - addr]) else flash[i])
  }

  function Patch(buf: seq<byte>, pos: nat, bytes: seq<byte>): (r: seq<byte>)
    requires pos + |bytes| <= |buf|
    ensures |r| == |buf|
  {
    buf[..pos] + bytes + buf[pos + |bytes|..]
  }

  function Next(cur: nat): (n: nat) { (cur + 1) % BUFFER_COUNT }

  /** The meaning of an operation that completes at once. */
  ghost function Sync(m: Mem, op: Op): (r: Mem)
    requires Sound(m) && Fits(|m.flash|, op)
    ensures Sound(r) && |r.flash| == |m.flash|
  {
    match op
    case Erase(addr, n) => m.(flash := EraseCells(m.flash, addr, n))
    case Fill(pos, bytes) => m.(bufs := m.bufs[m.cur := Patch(m.bufs[m.cur], pos, bytes)])
    case Flush(addr, n) => m.(flash := ProgramCells(m.flash, addr, m.bufs[m.cur][..n]), cur := Next(m.cur))
    case Swap => m.(cur := Next(m.cur))
  }

  ghost function Replay(m: Mem, ops: seq<Op>): (r: Mem)
    requires Sound(m) && AllFit(|m.flash|, ops)
    ensures Sound(r) && |r.flash| == |m.flash|
  {
    if ops == [] then m else Sync(Replay(m, ops[..|ops| - 1]), ops[|ops| - 1])
  }

  lemma ReplayOne(m: Mem, ops: seq<Op>, op: Op)
    requires Sound(m) && AllFit(|m.flash|, ops) && Fits(|m.flash|, op)
    ensures AllFit(|m.flash|, ops + [op]) && Replay(m, ops + [op]) == Sync(Replay(m, ops), op)
  {
    assert (ops + [op])[..|ops|] == ops;
  }

  // ----- the order of stores -----

  /** The last erase was of the `span` cells from `base` on, and the stores since then lie one behind
      the other, from `base` up to `to`. */
  ghost predicate StoresInOrder(ops: seq<Op>, base: nat, span: nat, to: nat) {
    ops != [] &&
    var init := ops[..|ops| - 1];
    match ops[|ops| - 1]
    case Erase(addr, n) => addr == base && n == span && to == base
    case Flush(addr, n) => addr + n == to && StoresInOrder(init, base, span, addr)
    case _ => StoresInOrder(init, base, span, to)
  }

  /** Which operations keep the stores in order: anything but another erase, or a store elsewhere. */
  lemma StoresGoOn(ops: seq<Op>, base: nat, span: nat, to: nat, op: Op)
    requires if op.Erase? then op == Erase(base, span) && to == base else StoresInOrder(ops, base, span, to)
    requires op.Flush? ==> op.addr == to
    ensures StoresInOrder(ops + [op], base, span, if op.Flush? then to + op.n else to)
  {
    var all := ops + [op];
    assert all[..|all| - 1] == ops && all[|all| - 1] == op;
  }

  /** Since the erase at index `k`, every store falls inside the erased cells, below `to`, and behind
      all stores before it. */
  ghost predicate EachCellOnce(ops: seq<Op>, k: nat, base: nat, span: nat, to: nat) {
    && k < |ops| && ops[k] == Erase(base, span)
    && (forall i :: k < i < |ops| ==> !ops[i].Erase?)
    && (forall i :: k < i < |ops| && ops[i].Flush? ==>
          base <= ops[i].addr && ops[i].addr + ops[i].n <= to <= base + span)
    && (forall i, j :: k < i < j < |ops| && ops[i].Flush? && ops[j].Flush? ==> ops[i].addr + ops[i].n <= ops[j].addr)
  }

  /** Stores in order that do not leave the erased cells program no cell twice. */
  lemma {:induction false} NoCellTwice(ops: seq<Op>, base: nat, span: nat, to: nat)
    requires StoresInOrder(ops, base, span, to) && to <= base + span
    ensures base <= to && exists k: nat :: EachCellOnce(ops, k, base, span, to)
    decreases |ops|
  {
    var init, last := ops[..|ops| - 1], ops[|ops| - 1];
    if last.Erase? {
      assert EachCellOnce(ops, |ops| - 1, base, span, to);
    } else {
      var before := if last.Flush? then last.addr else to;
      NoCellTwice(init, base, span, before);
      var k :| EachCellOnce(init, k, base, span, before);
      assert EachCellOnce(ops, k, base, span, to);
    }
  }

  // ----- completion later -----

  /** A flash operation that has been started. A store refers to its buffer, and counts the swaps
      since it was issued. */
  datatype Job = EraseJob(addr: nat, n: nat) | StoreJob(addr: nat, n: nat, buf: nat, age: nat)

  datatype Async = Async(flash: seq<byte>, bufs: seq<seq<byte>>, cur: nat, jobs: seq<Job>)

  datatype FlashEvent = Do(op: Op) | Complete

  ghost predicate JobsFit(jobs: seq<Job>, bufs: seq<seq<byte>>) {
    forall i :: 0 <= i < |jobs| && jobs[i].StoreJob? ==> jobs[i].buf < |bufs| && jobs[i].n <= |bufs[jobs[i].buf]|
  }

  /** What a completing operation does to the flash: a store reads its buffer only now. */
  function Perform(flash: seq<byte>, bufs: seq<seq<byte>>, job: Job): (r: seq<byte>)
    requires job.StoreJob? ==> job.buf < |bufs| && job.n <= |bufs[job.buf]|
    ensures |r| == |flash|
  {
    match job
    case EraseJob(addr, n) => EraseCells(flash, addr, n)
    case StoreJob(addr, n, buf, _) => ProgramCells(flash, addr, bufs[buf][..n])
  }

  function Older(jobs: seq<Job>): (r: seq<Job>)
    ensures |r| == |jobs|
  {
    seq(|jobs|, i requires 0 <= i < |jobs| => if jobs[i].StoreJob? then jobs[i].(age := jobs[i].age + 1) else jobs[i])
  }

  function Happens(s: Async, e: FlashEvent): (r: Async)
    requires s.cur < |s.bufs| == BUFFER_COUNT
    requires e.Do? && e.op.Fill? ==> e.op.pos + |e.op.bytes| <= |s.bufs[s.cur]|
    requires e.Complete? && s.jobs != [] && s.jobs[0].StoreJob? ==>
               s.jobs[0].buf < |s.bufs| && s.jobs[0].n <= |s.bufs[s.jobs[0].buf]|
  {
    match e
    case Complete => if s.jobs == [] then s else s.(flash := Perform(s.flash, s.bufs, s.jobs[0]), jobs := s.jobs[1..])
    case Do(Erase(addr, n)) => s.(jobs := s.jobs + [EraseJob(addr, n)])
    case Do(Fill(pos, bytes)) => s.(bufs := s.bufs[s.cur := Patch(s.bufs[s.cur], pos, bytes)])
    case Do(Flush(addr, n)) => s.(jobs := Older(s.jobs + [StoreJob(addr, n, s.cur, 0)]), cur := Next(s.cur))
    case Do(Swap) => s.(jobs := Older(s.jobs), cur := Next(s.cur))
  }

  /** Every store completes before the fourth swap after it. */
  ghost predicate Timely(s: Async, e: FlashEvent) {
    e.Do? && (e.op.Flush? || e.op.Swap?) ==>
      forall i :: 0 <= i < |s.jobs| && s.jobs[i].StoreJob? ==> s.jobs[i].age <= 2
  }

  function PerformAll(flash: seq<byte>, bufs: seq<seq<byte>>, jobs: seq<Job>): (r: seq<byte>)
    requires JobsFit(jobs, bufs)
    ensures |r| == |flash|
  {
    if jobs == [] then flash
    else Perform(PerformAll(flash, bufs, jobs[..|jobs| - 1]), bufs, jobs[|jobs| - 1])
  }

  /** The buffer of a store that was issued `age` swaps ago. */
  predicate InTurn(job: Job, cur: nat) {
    job.StoreJob? ==>
      job.n <= BUFFER_LENGTH && job.buf < BUFFER_COUNT && (job.buf + job.age) % BUFFER_COUNT == cur
  }

  ghost predicate AllInTurn(jobs: seq<Job>, cur: nat, youngest: nat, oldest: nat) {
    forall i :: 0 <= i < |jobs| ==>
      InTurn(jobs[i], cur) && (jobs[i].StoreJob? ==> youngest <= jobs[i].age <= oldest)
  }

  /** No started store refers to the current buffer: it was issued one, two or three swaps ago. */
  ghost predicate BuffersKept(s: Async) { AllInTurn(s.jobs, s.cur, 1, 3) }

  /** The started operations, performed now, would give the flash of immediate completion. */
  ghost predicate Agrees(s: Async, m: Mem) {
    && Sound(m) && s.bufs == m.bufs && s.cur == m.cur
    && BuffersKept(s) && JobsFit(s.jobs, s.bufs)
    && PerformAll(s.flash, s.bufs, s.jobs) == m.flash
  }

  lemma {:induction false} PerformFirst(flash: seq<byte>, bufs: seq<seq<byte>>, jobs: seq<Job>)
    requires JobsFit(jobs, bufs) && jobs != []
    ensures JobsFit(jobs[1..], bufs)
    ensures PerformAll(flash, bufs, jobs) == PerformAll(Perform(flash, bufs, jobs[0]), bufs, jobs[1..])
    decreases |jobs|
  {
    if |jobs| > 1 {
      PerformFirst(flash, bufs, jobs[..|jobs| - 1]);
      assert jobs[..|jobs| - 1][1..] == jobs[1..][..|jobs| - 2];
    }
  }

  /** Jobs that read the same bytes, and differ in age only, do the same. */
  lemma {:induction false} PerformSame(flash: seq<byte>, bufs: seq<seq<byte>>, jobs: seq<Job>,
                                       bufs': seq<seq<byte>>, jobs': seq<Job>)
    requires JobsFit(jobs, bufs) && JobsFit(jobs', bufs') && |jobs| == |jobs'|
    requires forall i :: 0 <= i < |jobs| ==>
               if jobs[i].EraseJob? then jobs'[i] == jobs[i]
               else jobs'[i].StoreJob? && jobs'[i].addr == jobs[i].addr && jobs'[i].n == jobs[i].n &&
                    jobs'[i].buf == jobs[i].buf && bufs'[jobs[i].buf] == bufs[jobs[i].buf]
    ensures PerformAll(flash, bufs', jobs') == PerformAll(flash, bufs, jobs)
    decreases |jobs|
  {
    if jobs != [] {
      PerformSame(flash, bufs, jobs[..|jobs| - 1], bufs', jobs'[..|jobs| - 1]);
    }
  }

  lemma PerformLast(flash: seq<byte>, bufs: seq<seq<byte>>, jobs: seq<Job>, job: Job)
    requires JobsFit(jobs, bufs) && (job.StoreJob? ==> job.buf < |bufs| && job.n <= |bufs[job.buf]|)
    ensures JobsFit(jobs + [job], bufs)
    ensures PerformAll(flash, bufs, jobs + [job]) == Perform(PerformAll(flash, bufs, jobs), bufs, job)
  {
    assert (jobs + [job])[..|jobs|] == jobs;
  }

  // ----- a swap -----

  lemma OlderAt(jobs: seq<Job>, i: nat)
    requires i < |jobs|
    ensures Older(jobs)[i] == if jobs[i].StoreJob? then jobs[i].(age := jobs[i].age + 1) else jobs[i]
  {
  }

  /** A swap moves the current buffer on, and every store becomes one swap older. */
  lemma OlderInTurn(jobs: seq<Job>, cur: nat, youngest: nat)
    requires AllInTurn(jobs, cur, youngest, 2)
    ensures AllInTurn(Older(jobs), Next(cur), youngest + 1, 3)
  {
    hide Older;
    forall i | 0 <= i < |jobs|
      ensures InTurn(Older(jobs)[i], Next(cur))
      ensures Older(jobs)[i].StoreJob? ==> youngest + 1 <= Older(jobs)[i].age <= 3
    {
      OlderAt(jobs, i);
      assert InTurn(jobs[i], cur);
    }
  }

  lemma OlderSame(flash: seq<byte>, bufs: seq<seq<byte>>, jobs: seq<Job>)
    requires JobsFit(jobs, bufs)
    ensures JobsFit(Older(jobs), bufs) && PerformAll(flash, bufs, Older(jobs)) == PerformAll(flash, bufs, jobs)
  {
    hide Older;
    forall i | 0 <= i < |jobs|
      ensures Older(jobs)[i] == if jobs[i].StoreJob? then jobs[i].(age := jobs[i].age + 1) else jobs[i]
    {
      OlderAt(jobs, i);
    }
    PerformSame(flash, bufs, jobs, bufs, Older(jobs));
  }

  // ----- every step keeps the agreement -----

  lemma FillAgrees(s: Async, m: Mem, pos: nat, bytes: seq<byte>)
    requires Agrees(s, m) && pos + |bytes| <= BUFFER_LENGTH
    ensures Agrees(Happens(s, Do(Fill(pos, bytes))), Sync(m, Fill(pos, bytes)))
  {
    var r := Happens(s, Do(Fill(pos, bytes)));
    forall i | 0 <= i < |s.jobs| && s.jobs[i].StoreJob?
      ensures s.jobs[i].buf != s.cur
    {
      assert InTurn(s.jobs[i], s.cur);
    }
    PerformSame(s.flash, s.bufs, s.jobs, r.bufs, r.jobs);
  }

  lemma EraseAgrees(s: Async, m: Mem, addr: nat, n: nat)
    requires Agrees(s, m) && addr + n <= |m.flash|
    ensures Agrees(Happens(s, Do(Erase(addr, n))), Sync(m, Erase(addr, n)))
  {
    PerformLast(s.flash, s.bufs, s.jobs, EraseJob(addr, n));
  }

  lemma SwapAgrees(s: Async, m: Mem)
    requires Agrees(s, m) && Timely(s, Do(Swap))
    ensures Agrees(Happens(s, Do(Swap)), Sync(m, Swap))
  {
    assert AllInTurn(s.jobs, s.cur, 1, 2);
    hide AllInTurn, Older, PerformAll;
    OlderInTurn(s.jobs, s.cur, 1);
    OlderSame(s.flash, s.bufs, s.jobs);
  }

  lemma FlushAgrees(s: Async, m: Mem, addr: nat, n: nat)
    requires Agrees(s, m) && addr + n <= |m.flash| && n <= BUFFER_LENGTH && Timely(s, Do(Flush(addr, n)))
    ensures Agrees(Happens(s, Do(Flush(addr, n))), Sync(m, Flush(addr, n)))
  {
    var job := StoreJob(addr, n, s.cur, 0);
    var jobs := s.jobs + [job];
    assert AllInTurn(jobs, s.cur, 0, 2);
    hide AllInTurn, Older, PerformAll, ProgramCells;
    PerformLast(s.flash, s.bufs, s.jobs, job);
    OlderInTurn(jobs, s.cur, 0);
    OlderSame(s.flash, s.bufs, jobs);
  }

  lemma CompleteAgrees(s: Async, m: Mem)
    requires Agrees(s, m)
    ensures Agrees(Happens(s, Complete), m)
  {
    if s.jobs != [] {
      PerformFirst(s.flash, s.bufs, s.jobs);
    }
  }

  // ----- runs -----

  /** The memory once everything started has completed. */
  ghost function Settled(s: Async): (m: Mem)
    requires Kept(s)
  {
    Mem(PerformAll(s.flash, s.bufs, s.jobs), s.bufs, s.cur)
  }

  ghost predicate Kept(s: Async) {
    Sound(Mem(s.flash, s.bufs, s.cur)) && BuffersKept(s) && JobsFit(s.jobs, s.bufs)
  }

  /** The assumptions on the flash, event by event: operations in bounds, and in time. */
  ghost predicate Possible(s: Async, e: FlashEvent) {
    Timely(s, e) && (e.Do? ==> Fits(|s.flash|, e.op))
  }

  ghost function Effect(m: Mem, e: FlashEvent): (r: Mem)
    requires Sound(m) && (e.Do? ==> Fits(|m.flash|, e.op))
    ensures Sound(r) && |r.flash| == |m.flash|
  {
    if e.Do? then Sync(m, e.op) else m
  }

  lemma EventAgrees(s: Async, e: FlashEvent)
    requires Kept(s) && Possible(s, e)
    ensures Kept(Happens(s, e)) && Settled(Happens(s, e)) == Effect(Settled(s), e)
  {
    hide Happens, Sync, Timely, BuffersKept, PerformAll, JobsFit;
    var m := Settled(s);
    assert Agrees(s, m);
    match e
    case Complete => CompleteAgrees(s, m);
    case Do(Erase(addr, n)) => EraseAgrees(s, m, addr, n);
    case Do(Fill(pos, bytes)) => FillAgrees(s, m, pos, bytes);
    case Do(Flush(addr, n)) => FlushAgrees(s, m, addr, n);
    case Do(Swap) => SwapAgrees(s, m);
  }

  ghost function Step(s: Async, e: FlashEvent): (r: Async)
    requires Kept(s) && Possible(s, e)
    ensures Kept(r) && Settled(r) == Effect(Settled(s), e)
  {
    EventAgrees(s, e);
    Happens(s, e)
  }

  ghost predicate PossibleRun(s: Async, events: seq<FlashEvent>)
    requires Kept(s)
    decreases |events|
  {
    events == [] || (Possible(s, events[0]) && PossibleRun(Step(s, events[0]), events[1..]))
  }

  ghost function Run(s: Async, events: seq<FlashEvent>): (r: Async)
    requires Kept(s) && PossibleRun(s, events)
    ensures Kept(r)
    decreases |events|
  {
    if events == [] then s else Run(Step(s, events[0]), events[1..])
  }

  function Ops(events: seq<FlashEvent>): (ops: seq<Op>) {
    if events == [] then []
    else (if events[0].Do? then [events[0].op] else []) + Ops(events[1..])
  }

  lemma {:induction false} ReplayFirst(m: Mem, op: Op, ops: seq<Op>)
    requires Sound(m) && Fits(|m.flash|, op) && AllFit(|m.flash|, ops)
    ensures AllFit(|m.flash|, [op] + ops) && Replay(m, [op] + ops) == Replay(Sync(m, op), ops)
    decreases |ops|
  {
    hide Sync;
    if ops == [] {
      assert [op] + ops == [op] && [op][..0] == [];
      assert Replay(m, []) == m;
    } else {
      ReplayFirst(m, op, ops[..|ops| - 1]);
      assert ([op] + ops)[..|ops|] == [op] + ops[..|ops| - 1];
    }
  }

  /** Asynchronous flash refines synchronous flash: whatever is done to the buffers and the flash,
      and whenever the started operations complete, if each store completes before the fourth swap
      after it, the flash ends up as if every operation had completed at once. */
  lemma {:induction false} AsyncRefinesSync(s: Async, events: seq<FlashEvent>)
    requires Kept(s) && PossibleRun(s, events)
    ensures var m := Settled(s);
            && AllFit(|m.flash|, Ops(events))
            && Settled(Run(s, events)) == Replay(m, Ops(events))
            && (Run(s, events).jobs == [] ==> Run(s, events).flash == Replay(m, Ops(events)).flash)
    decreases |events|
  {
    hide Sync, Happens, Timely, BuffersKept, JobsFit, Fits;
    if events != [] {
      var t := Step(s, events[0]);
      AsyncRefinesSync(t, events[1..]);
      if events[0].Do? {
        ReplayFirst(Settled(s), events[0].op, Ops(events[1..]));
      } else {
        assert Ops(events) == Ops(events[1..]);
      }
    }
  }
}
