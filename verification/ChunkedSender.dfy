/** What the BLE UART sender of BLE_Uart.c is for: messages go out in order, each cut into chunks
    no longer than the segment size; when the stack has no buffer left, the message under way waits
    and later ones queue up behind it in a bounded frame queue.

    A sender keeps a ledger since its last reset, so that conservation can be stated. */
module ChunkedSender {
  import opened Cyclic
  import opened FrameFifo

  type Chunk = seq<byte>
  type Message = seq<byte>

  /** The longest message the transmit buffer can hold, and the size of the queue behind it. */
  const BUFFER_MAX_LEN := 255
  const QUEUE_SIZE := 4 * BUFFER_MAX_LEN

  /** What sd_ble_gatts_hvx answers: accepted, out of buffers until a transmission completes, or
      any other error. */
  datatype Answer = Success | Resources | OtherError

  /** The chunks of a message from a byte offset on. */
  function ChunksFrom(m: Message, offset: nat, size: nat): (r: seq<Chunk>)
    requires size > 0
    decreases |m| - offset
  {
    if offset >= |m| then []
    else
      var end := if |m| - offset > size then offset + size else |m|;
      [m[offset..end]] + ChunksFrom(m, offset + size, size)
  }

  function Split(m: Message, size: nat): (r: seq<Chunk>)
    requires size > 0
  {
    ChunksFrom(m, 0, size)
  }

  /** How many of the first `limit` answers, from the one at `first` on, accept before one refuses. */
  function Taken(answers: nat -> Answer, first: nat, limit: nat): (k: nat)
    ensures k <= limit
    ensures forall j :: first <= j < first + k ==> answers(j) == Success
    ensures k < limit ==> answers(first + k) != Success
    decreases limit
  {
    if limit == 0 || answers(first) != Success then 0 else 1 + Taken(answers, first + 1, limit - 1)
  }

  function Flatten(parts: seq<seq<byte>>): (r: seq<byte>) {
    if parts == [] then [] else Flatten(parts[..|parts| - 1]) + parts[|parts| - 1]
  }

  /** A message whose transmission has begun, with the segment size it is cut by. */
  datatype Started = Started(message: Message, size: nat)

  /** `handed`: chunks the stack accepted. `pending`: the chunks still to go of the message under
      way. `started`: messages taken up for transmission. `accepted`: messages the caller was told
      are sent or will be, in call order; of a message the stack failed, what went out of it. */
  datatype Sender = Sender(
    connected: bool, notifying: bool, locked: bool, size: nat,
    pending: seq<Chunk>, queue: Fifo,
    handed: seq<Chunk>, started: seq<Started>, accepted: seq<Message>)
  {
    predicate Ready() { connected && notifying }
  }

  const IDLE := Sender(false, false, false, 20, [], EMPTY, [], [], [])

  /** A caller sends a message of at most BUFFER_MAX_LEN bytes. */
  function Send(s: Sender, m: Message, answers: nat -> Answer): (r: Sender)
    requires s.size > 0 && |m| <= BUFFER_MAX_LEN && AllStorable(s.queue.frames)
  {
    if !s.Ready() then s
    else if s.locked then
      if m == [] then s
      else s.(queue := Push(s.queue, m, QUEUE_SIZE - 1), accepted := s.accepted + [m])
    else
      var chunks := Split(m, s.size);
      var k := Taken(answers, 0, |chunks|);
      var waits := k < |chunks| && answers(k) == Resources;
      var taken := if k < |chunks| && !waits then Flatten(chunks[..k]) else m;
      s.(locked := waits,
         pending := if waits then chunks[k..] else [],
         handed := s.handed + chunks[..k],
         started := s.started + [Started(taken, s.size)],
         accepted := s.accepted + [taken])
  }

  /** A transmission completed: a locked sender goes on, message after message, until the stack
      refuses a chunk or everything is out. */
  function Resume(s: Sender, answers: nat -> Answer, first: nat): (r: Sender)
    requires s.size > 0
    decreases |s.queue.frames|, |s.pending|
  {
    if !s.locked then s
    else if s.pending != [] then
      if answers(first) != Success then s
      else Resume(s.(pending := s.pending[1..], handed := s.handed + [s.pending[0]]), answers, first + 1)
    else if s.queue.frames == [] then s.(locked := false)
    else
      var m := s.queue.frames[0];
      Resume(s.(pending := Split(m, s.size), queue := Pop(s.queue),
                started := s.started + [Started(m, s.size)]), answers, first)
  }

  /** Disconnection drops everything and starts a new ledger. */
  function Reset(s: Sender): (r: Sender) {
    IDLE.(size := s.size)
  }

  /** No chunk of the message under way has been handed over. */
  predicate Unsent(s: Sender)
  {
    s.started != [] &&
    var last := s.started[|s.started| - 1];
    last.size == s.size > 0 && s.pending == Split(last.message, last.size)
  }

  /** A new segment size, for messages to come, and for one that waits with all its chunks. */
  function Resize(s: Sender, size: nat): (r: Sender)
    requires size > 0
  {
    if s.locked && Unsent(s) then
      var m := s.started[|s.started| - 1].message;
      s.(size := size, pending := Split(m, size), started := s.started[..|s.started| - 1] + [Started(m, size)])
    else s.(size := size)
  }

  // ----- what the ledger says -----

  ghost predicate AllSized(started: seq<Started>) {
    forall i :: 0 <= i < |started| ==> started[i].size > 0
  }

  function Messages(started: seq<Started>): (r: seq<Message>)
    ensures |r| == |started|
  {
    if started == [] then [] else Messages(started[..|started| - 1]) + [started[|started| - 1].message]
  }

  ghost function AllChunks(started: seq<Started>): (r: seq<Chunk>)
    requires AllSized(started)
  {
    if started == [] then []
    else AllChunks(started[..|started| - 1]) + Split(started[|started| - 1].message, started[|started| - 1].size)
  }

  /** The chunks handed over and the chunks pending are the chunks of the started messages, in
      order; the messages started and queued are the accepted ones, in call order, less those the
      queue dropped. */
  ghost predicate Ledger(s: Sender) {
    && s.size > 0 && AllSized(s.started)
    && Consistent(s.queue) && |Stream(s.queue.frames)| < QUEUE_SIZE
    && (forall i :: 0 <= i < |s.queue.frames| ==> |s.queue.frames[i]| <= BUFFER_MAX_LEN)
    && s.handed + s.pending == AllChunks(s.started)
    && IsSubsequence(Messages(s.started) + s.queue.frames, s.accepted)
    && |s.accepted| == |s.started| + |s.queue.frames| + s.queue.dropped
  }

  /** Between two requests, moreover, an unlocked sender has nothing waiting, neither chunk nor
      message, and a locked one has a chunk to send. */
  ghost predicate Conserves(s: Sender) {
    && Ledger(s)
    && (s.locked <==> s.pending != [])
    && (!s.locked ==> s.queue.frames == [])
  }

  // ----- cutting and joining -----

  lemma {:induction false} FlattenConcat(a: seq<seq<byte>>, b: seq<seq<byte>>)
    ensures Flatten(a + b) == Flatten(a) + Flatten(b)
    decreases |b|
  {
    if b == [] {
      assert a + b == a && Flatten(b) == [];
      assert Flatten(a) + [] == Flatten(a);
    } else {
      var all, init, last := a + b, b[..|b| - 1], b[|b| - 1];
      FlattenConcat(a, init);
      assert all[..|all| - 1] == a + init && all[|all| - 1] == last;
      assert Flatten(all) == Flatten(a + init) + last && Flatten(b) == Flatten(init) + last;
      hide Flatten;
      assert Flatten(a) + Flatten(init) + last == Flatten(a) + (Flatten(init) + last);
    }
  }

  /** The chunks of a message are not empty, all but the last as long as the segment size and that one
      no longer, and join to it. */
  lemma {:induction false} ChunksJoin(m: Message, offset: nat, size: nat)
    requires size > 0 && offset <= |m|
    ensures Flatten(ChunksFrom(m, offset, size)) == m[offset..]
    ensures forall i :: 0 <= i < |ChunksFrom(m, offset, size)| ==> 0 < |ChunksFrom(m, offset, size)[i]| <= size
    ensures forall i :: 0 <= i < |ChunksFrom(m, offset, size)| - 1 ==> |ChunksFrom(m, offset, size)[i]| == size
    decreases |m| - offset
  {
    hide Flatten;
    FlattenNothing();
    if offset < |m| {
      var end := if |m| - offset > size then offset + size else |m|;
      var rest := ChunksFrom(m, offset + size, size);
      FlattenConcat([m[offset..end]], rest);
      FlattenOne(m[offset..end]);
      if offset + size <= |m| {
        ChunksJoin(m, offset + size, size);
      }
      assert m[offset..end] + m[end..] == m[offset..];
    }
  }

  lemma FlattenNothing()
    ensures Flatten([]) == []
  {
  }

  lemma FlattenOne(part: seq<byte>)
    ensures Flatten([part]) == part
  {
    assert [part][..0] == [];
  }

  /** Where the first `k` chunks end. */
  function Cut(m: Message, offset: nat, size: nat, k: nat): (end: nat)
    requires size > 0 && offset <= |m|
    ensures offset <= end <= |m|
    decreases k
  {
    if k == 0 || offset == |m| then offset
    else if |m| - offset > size then Cut(m, offset + size, size, k - 1)
    else |m|
  }

  /** Some first chunks of a message are the chunks of the part they cover. */
  lemma {:induction false} ChunksPrefix(m: Message, offset: nat, size: nat, k: nat)
    requires size > 0 && offset <= |m| && k <= |ChunksFrom(m, offset, size)|
    ensures ChunksFrom(m[..Cut(m, offset, size, k)], offset, size) == ChunksFrom(m, offset, size)[..k]
    decreases k
  {
    var cut := Cut(m, offset, size, k);
    if k > 0 {
      if |m| - offset > size {
        ChunksPrefix(m, offset + size, size, k - 1);
        assert m[..cut][offset..offset + size] == m[offset..offset + size];
      } else {
        assert m[..cut] == m;
      }
    }
  }

  lemma SplitPrefix(m: Message, size: nat, k: nat)
    requires size > 0 && k <= |Split(m, size)|
    ensures Split(Flatten(Split(m, size)[..k]), size) == Split(m, size)[..k]
  {
    var cut := Cut(m, 0, size, k);
    ChunksPrefix(m, 0, size, k);
    ChunksJoin(m[..cut], 0, size);
    assert m[..cut][0..] == m[..cut];
  }

  // ----- every step conserves -----

  lemma ResetConserves(s: Sender)
    requires s.size > 0
    ensures Conserves(Reset(s))
  {
  }

  /** Cutting a message anew of which nothing was sent keeps the ledger. */
  lemma ResizeConserves(s: Sender, size: nat)
    requires Conserves(s) && size > 0
    ensures Conserves(Resize(s, size))
  {
    hide IsSubsequence, Consistent, Stream, Split;
    if s.locked && Unsent(s) {
      var init, last := s.started[..|s.started| - 1], s.started[|s.started| - 1];
      assert s.started == init + [last];
      StartedSnoc(init, last);
      StartedSnoc(init, Started(last.message, size));
      CancelBehind(s.handed, AllChunks(init), s.pending);
      SplitNothing(last.message, s.size, size);
    }
  }

  lemma CancelBehind<T>(a: seq<T>, b: seq<T>, c: seq<T>)
    requires a + c == b + c
    ensures a == b
  {
    assert |a + c| == |a| + |c| && |b + c| == |b| + |c|;
    assert a == (a + c)[..|a|] && b == (b + c)[..|b|];
  }

  lemma SplitNothing(m: Message, a: nat, b: nat)
    requires a > 0 && b > 0
    ensures Split(m, a) == [] <==> Split(m, b) == []
  {
  }

  lemma StartedSnoc(started: seq<Started>, x: Started)
    requires AllSized(started) && x.size > 0
    ensures AllChunks(started + [x]) == AllChunks(started) + Split(x.message, x.size)
    ensures Messages(started + [x]) == Messages(started) + [x.message]
  {
    assert (started + [x])[..|started|] == started;
  }

  lemma QueueUpConserves(s: Sender, m: Message)
    requires Conserves(s) && s.locked && 0 < |m| <= BUFFER_MAX_LEN
    ensures Conserves(s.(queue := Push(s.queue, m, QUEUE_SIZE - 1), accepted := s.accepted + [m]))
  {
    hide IsSubsequence, Evict, AllChunks, Stream, Push;
    var r := Push(s.queue, m, QUEUE_SIZE - 1);
    var lost := r.dropped - s.queue.dropped;
    PushConsistent(s.queue, m, QUEUE_SIZE - 1);
    PushDropsShortestPrefix(s.queue, m, QUEUE_SIZE - 1);
    var gone, kept := s.queue.frames[..lost], s.queue.frames[lost..];
    StreamSnoc(kept, m);
    var started := Messages(s.started);
    assert started + s.queue.frames == started + gone + kept;
    SubsequenceDelete(started, gone, kept, s.accepted);
    SubsequenceSnoc(started + kept, s.accepted, m);
    assert started + kept + [m] == started + r.frames;
  }

  /** Taking up a message whose chunks are handed over or wait keeps the ledger. */
  lemma TakeUpConserves(s: Sender, m: Message, now: seq<Chunk>, later: seq<Chunk>)
    requires Conserves(s) && !s.locked && Split(m, s.size) == now + later
    ensures Conserves(s.(locked := later != [], pending := later, handed := s.handed + now,
                         started := s.started + [Started(m, s.size)], accepted := s.accepted + [m]))
  {
    hide Split, IsSubsequence, Consistent, Stream;
    StartedSnoc(s.started, Started(m, s.size));
    assert s.handed + now + later == s.handed + s.pending + (now + later);
    assert Messages(s.started) + s.queue.frames == Messages(s.started);
    SubsequenceSnoc(Messages(s.started), s.accepted, m);
    assert Messages(s.started) + [m] + s.queue.frames == Messages(s.started) + [m];
  }

  lemma StartConserves(s: Sender, m: Message, answers: nat -> Answer)
    requires Conserves(s) && s.Ready() && !s.locked && |m| <= BUFFER_MAX_LEN
    ensures Conserves(Send(s, m, answers))
  {
    hide Split, Taken, IsSubsequence, Consistent, AllChunks, Stream;
    var chunks := Split(m, s.size);
    var k := Taken(answers, 0, |chunks|);
    assert chunks[..k] + chunks[k..] == chunks;
    if k < |chunks| && answers(k) == Resources {
      TakeUpConserves(s, m, chunks[..k], chunks[k..]);
    } else if k < |chunks| {
      SplitPrefix(m, s.size, k);
      assert chunks[..k] + [] == chunks[..k];
      TakeUpConserves(s, Flatten(chunks[..k]), chunks[..k], []);
    } else {
      TakeUpConserves(s, m, chunks, []);
      assert chunks[..k] == chunks;
    }
  }

  lemma SendConserves(s: Sender, m: Message, answers: nat -> Answer)
    requires Conserves(s) && |m| <= BUFFER_MAX_LEN
    ensures Conserves(Send(s, m, answers))
  {
    if s.Ready() && s.locked && m != [] {
      QueueUpConserves(s, m);
    } else if s.Ready() && !s.locked {
      StartConserves(s, m, answers);
    }
  }

  lemma {:induction false} ResumeConserves(s: Sender, answers: nat -> Answer, first: nat)
    requires Ledger(s) && s.locked
    ensures Conserves(Resume(s, answers, first))
    decreases |s.queue.frames|, |s.pending|
  {
    if s.pending != [] {
      if answers(first) == Success {
        var t := s.(pending := s.pending[1..], handed := s.handed + [s.pending[0]]);
        assert t.handed + t.pending == s.handed + s.pending;
        ResumeConserves(t, answers, first + 1);
      }
    } else if s.queue.frames != [] {
      var m := s.queue.frames[0];
      TakeConserves(s);
      ResumeConserves(s.(pending := Split(m, s.size), queue := Pop(s.queue),
                         started := s.started + [Started(m, s.size)]), answers, first);
    }
  }

  lemma TakeConserves(s: Sender)
    requires Ledger(s) && s.pending == [] && s.queue.frames != []
    ensures var m := s.queue.frames[0];
            Ledger(s.(pending := Split(m, s.size), queue := Pop(s.queue),
                      started := s.started + [Started(m, s.size)]))
  {
    hide IsSubsequence, Split, AllChunks, Messages, Stream;
    var m := s.queue.frames[0];
    PopConsistent(s.queue);
    FewerBytes(s.queue.frames);
    hide Consistent;
    StartedSnoc(s.started, Started(m, s.size));
    assert s.handed + [] == s.handed;
    var started := Messages(s.started);
    assert started + [m] + s.queue.frames[1..] == started + s.queue.frames;
  }

  lemma FewerBytes(frames: seq<Frame>)
    requires AllStorable(frames) && frames != []
    ensures |Stream(frames[1..])| <= |Stream(frames)|
  {
    assert Stream(frames) == Encode(frames[0]) + Stream(frames[1..]);
  }

  // ----- resuming sends as much as the stack takes, in order -----

  /** The chunks a locked sender still owes: of the message under way, then of the queued ones. */
  function Owed(pending: seq<Chunk>, frames: seq<Frame>, size: nat): (r: seq<Chunk>)
    requires size > 0
    decreases |frames|
  {
    if frames == [] then pending else pending + Owed(Split(frames[0], size), frames[1..], size)
  }

  /** From `s` to `r`, exactly the first `k` of the owed chunks were handed over. */
  ghost predicate HandedOver(s: Sender, r: Sender, owed: seq<Chunk>, k: nat)
    requires s.size > 0 && k <= |owed|
  {
    && r.handed == s.handed + owed[..k]
    && (r.locked <==> k < |owed|)
    && Owed(r.pending, r.queue.frames, s.size) == owed[k..]
    && r.size == s.size
  }

  lemma HandedOneMore(s: Sender, t: Sender, r: Sender, owed: seq<Chunk>, k: nat)
    requires s.size == t.size > 0 && k <= |owed| && HandedOver(t, r, owed, k)
    requires s.pending != [] && t.handed == s.handed + [s.pending[0]]
    ensures HandedOver(s, r, [s.pending[0]] + owed, 1 + k)
  {
    hide Owed;
    var all := [s.pending[0]] + owed;
    assert all[..1 + k] == [s.pending[0]] + owed[..k];
    assert all[1 + k..] == owed[k..];
  }

  lemma HandedNone(s: Sender, owed: seq<Chunk>)
    requires s.size > 0 && (s.locked <==> owed != []) && Owed(s.pending, s.queue.frames, s.size) == owed
    ensures HandedOver(s, s, owed, 0)
  {
    assert owed[..0] == [] && owed[0..] == owed && s.handed + [] == s.handed;
  }

  lemma HandedSame(s: Sender, t: Sender, r: Sender, owed: seq<Chunk>, k: nat)
    requires s.size == t.size > 0 && k <= |owed| && HandedOver(t, r, owed, k) && t.handed == s.handed
    ensures HandedOver(s, r, owed, k)
  {
  }

  /** A TX-complete hands over the longest prefix of the owed chunks that the stack takes. It ends
      unlocked with everything out, or locked on the first chunk that was refused. */
  lemma {:induction false} ResumeSendsPrefix(s: Sender, answers: nat -> Answer, first: nat)
    requires s.size > 0 && s.locked
    ensures var owed := Owed(s.pending, s.queue.frames, s.size);
            HandedOver(s, Resume(s, answers, first), owed, Taken(answers, first, |owed|))
    decreases |s.queue.frames|, |s.pending|
  {
    hide HandedOver, Split, Owed, Pop;
    var owed := Owed(s.pending, s.queue.frames, s.size);
    if s.pending != [] {
      OwedNext(s.pending, s.queue.frames, s.size);
      if answers(first) == Success {
        var t := s.(pending := s.pending[1..], handed := s.handed + [s.pending[0]]);
        var owed' := Owed(t.pending, t.queue.frames, s.size);
        ResumeSendsPrefix(t, answers, first + 1);
        assert Resume(s, answers, first) == Resume(t, answers, first + 1);
        HandedOneMore(s, t, Resume(t, answers, first + 1), owed', Taken(answers, first + 1, |owed'|));
      } else {
        HandedNone(s, owed);
      }
    } else if s.queue.frames != [] {
      var m := s.queue.frames[0];
      var t := s.(pending := Split(m, s.size), queue := Pop(s.queue), started := s.started + [Started(m, s.size)]);
      OwedQueued(s.queue, s.size);
      ResumeSendsPrefix(t, answers, first);
      assert Resume(s, answers, first) == Resume(t, answers, first);
      HandedSame(s, t, Resume(t, answers, first), owed, Taken(answers, first, |owed|));
    } else {
      var t := s.(locked := false);
      OwedNothing(s.size);
      HandedNone(t, owed);
      HandedSame(s, t, t, owed, 0);
    }
  }

  lemma OwedNothing(size: nat)
    requires size > 0
    ensures Owed([], [], size) == []
  {
  }

  lemma OwedQueued(queue: Fifo, size: nat)
    requires size > 0 && queue.frames != []
    ensures |Pop(queue).frames| < |queue.frames|
    ensures Owed([], queue.frames, size) == Owed(Split(queue.frames[0], size), Pop(queue).frames, size)
  {
    hide Split;
  }

  lemma OwedNext(pending: seq<Chunk>, frames: seq<Frame>, size: nat)
    requires size > 0 && pending != []
    ensures Owed(pending, frames, size) == [pending[0]] + Owed(pending[1..], frames, size)
  {
  }

  // ----- runs -----

  datatype Event =
    | Submit(message: Message, answers: nat -> Answer)
    | TxComplete(answers: nat -> Answer)
    | Connect
    | Notify(on: bool)
    | Disconnect
    | Mtu(size: nat)

  /** What the code can be asked to do in a state: messages fit the transmit buffer, and the
      segment size does not change once a part of a waiting message has been sent. */
  ghost predicate Admissible(s: Sender, e: Event) {
    match e
    case Submit(m, _) => |m| <= BUFFER_MAX_LEN
    case Mtu(size) => 0 < size && (s.locked ==> size == s.size || Unsent(s))
    case _ => true
  }

  ghost function Step(s: Sender, e: Event): (r: Sender)
    requires Conserves(s) && Admissible(s, e)
    ensures Conserves(r)
  {
    match e
    case Submit(m, answers) => SendConserves(s, m, answers); Send(s, m, answers)
    case TxComplete(answers) => if s.locked then ResumeConserves(s, answers, 0); Resume(s, answers, 0) else s
    case Connect => s.(connected := true)
    case Notify(on) => s.(notifying := on)
    case Disconnect => Reset(s)
    case Mtu(size) => ResizeConserves(s, size); Resize(s, size)
  }

  ghost predicate AdmissibleRun(s: Sender, events: seq<Event>)
    requires Conserves(s)
    decreases |events|
  {
    events == [] || (Admissible(s, events[0]) && AdmissibleRun(Step(s, events[0]), events[1..]))
  }

  ghost function Run(s: Sender, events: seq<Event>): (r: Sender)
    requires Conserves(s) && AdmissibleRun(s, events)
    ensures Conserves(r)
    decreases |events|
  {
    if events == [] then s else Run(Step(s, events[0]), events[1..])
  }

  lemma {:induction false} ChunksBytes(started: seq<Started>)
    requires AllSized(started)
    ensures Flatten(AllChunks(started)) == Flatten(Messages(started))
  {
    if started != [] {
      var last := started[|started| - 1];
      ChunksBytes(started[..|started| - 1]);
      FlattenConcat(AllChunks(started[..|started| - 1]), Split(last.message, last.size));
      ChunksJoin(last.message, 0, last.size);
      assert last.message[0..] == last.message;
    }
  }

  // ----- what the caller was told -----

  /** What u32BLE_Uart_SendBuffer returns. */
  datatype Result = InvalidState | Stack(answer: Answer)

  /** The first refusal of a chunk, or success. A message behind one that waits is always taken. */
  function Returned(s: Sender, m: Message, answers: nat -> Answer): (r: Result)
    requires s.size > 0
  {
    if !s.Ready() then InvalidState
    else if s.locked then Stack(Success)
    else
      var n := |Split(m, s.size)|;
      var k := Taken(answers, 0, n);
      if k < n then Stack(answers(k)) else Stack(Success)
  }

  /** Whether the peer is connected, and notified, after some events. */
  function Connected(events: seq<Event>): bool {
    events != [] &&
    match events[|events| - 1]
    case Connect => true
    case Disconnect => false
    case _ => Connected(events[..|events| - 1])
  }

  function Notified(events: seq<Event>): bool {
    events != [] &&
    match events[|events| - 1]
    case Notify(on) => on
    case Disconnect => false
    case _ => Notified(events[..|events| - 1])
  }

  /** What a call takes of a message, by what it returns to a ready caller: all of it on success or
      while it waits, nothing of an empty one behind a message that waits, and if the stack fails, the
      chunks before that. */
  function TakenOf(s: Sender, m: Message, answers: nat -> Answer): (taken: seq<Message>)
    requires s.size > 0
  {
    if s.locked then if m == [] then [] else [m]
    else
      var k := Taken(answers, 0, |Split(m, s.size)|);
      if k < |Split(m, s.size)| && answers(k) == OtherError then
        FailedInside(m, s.size, k);
        [m[..k * s.size]]
      else [m]
  }

  lemma FailedInside(m: Message, size: nat, k: nat)
    requires size > 0 && k < |Split(m, size)|
    ensures 0 <= k * size < |m|
  {
    ChunkPositions(m, 0, size, k);
  }

  lemma {:induction false} ChunkPositions(m: Message, offset: nat, size: nat, k: nat)
    requires size > 0 && k < |ChunksFrom(m, offset, size)|
    ensures 0 <= k * size && offset + k * size < |m|
    ensures Flatten(ChunksFrom(m, offset, size)[..k]) == m[offset..offset + k * size]
    decreases k
  {
    var chunks := ChunksFrom(m, offset, size);
    if k == 0 {
      assert chunks[..0] == [] && m[offset..offset + 0] == [];
    } else {
      var rest := ChunksFrom(m, offset + size, size);
      ChunkPositions(m, offset + size, size, k - 1);
      assert k * size == size + (k - 1) * size;
      assert chunks[..k] == [chunks[0]] + rest[..k - 1];
      FlattenConcat([chunks[0]], rest[..k - 1]);
      FlattenOne(chunks[0]);
      assert m[offset..offset + size] + m[offset + size..offset + k * size] == m[offset..offset + k * size];
    }
  }

  /** The messages taken from ready callers since the last reset, in call order. Whether a message
      waits at a call, and the segment size, are those of the run. */
  ghost function Submitted(events: seq<Event>): (messages: seq<Message>)
    requires AdmissibleRun(IDLE, events)
  {
    if events == [] then []
    else
      var before, last := events[..|events| - 1], events[|events| - 1];
      assert events == before + [last];
      RunSnoc(IDLE, before, last);
      match last
      case Disconnect => []
      case Submit(m, answers) =>
        Submitted(before) +
        if Connected(before) && Notified(before) then TakenOf(Run(IDLE, before), m, answers) else []
      case _ => Submitted(before)
  }

  lemma {:induction false} RunSnoc(s: Sender, events: seq<Event>, e: Event)
    requires Conserves(s)
    requires AdmissibleRun(s, events + [e]) || (AdmissibleRun(s, events) && Admissible(Run(s, events), e))
    ensures AdmissibleRun(s, events) && AdmissibleRun(s, events + [e]) && Admissible(Run(s, events), e)
    ensures Run(s, events + [e]) == Step(Run(s, events), e)
    decreases |events|
  {
    hide Step, Admissible, Conserves;
    var all := events + [e];
    if events == [] {
      assert all[0] == e && all[1..] == [];
    } else {
      assert all[0] == events[0] && all[1..] == events[1..] + [e];
      RunSnoc(Step(s, events[0]), events[1..], e);
    }
  }

  /** One event, for what is accepted and for the link. */
  lemma StepTakes(s: Sender, e: Event)
    requires Conserves(s) && Admissible(s, e)
    ensures var r := Step(s, e);
            && r.accepted == (match e
                              case Disconnect => []
                              case Submit(m, answers) => s.accepted + if s.Ready() then TakenOf(s, m, answers) else []
                              case _ => s.accepted)
            && r.connected == (if e.Connect? then true else if e.Disconnect? then false else s.connected)
            && r.notifying == (if e.Notify? then e.on else if e.Disconnect? then false else s.notifying)
  {
    hide Conserves, Split, Taken, Push, Flatten;
    match e {
      case Submit(m, answers) =>
        assert s.accepted + [] == s.accepted;
        SizePositive(s);
        var chunks := Split(m, s.size);
        var k := Taken(answers, 0, |chunks|);
        if !s.locked && k < |chunks| && answers(k) == OtherError {
          SplitIsChunks(m, s.size);
          ChunkPositions(m, 0, s.size, k);
          assert m[0..0 + k * s.size] == m[..k * s.size];
        }
        if !s.locked && k < |chunks| {
          NotTaken(answers, 0, |chunks|);
        }
      case TxComplete(answers) =>
        if s.locked {
          SizePositive(s);
          ResumeTakesNothing(s, answers, 0);
        }
      case _ =>
    }
  }

  /** What the returned code tells a caller. Success: the message is out, or queued behind one that
      waits. Out of buffers: it is the one that waits now. Any other error of the stack: what was handed
      over before it is out, and no more will be. */
  lemma ReturnedTells(s: Sender, m: Message, answers: nat -> Answer)
    requires Conserves(s) && |m| <= BUFFER_MAX_LEN
    ensures var r, code := Send(s, m, answers), Returned(s, m, answers);
            && (code == InvalidState <==> !s.Ready()) && (!s.Ready() ==> r == s)
            && (s.Ready() && s.locked ==>
                  && code == Stack(Success)
                  && (m != [] ==> r.queue.frames != [] && r.queue.frames[|r.queue.frames| - 1] == m))
            && (s.Ready() && !s.locked ==>
                  var n := |r.handed| - |s.handed|;
                  && 0 <= n <= |Split(m, s.size)| && r.handed == s.handed + Split(m, s.size)[..n]
                  && (code == Stack(Success) <==> n == |Split(m, s.size)|)
                  && (code != Stack(Success) ==> code == Stack(answers(n)))
                  && (code == Stack(Resources) <==> r.locked)
                  && r.pending == if r.locked then Split(m, s.size)[n..] else [])
  {
    hide Conserves, Split, Taken, Push, Flatten;
    SizePositive(s);
    if s.Ready() && s.locked && m != [] {
      PushEndsWith(s.queue, m);
    } else if s.Ready() && !s.locked {
      var n := |Split(m, s.size)|;
      if Taken(answers, 0, n) < n {
        NotTaken(answers, 0, n);
      }
    }
  }

  lemma PushEndsWith(queue: Fifo, m: Message)
    requires AllStorable(queue.frames) && 0 < |m| <= BUFFER_MAX_LEN
    ensures var frames := Push(queue, m, QUEUE_SIZE - 1).frames;
            frames != [] && frames[|frames| - 1] == m
  {
    hide Evict;
  }

  lemma SizePositive(s: Sender)
    requires Conserves(s)
    ensures s.size > 0 && AllStorable(s.queue.frames)
  {
  }

  lemma SplitIsChunks(m: Message, size: nat)
    requires size > 0
    ensures Split(m, size) == ChunksFrom(m, 0, size)
  {
  }

  lemma NotTaken(answers: nat -> Answer, first: nat, limit: nat)
    requires Taken(answers, first, limit) < limit
    ensures answers(first + Taken(answers, first, limit)) != Success
  {
  }

  lemma {:induction false} ResumeTakesNothing(s: Sender, answers: nat -> Answer, first: nat)
    requires s.size > 0
    ensures var r := Resume(s, answers, first);
            r.accepted == s.accepted && r.connected == s.connected && r.notifying == s.notifying
    decreases |s.queue.frames|, |s.pending|
  {
    hide Split, Pop;
    if s.locked && s.pending != [] && answers(first) == Success {
      ResumeTakesNothing(s.(pending := s.pending[1..], handed := s.handed + [s.pending[0]]), answers, first + 1);
    } else if s.locked && s.pending == [] && s.queue.frames != [] {
      var m := s.queue.frames[0];
      PopShortens(s.queue);
      ResumeTakesNothing(s.(pending := Split(m, s.size), queue := Pop(s.queue),
                            started := s.started + [Started(m, s.size)]), answers, first);
    }
  }

  lemma PopShortens(q: Fifo)
    requires q.frames != []
    ensures |Pop(q).frames| < |q.frames|
  {
  }

  lemma IdleConserves()
    ensures Conserves(IDLE)
  {
  }

  /** Over every run from power-up, what the ledger counts as accepted is what the callers were told. */
  lemma {:induction false} AcceptedIsSubmitted(events: seq<Event>)
    requires AdmissibleRun(IDLE, events)
    ensures Run(IDLE, events).accepted == Submitted(events)
    ensures Run(IDLE, events).connected == Connected(events) && Run(IDLE, events).notifying == Notified(events)
  {
    IdleConserves();
    hide Step, Admissible, Conserves, TakenOf;
    if events != [] {
      var before, last := events[..|events| - 1], events[|events| - 1];
      assert events == before + [last];
      RunSnoc(IDLE, before, last);
      AcceptedIsSubmitted(before);
      StepTakes(Run(IDLE, before), last);
      assert Submitted(before) + [] == Submitted(before);
    }
  }

  /** In every run from power-up, since the last reset: the bytes handed to the stack, then those
      of the message under way, then those queued, are the messages taken from the callers, in call
      order, less the ones the queue dropped; without drops, all of them. */
  lemma BytesAreConserved(events: seq<Event>)
    requires AdmissibleRun(IDLE, events)
    ensures var s := Run(IDLE, events);
            var kept := Messages(s.started) + s.queue.frames;
            && Flatten(s.handed) + Flatten(s.pending) + Flatten(s.queue.frames) == Flatten(kept)
            && IsSubsequence(kept, Submitted(events))
            && |Submitted(events)| == |kept| + s.queue.dropped
            && (s.queue.dropped == 0 ==> kept == Submitted(events))
            && (!s.locked ==> Flatten(s.handed) == Flatten(kept))
  {
    var s := Run(IDLE, events);
    AcceptedIsSubmitted(events);
    FlattenConcat(s.handed, s.pending);
    ChunksBytes(s.started);
    FlattenConcat(Messages(s.started), s.queue.frames);
    SubsequenceShorter(Messages(s.started) + s.queue.frames, s.accepted);
    if !s.locked {
      assert s.handed + [] == s.handed && Messages(s.started) + [] == Messages(s.started);
    }
  }
}
