/** The BLE UART sender of Firmware/AppBase/Src/BLE/BLE_Uart.c: a transmit buffer with a segment
    index and a frame queue behind it, proved to behave as the ChunkedSender. Every handler is one
    atomic step. The answers of the stack during one call are a parameter of that call. */
module BleUart {
  import opened Cyclic
  import opened FrameFifo
  import opened ChunkedSender
  import opened EsQueue

  /** The SoftDevice as the sender sees it: it keeps the chunks it accepts. */
  class SoftDevice {
    var received: seq<Chunk>

    constructor ()
      ensures received == []
    {
      received := [];
    }

    /** u32TxNotifySend, that is, sd_ble_gatts_hvx with the answer it gives. */
    method Notify(chunk: Chunk, answer: Answer) returns (code: Answer)
      modifies this
      ensures code == answer
      ensures received == if answer == Success then old(received) + [chunk] else old(received)
    {
      if answer == Success {
        received := received + [chunk];
      }
      code := answer;
    }
  }

  lemma SegmentFits(seg: nat, size: nat, length: nat)
    requires 0 < size && seg * size < length <= BUFFER_MAX_LEN
    ensures (seg + 1) % 256 == seg + 1
    ensures (seg + 1) * size == seg * size + size
  {
    assert seg <= seg * size;
  }

  /** The count of accepted chunks is known once the first refusal is. */
  lemma {:induction false} TakenIs(answers: nat -> Answer, first: nat, limit: nat, k: nat)
    requires k <= limit
    requires forall j :: first <= j < first + k ==> answers(j) == Success
    requires k < limit ==> answers(first + k) != Success
    ensures Taken(answers, first, limit) == k
    decreases k
  {
    if k > 0 {
      TakenIs(answers, first + 1, limit - 1, k - 1);
    }
  }

  lemma ChunkAt(m: Message, offset: nat, size: nat)
    requires size > 0 && offset < |m|
    ensures ChunksFrom(m, offset, size) ==
            [m[offset..offset + if |m| - offset > size then size else |m| - offset]] +
            ChunksFrom(m, offset + size, size)
  {
  }

  /** Why the segment size must not change under a waiting message: the code counts segments, not
      bytes. The bytes still to send stay the same exactly if none was sent or the size is the old
      one. */
  lemma MtuChangeKeepsTail(m: Message, seg: nat, before: nat, after: nat)
    requires 0 < before && 0 < after && seg * before < |m|
    ensures Flatten(ChunksFrom(m, seg * after, after)) == Flatten(ChunksFrom(m, seg * before, before))
            <==> seg == 0 || before == after
  {
    hide Flatten;
    var b, a := seg * before, seg * after;
    ProductsDiffer(seg, before, after);
    ChunksJoin(m, b, before);
    if a < |m| {
      ChunksJoin(m, a, after);
      assert |m[a..]| == |m[b..]| <==> a == b;
    } else {
      NoChunksLeft(m, a, after);
      FlattenNothing();
    }
  }

  /** For instance, a message of three bytes of which one was sent, cut to two bytes from then on: its
      second byte is never sent. */
  lemma ByteIsSkipped()
    ensures Flatten(ChunksFrom([1, 2, 3], 1 * 1, 1)) == [2, 3]
    ensures Flatten(ChunksFrom([1, 2, 3], 1 * 2, 2)) == [3]
  {
    var m: Message := [1, 2, 3];
    ChunksJoin(m, 1, 1);
    ChunksJoin(m, 2, 2);
    assert m[1..] == [2, 3] && m[2..] == [3];
  }

  lemma ProductsDiffer(seg: nat, a: nat, b: nat)
    ensures seg * a == seg * b <==> seg == 0 || a == b
  {
    if seg != 0 && a < b {
      ProductGrows(seg, a, b);
    } else if seg != 0 && b < a {
      ProductGrows(seg, b, a);
    }
  }

  lemma {:induction false} ProductGrows(n: nat, a: nat, b: nat)
    requires n > 0 && a < b
    ensures n * a < n * b
  {
    assert n * a == (n - 1) * a + a && n * b == (n - 1) * b + b;
    if n > 1 {
      ProductGrows(n - 1, a, b);
    }
  }

  lemma NoChunksLeft(m: Message, offset: nat, size: nat)
    requires size > 0
    ensures ChunksFrom(m, offset, size) == [] <==> offset >= |m|
  {
  }

  class BleUart {
    const queue: Queue
    const data: array<byte>
    const stack: SoftDevice
    var locked: bool
    var length: nat
    var seg: nat
    var segSize: nat
    var connected: bool
    var notifying: bool
    /** The sender this one stands for, and what the stack had received before the last reset. */
    ghost var sender: Sender
    ghost var past: seq<Chunk>

    ghost predicate Linked()
      reads this, data, stack, queue, queue.data
    {
      && data.Length == BUFFER_MAX_LEN && queue.data.Length == QUEUE_SIZE && queue.data != data
      && queue.Valid()
      && sender.size > 0
      && queue.content == sender.queue
      && locked == sender.locked && segSize == sender.size
      && connected == sender.connected && notifying == sender.notifying
      && stack.received == past + sender.handed
      && length <= BUFFER_MAX_LEN
      && (locked ==>
            && sender.pending == ChunksFrom(data[..length], seg * segSize, segSize)
            && sender.started != []
            && sender.started[|sender.started| - 1] == Started(data[..length], segSize))
    }

    ghost predicate Valid()
      reads this, data, stack, queue, queue.data
    {
      Linked() && Conserves(sender)
    }

    /** The state after start-up: no connection, an empty queue, the default segment size. */
    constructor ()
      ensures Valid() && fresh(this) && fresh(data) && fresh(queue) && fresh(stack)
      ensures sender == IDLE && stack.received == []
    {
      var buffer := new byte[QUEUE_SIZE];
      queue := new Queue(buffer);
      data := new byte[BUFFER_MAX_LEN];
      stack := new SoftDevice();
      locked, connected, notifying := false, false, false;
      length, seg, segSize := 0, 0, 20;
      sender, past := IDLE, [];
    }

    /** Sends the chunk at the segment index and, if the stack takes it, moves on to the next. */
    method SendSegment(answer: Answer)
      requires data.Length == BUFFER_MAX_LEN && length <= BUFFER_MAX_LEN
      requires segSize > 0 && seg * segSize < length
      modifies this`seg, stack
      ensures ChunksFrom(data[..length], old(seg) * segSize, segSize) != []
      ensures if answer == Success then
                && stack.received == old(stack.received) + [ChunksFrom(data[..length], old(seg) * segSize, segSize)[0]]
                && seg == old(seg) + 1
                && ChunksFrom(data[..length], seg * segSize, segSize) ==
                   ChunksFrom(data[..length], old(seg) * segSize, segSize)[1..]
              else stack.received == old(stack.received) && seg == old(seg)
    {
      hide ChunksFrom;
      ghost var m := data[..length];
      SegmentFits(seg, segSize, length);
      var offset := seg * segSize;
      ChunkAt(m, offset, segSize);
      var sent := length - offset;
      sent := if sent > segSize then segSize else sent;
      assert data[offset..offset + sent] == m[offset..offset + sent];
      var code := stack.Notify(data[offset..offset + sent], answer);
      if code == Success {
        seg := (seg + 1) % 256;
        assert seg * segSize == offset + segSize;
      }
      assert data[..length] == m;
    }

    /** The transmit loop of u32BLE_Uart_SendBuffer, from the first segment on. */
    method SendFirst(answers: nat -> Answer) returns (answer: Answer)
      requires data.Length == BUFFER_MAX_LEN && length <= BUFFER_MAX_LEN
      requires segSize > 0 && seg == 0 && !locked
      modifies this`seg, this`locked, stack
      ensures var chunks := Split(data[..length], segSize);
              var k := Taken(answers, 0, |chunks|);
              && stack.received == old(stack.received) + chunks[..k]
              && answer == (if k < |chunks| then answers(k) else Success)
              && locked == (k < |chunks| && answers(k) == Resources)
              && ChunksFrom(data[..length], seg * segSize, segSize) == chunks[k..]
    {
      hide ChunksFrom;
      ghost var m, chunks, before := data[..length], Split(data[..length], segSize), stack.received;
      answer := Success;
      while answer == Success && seg * segSize < length
        invariant data[..length] == m && !locked
        invariant seg <= |chunks| && chunks[seg..] == ChunksFrom(m, seg * segSize, segSize)
        invariant stack.received == before + chunks[..seg]
        invariant forall j :: 0 <= j < seg ==> answers(j) == Success
        invariant answer != Success ==> seg < |chunks| && answer == answers(seg) && answer != Resources
        decreases length - seg * segSize, if answer == Success then 1 else 0
      {
        answer := answers(seg);
        label L:
        SendSegment(answer);
        assert data[..length] == m;
        if answer == Success {
          assert chunks[seg..] == chunks[old@L(seg)..][1..];
          assert chunks[..seg] == chunks[..old@L(seg)] + [chunks[old@L(seg)..][0]];
        } else if answer == Resources {
          locked := true;
          break;
        }
      }
      NoChunksLeft(m, seg * segSize, segSize);
      TakenIs(answers, 0, |chunks|, seg);
      assert data[..length] == m;
    }

    /** The unlocked branch of u32BLE_Uart_SendBuffer: stores the message and sends what the stack
        takes of it. */
    method Start(m: Message, answers: nat -> Answer) returns (answer: Answer)
      requires Valid() && sender.Ready() && !locked && |m| <= BUFFER_MAX_LEN
      modifies this, data, stack
      ensures Valid() && past == old(past)
      ensures sender == Send(old(sender), m, answers)
      ensures var chunks := Split(m, old(sender).size);
              var k := Taken(answers, 0, |chunks|);
              answer == if k < |chunks| then answers(k) else Success
    {
      hide Split, ChunksFrom, Taken, Ledger, IsSubsequence, Consistent, Holds, Push, Flatten;
      SendConserves(sender, m, answers);
      forall i | 0 <= i < |m| {
        data[i] := m[i];
      }
      length := |m|;
      seg := 0;
      assert data[..length] == m;
      answer := SendFirst(answers);
      assert data[..length] == m;
      sender := Send(sender, m, answers);
    }

    /** u32BLE_Uart_SendBuffer. The message must fit the transmit buffer, which the code copies it
        to unchecked. */
    method SendBuffer(m: Message, answers: nat -> Answer) returns (code: Result)
      requires Valid() && |m| <= BUFFER_MAX_LEN
      modifies this, data, stack, queue, queue.data
      ensures Valid() && past == old(past)
      ensures sender == Send(old(sender), m, answers)
      ensures code == Returned(old(sender), m, answers)
      ensures old(sender).Ready() && old(locked) && m != [] ==>
                queue.content.Written() == old(queue.content.Written()) + [m]
    {
      hide Split, ChunksFrom, Taken, Ledger, IsSubsequence, Consistent;
      SendConserves(sender, m, answers);
      if !connected || !notifying {
        return InvalidState;
      }
      if locked {
        if m != [] {
          PushConsistent(queue.content, m, QUEUE_SIZE - 1);
        }
        var _ := queue.Write(m);
        sender := Send(sender, m, answers);
        return Stack(Success);
      }
      var answer := Start(m, answers);
      code := Stack(answer);
    }

    /** One turn of the resumed loop while a chunk of the message under way is left. */
    method SendPending(answer: Answer)
      requires Linked() && Ledger(sender) && locked && seg * segSize < length
      modifies this`seg, this`sender, stack
      ensures Linked() && Ledger(sender) && locked && old(sender).pending != []
      ensures sender == if answer == Success
                        then old(sender).(pending := old(sender).pending[1..],
                                          handed := old(sender).handed + [old(sender).pending[0]])
                        else old(sender)
    {
      hide ChunksFrom, IsSubsequence, Consistent, AllChunks, Messages, Storable, Stream;
      ghost var m := data[..length];
      SendSegment(answer);
      assert data[..length] == m;
      if answer == Success {
        ghost var pending := sender.pending;
        assert sender.handed + [pending[0]] + pending[1..] == sender.handed + pending;
        sender := sender.(pending := pending[1..], handed := sender.handed + [pending[0]]);
      }
    }

    /** One turn of the resumed loop once the message under way is out. */
    method TakeQueued() returns (exit: bool)
      requires Linked() && Ledger(sender) && locked && seg * segSize >= length
      modifies this, data, queue, queue.data
      ensures Linked() && Ledger(sender) && past == old(past)
      ensures old(sender).pending == []
      ensures exit == (old(sender).queue.frames == []) == !locked
      ensures sender == if exit then old(sender).(locked := false)
                        else
                          var m := old(sender).queue.frames[0];
                          old(sender).(pending := Split(m, old(sender).size), queue := Pop(old(sender).queue),
                                       started := old(sender).started + [Started(m, old(sender).size)])
    {
      hide ChunksFrom, IsSubsequence, AllChunks, Messages, Stream, Holds, Window;
      NoChunksLeft(data[..length], seg * segSize, segSize);
      var code, n := queue.Read(data);
      length := n;
      if code == FAILED {
        locked := false;
        exit := true;
        sender := sender.(locked := false);
      } else {
        seg := 0;
        exit := false;
        ghost var m := sender.queue.frames[0];
        TakeConserves(sender);
        sender := sender.(pending := Split(m, sender.size), queue := Pop(sender.queue),
                          started := sender.started + [Started(m, sender.size)]);
        assert data[..length] == m;
      }
    }

    /** vBleUart_OnTxComplete: one loop that sends the rest of the message under way, then takes
        messages from the queue, until the stack refuses a chunk or the queue is empty. */
    method OnTxComplete(answers: nat -> Answer)
      requires Valid()
      modifies this, data, stack, queue, queue.data
      ensures Valid() && past == old(past)
      ensures sender == if old(sender).locked then Resume(old(sender), answers, 0) else old(sender)
      ensures locked ==> old(locked)
    {
      hide ChunksFrom, Split, Ledger;
      if locked {
        var calls := 0;
        var answer, exit := Success, false;
        ghost var start := sender;
        ResumeConserves(start, answers, 0);
        while answer == Success && !exit
          invariant Linked() && Ledger(sender) && past == old(past)
          invariant locked == !exit
          invariant Resume(start, answers, 0) ==
                    if answer == Success && !exit then Resume(sender, answers, calls) else sender
          decreases |sender.queue.frames|, |sender.pending|, if answer == Success && !exit then 1 else 0
        {
          if seg * segSize < length {
            answer := answers(calls);
            calls := calls + 1;
            SendPending(answer);
            if answer == Resources {
              locked := true;
              break;
            }
          } else {
            exit := TakeQueued();
          }
        }
      }
    }

    /** vBleUart_Reset, on disconnection or time-out. */
    method Reset()
      requires Valid()
      modifies this, data, queue, queue.data
      ensures Valid() && sender == ChunkedSender.Reset(old(sender))
      ensures past == stack.received == old(stack.received)
    {
      hide Holds, Conserves, Consistent;
      ResetConserves(sender);
      notifying := false;
      connected := false;
      queue.ClearAll();
      forall i | 0 <= i < data.Length {
        data[i] := 0;
      }
      locked, length, seg := false, 0, 0;
      sender, past := ChunkedSender.Reset(sender), stack.received;
    }

    /** BLE_GAP_EVT_CONNECTED, and a write to the notification descriptor. */
    method OnConnect()
      requires Valid()
      modifies this`connected, this`sender
      ensures Valid() && sender == old(sender).(connected := true)
    {
      connected := true;
      sender := sender.(connected := true);
    }

    method OnNotificationWrite(on: bool)
      requires Valid()
      modifies this`notifying, this`sender
      ensures Valid() && sender == old(sender).(notifying := on)
    {
      notifying := on;
      sender := sender.(notifying := on);
    }

    /** vBLE_Uart_onGattEvt, with the negotiated MTU, unless a part of a waiting message has been
        sent with another segment size. */
    method OnGattEvt(attMtu: nat)
      requires Valid() && attMtu > 3
      requires locked ==> attMtu - 3 == segSize || seg == 0
      modifies this`segSize, this`sender
      ensures Valid() && past == old(past)
      ensures sender == Resize(old(sender), attMtu - 3)
      ensures Admissible(old(sender), Mtu(attMtu - 3))
    {
      hide Ledger, ChunksFrom, Holds, Consistent;
      ResizeConserves(sender, attMtu - 3);
      segSize := attMtu - 3;
      ghost var before := sender;
      sender := Resize(sender, attMtu - 3);
      if locked && seg == 0 {
        assert Unsent(before) && 0 * segSize == 0;
      } else if locked {
        SameCut(before);
      }
    }
  }

  /** Cutting a message anew to the size it has changes nothing. */
  lemma SameCut(s: Sender)
    requires s.size > 0
    ensures Resize(s, s.size) == s
  {
    if s.locked && Unsent(s) {
      var last := s.started[|s.started| - 1];
      assert s.started == s.started[..|s.started| - 1] + [last];
    }
  }
}
