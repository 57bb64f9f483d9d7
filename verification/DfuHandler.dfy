/** The request handler of Firmware/Bootloader/Src/ExoKey/dfu_req_handling.c: progress counters,
    running checksums, a write offset and a position in a RAM buffer, proved to follow the update
    protocol and to put the received stream into flash. */
module DfuHandler {
  import opened Arithmetic
  import opened Cyclic
  import opened Crc32
  import opened FlashTrace
  import opened FlashWriter
  import opened DfuProtocol

  // ----- the stream and the flash -----

  /** What has been received of the open object is in the flash from its beginning to the write
      offset, and then in the current buffer; the rest of the object's pages is erased. */
  ghost predicate Tracks(m: Mem, start: nat, last: nat, writeOffset: nat, pos: nat, got: seq<byte>, span: nat) {
    && Sound(m) && pos <= BUFFER_LENGTH
    && last <= writeOffset && writeOffset + pos == last + |got|
    && |got| <= span && start + last + span <= |m.flash|
    && m.flash[start + last..start + writeOffset] + m.bufs[m.cur][..pos] == got
    && forall i :: start + writeOffset <= i < start + last + span ==> m.flash[i] == ERASED
  }

  /** The executed objects are in the flash, one behind the other. */
  ghost predicate InFlash(flash: seq<byte>, start: nat, joined: seq<byte>) {
    joined == [] || (start + |joined| <= |flash| && flash[start..start + |joined|] == joined)
  }

  lemma FillTracks(m: Mem, start: nat, last: nat, writeOffset: nat, pos: nat, got: seq<byte>, span: nat,
                   bytes: seq<byte>)
    requires Tracks(m, start, last, writeOffset, pos, got, span)
    requires pos + |bytes| <= BUFFER_LENGTH && |got| + |bytes| <= span
    ensures Tracks(Sync(m, Fill(pos, bytes)), start, last, writeOffset, pos + |bytes|, got + bytes, span)
  {
    var buf := m.bufs[m.cur];
    assert Patch(buf, pos, bytes)[..pos + |bytes|] == buf[..pos] + bytes;
    var r := Sync(m, Fill(pos, bytes));
    assert r.flash == m.flash && r.bufs[r.cur] == Patch(buf, pos, bytes);
    assert m.flash[start + last..start + writeOffset] + (buf[..pos] + bytes) == got + bytes;
  }

  /** Erased cells take the bytes stored there; all others stay. */
  lemma StoredOnErased(flash: seq<byte>, addr: nat, bytes: seq<byte>)
    requires addr + |bytes| <= |flash|
    requires forall i :: addr <= i < addr + |bytes| ==> flash[i] == ERASED
    ensures var r := ProgramCells(flash, addr, bytes);
            && r[addr..addr + |bytes|] == bytes
            && forall i :: 0 <= i < |flash| && !(addr <= i < addr + |bytes|) ==> r[i] == flash[i]
  {
    hide ProgramCell;
    forall i | 0 <= i < |bytes|
      ensures ProgramCells(flash, addr, bytes)[addr + i] == bytes[i]
    {
      ErasedCellTakes(bytes[i]);
    }
  }

  lemma FlushTracks(m: Mem, start: nat, last: nat, writeOffset: nat, pos: nat, got: seq<byte>, span: nat)
    requires Tracks(m, start, last, writeOffset, pos, got, span)
    ensures Tracks(Sync(m, Flush(start + writeOffset, pos)), start, last, writeOffset + pos, 0, got, span)
  {
    hide ProgramCells;
    var bytes := m.bufs[m.cur][..pos];
    var r := Sync(m, Flush(start + writeOffset, pos));
    StoredOnErased(m.flash, start + writeOffset, bytes);
    var a, b, c := start + last, start + writeOffset, start + writeOffset + pos;
    assert r.flash[a..b] == m.flash[a..b];
    assert r.flash[a..c] == r.flash[a..b] + r.flash[b..c];
    assert r.flash[a..c] + r.bufs[r.cur][..0] == r.flash[a..c];
  }

  /** A fresh object: its pages are erased and nothing is received. */
  lemma CreateTracks(m: Mem, start: nat, last: nat, span: nat)
    requires Sound(m) && start + last + span <= |m.flash|
    ensures Tracks(Sync(Sync(m, Swap), Erase(start + last, span)), start, last, last, 0, [], span)
  {
  }

  lemma ProgramBehind(flash: seq<byte>, start: nat, joined: seq<byte>, addr: nat, bytes: seq<byte>)
    requires InFlash(flash, start, joined) && addr >= start + |joined|
    ensures InFlash(ProgramCells(flash, addr, bytes), start, joined)
  {
    hide ProgramCell;
    if joined != [] {
      assert ProgramCells(flash, addr, bytes)[start..start + |joined|] == flash[start..start + |joined|];
    }
  }

  lemma EraseBehind(flash: seq<byte>, start: nat, joined: seq<byte>, addr: nat, n: nat)
    requires InFlash(flash, start, joined) && addr >= start + |joined|
    ensures InFlash(EraseCells(flash, addr, n), start, joined)
  {
    if joined != [] {
      assert EraseCells(flash, addr, n)[start..start + |joined|] == flash[start..start + |joined|];
    }
  }

  /** An object that was received and flushed in full extends the executed ones. */
  lemma ObjectInFlash(m: Mem, start: nat, joined: seq<byte>, writeOffset: nat, got: seq<byte>, span: nat)
    requires Tracks(m, start, |joined|, writeOffset, 0, got, span) && InFlash(m.flash, start, joined)
    ensures InFlash(m.flash, start, joined + got)
  {
    var a, b, c := start, start + |joined|, start + |joined| + |got|;
    assert m.flash[b..c] + m.bufs[m.cur][..0] == m.flash[b..c];
    if joined != [] {
      assert m.flash[a..c] == m.flash[a..b] + m.flash[b..c];
    } else {
      assert joined + got == got;
    }
  }

  /** Only the cells from `from` to `to` differ. */
  ghost predicate Programmed(before: seq<byte>, after: seq<byte>, from: nat, to: nat) {
    && |before| == |after| && from <= to
    && forall i :: 0 <= i < |before| && !(from <= i < to) ==> after[i] == before[i]
  }

  /** No cell below `limit` differs. */
  ghost predicate UntouchedBelow(before: seq<byte>, after: seq<byte>, limit: nat) {
    |before| == |after| && forall i :: 0 <= i < |before| && i < limit ==> after[i] == before[i]
  }

  lemma ProgrammedAbove(before: seq<byte>, after: seq<byte>, limit: nat, from: nat, to: nat)
    requires Programmed(before, after, from, to) && limit <= from
    ensures UntouchedBelow(before, after, limit)
    ensures from == to ==> after == before
  {
  }

  lemma UntouchedWhole(flash: seq<byte>, limit: nat)
    ensures UntouchedBelow(flash, flash, limit)
  {
  }

  lemma ErasedAbove(flash: seq<byte>, limit: nat, addr: nat, n: nat)
    requires limit <= addr
    ensures UntouchedBelow(flash, EraseCells(flash, addr, n), limit)
  {
  }

  lemma NothingProgrammed(flash: seq<byte>, at: nat)
    ensures Programmed(flash, flash, at, at)
  {
  }

  lemma ProgrammedByStore(flash: seq<byte>, addr: nat, bytes: seq<byte>)
    ensures Programmed(flash, ProgramCells(flash, addr, bytes), addr, addr + |bytes|)
  {
    hide ProgramCell;
  }

  lemma ProgrammedTwice(a: seq<byte>, b: seq<byte>, c: seq<byte>, from: nat, mid: nat, to: nat)
    requires Programmed(a, b, from, mid) && Programmed(b, c, mid, to)
    ensures Programmed(a, c, from, to)
  {
  }

  datatype Option<T> = None | Some(value: T)

  /** nrf_dfu_req_t. */
  datatype ObjType = CommandObj | DataObj | OtherObj
  datatype Request =
    | CreateReq(obj: ObjType, size: nat)
    | SelectReq(obj: ObjType)
    | WriteReq(data: seq<byte>)
    | ExecuteReq
    | CrcReq
    | UnknownReq

  /** Create and select requests name the kind of object. */
  predicate Unsupported(req: Request) { (req.CreateReq? || req.SelectReq?) && req.obj.OtherObj? }

  /** Whether a request can change anything; the others only report. */
  predicate Changes(req: Request) { req.CreateReq? || req.WriteReq? || req.ExecuteReq? }

  /** Whether a write of `n` bytes to an object in step fails: it fills the buffer and that store
      fails, or it completes the object, something is left in the buffer, and that store fails. */
  predicate StoreFails(pos: nat, got: nat, n: nat, size: nat, faults: Faults) {
    || (pos + n >= BUFFER_LENGTH && !faults.store1)
    || (got + n == size && pos + n != 0 && pos + n != BUFFER_LENGTH && !faults.store2)
  }

  /** Which step of the protocol a request asks for, on the selected kind of object. */
  predicate Asks(obj: ObjType, req: Request, faults: Faults, e: Event) {
    match (obj, req)
    case (CommandObj, CreateReq(_, size)) => e == CreateCommand(size)
    case (CommandObj, WriteReq(data)) => e == WriteCommand(data)
    case (CommandObj, ExecuteReq) => e == ExecuteCommand(faults)
    case (DataObj, CreateReq(_, size)) => e.CreateData? && e.size == size
    case (DataObj, WriteReq(data)) => e.WriteData? && e.data == data && e.limit == BUFFER_LENGTH
    case (DataObj, ExecuteReq) => e.ExecuteData? && e.faults == faults
    case _ => false
  }

  /** nrf_dfu_res_t; a request that does not set the maximum size leaves it zero. */
  datatype Response = Response(offset: nat, crc: word, maxSize: nat)

  /** What a request reports about the state it ends in. Only writes, CRC and SELECT requests report. */
  function Reported(env: Env, obj: ObjType, req: Request, s: Session): (res: Option<Response>) {
    if !(req.WriteReq? || req.CrcReq? || req.SelectReq?) then None
    else if obj.CommandObj? then
      Some(Response(|s.command|, Crc(s.command), if req.SelectReq? then INIT_COMMAND_MAX_SIZE else 0))
    else
      var bytes := Joined(s.objects) + s.current;
      Some(Response(|bytes|, Crc(bytes), if req.SelectReq? then env.maxObject else 0))
  }

  /** Progress says how much has been received, and its checksum. */
  ghost predicate Counts(p: Progress, command: seq<byte>, image: seq<byte>, received: seq<byte>) {
    && p.commandCrc == Crc(command)
    && p.imageOffsetLast == |image| && p.imageOffset == |image| + |received|
    && p.imageCrcLast == Crc(image) && p.imageCrc == Crc(image + received)
  }

  /** After a failed store. */
  function Reverted(p: Progress): Progress {
    p.(imageCrc := p.imageCrcLast, imageOffset := p.imageOffsetLast)
  }

  /** Counting a write, and losing what was counted. */
  lemma CountWrite(p: Progress, command: seq<byte>, image: seq<byte>, received: seq<byte>, data: seq<byte>)
    requires Counts(p, command, image, received)
    ensures var r := p.(imageCrc := Continue(p.imageCrc, data), imageOffset := p.imageOffset + |data|);
            Counts(r, command, image, received + data) && Counts(Reverted(r), command, image, [])
    ensures p.imageOffsetLast == |image|
  {
    hide Crc, Continue;
    CrcContinues(image + received, data);
    assert image + received + data == image + (received + data);
    assert image + [] == image;
  }

  /** What the flash holds at the start of the firmware. */
  function ImageAt(flash: seq<byte>, start: nat, size: nat): (image: seq<byte>) {
    if start + size <= |flash| then flash[start..start + size] else []
  }

  /** dfu_progress_t. */
  datatype Progress = Progress(commandSize: nat, commandOffset: nat, commandCrc: word, objectSize: nat,
                               imageCrc: word, imageCrcLast: word, imageOffset: nat, imageOffsetLast: nat)
  const DFU_SIGNED_COMMAND_SIZE := 178
  const NO_PROGRESS := Progress(0, 0, 0, 0, 0, 0, 0, 0)

  /** The other settings that an update changes. */
  datatype Settings = Settings(bankCurrent: nat, bank0: Bank, bank1: Bank, appVersion: nat, blVersion: nat, sdSize: nat)

  /** What the peer sent: the executed objects, and what was received of the open one. `synced`: an
      object is open, its pages were erased, and no store has failed since. `intact`: since the last
      command create, only objects that were synced have been executed. */
  datatype Log = Log(objects: seq<seq<byte>>, received: seq<byte>, synced: bool, intact: bool) {
    ghost function Image(): seq<byte> { Joined(objects) }

    /** Whether the log stays intact when the open object is executed. */
    ghost predicate InStep() { intact && (synced || received == []) }
  }

  const NEW_LOG := Log([], [], false, true)

  /** What becomes of the log when a request has made the step `e` from the state `s`. */
  ghost predicate Noted(s: Session, before: Log, code: ResCode, e: Event, after: Log) {
    match e
    case CreateCommand(_) => after == if code == Success then NEW_LOG else before
    case CreateData(_, erased) =>
      after == if code in {Success, InvalidObject} then before.(received := [], synced := erased) else before
    case WriteData(data, _, failed) =>
      after == if code != Success then before
               else before.(received := if failed then [] else before.received + data,
                            synced := before.synced && !failed)
    case ExecuteData(_, _) =>
      || (after == before && s.objectSize != |s.current|)
      || after == Log(Closed(before.objects, before.received), [], false, before.InStep())
      || after == NEW_LOG
    case _ => after == before
  }

  /** What a peer does that follows a failed store or erase by a new data create: its accepted writes
      go to an object that is in step. */
  ghost predicate Obedient(before: Log, code: ResCode, e: Event) {
    e.WriteData? && code == Success && e.data != [] ==> before.synced
  }

  /** A run as the log sees it, from request to request. */
  ghost predicate Trail(states: seq<Session>, logs: seq<Log>, codes: seq<ResCode>, events: seq<Event>) {
    && |states| == |codes| == |events| && |logs| == |events| + 1
    && forall i :: 0 <= i < |events| ==> Noted(states[i], logs[i], codes[i], events[i], logs[i + 1])
  }

  lemma StepKeepsInStep(s: Session, before: Log, code: ResCode, e: Event, after: Log)
    requires Noted(s, before, code, e, after) && Obedient(before, code, e) && before.InStep()
    ensures after.InStep()
  {
  }

  /** Over every run of an obedient peer, whatever fails, whatever is executed is in step. */
  lemma {:induction false} ObedientRunIsInStep(states: seq<Session>, logs: seq<Log>, codes: seq<ResCode>,
                                               events: seq<Event>, n: nat)
    requires Trail(states, logs, codes, events) && logs[0].InStep() && n <= |events|
    requires forall i :: 0 <= i < n ==> Obedient(logs[i], codes[i], events[i])
    ensures logs[n].InStep()
    decreases n
  {
    hide Noted, Obedient;
    if n > 0 {
      ObedientRunIsInStep(states, logs, codes, events, n - 1);
      StepKeepsInStep(states[n - 1], logs[n - 1], codes[n - 1], events[n - 1], logs[n]);
    }
  }

  /** What an accepted image is, if all its objects were in step: the executed objects, in the flash,
      with their length and checksum in the bank, and with the hash of the init packet. */
  ghost predicate Delivered(env: Env, before: Log, image: seq<byte>, after: Session, flash: seq<byte>) {
    && image == Joined(Closed(before.objects, before.received))
    && InFlash(flash, after.start, image)
    && Vouched(env, after, image)
  }

  class Handler {
    const env: Env
    const writer: Writer
    const initCommand: array<byte>
    var progress: Progress
    var writeOffset: nat
    var settings: Settings
    var bufPos: nat
    var start: nat
    var sizeReq: nat
    var validInit: bool
    var packet: Packet
    var fwHash: seq<byte>
    /** The object type that requests without one refer to; never OtherObj. */
    var curObj: ObjType
    ghost var log: Log

    /** The update as the protocol sees it. */
    ghost function State(): (s: Session)
      requires progress.commandOffset <= initCommand.Length
      reads this, initCommand
    {
      Session(validInit, sizeReq, start, packet, fwHash, progress.commandSize, initCommand[..progress.commandOffset],
              log.objects, log.received, progress.objectSize, settings.bankCurrent, settings.bank0, settings.bank1,
              settings.appVersion, settings.blVersion, settings.sdSize)
    }

    ghost function Span(): (n: nat)
      requires env.pageSize > 0
      reads this
    {
      AlignToPage(env, progress.objectSize)
    }

    /** The counters say what was received. */
    ghost predicate Counted()
      reads this, initCommand
    {
      && Sensible(env) && initCommand.Length == INIT_COMMAND_MAX_SIZE && progress.commandOffset <= initCommand.Length
      && Orderly(env, State())
      && Counts(progress, initCommand[..progress.commandOffset], log.Image(), log.received)
    }

    /** Where the bytes are, while `got` has been received of the open object; `ok` says that no
        flash operation has failed for it. */
    ghost predicate Stream(ok: bool, got: seq<byte>)
      requires env.pageSize > 0
      reads this, writer, writer.flash, writer.block
    {
      && writer.Valid()
      && bufPos <= BUFFER_LENGTH && progress.imageOffsetLast == |log.Image()|
      && (ok ==>
            && Tracks(writer.View(), start, progress.imageOffsetLast, writeOffset, bufPos, got, Span())
            && StoresInOrder(writer.trace, start + progress.imageOffsetLast, Span(), start + writeOffset))
      && (log.intact ==> InFlash(writer.flash[..], start, log.Image()) && writeOffset >= progress.imageOffsetLast)
    }

    ghost predicate Valid()
      reads this, initCommand, writer, writer.flash, writer.block
    {
      && initCommand != writer.flash && initCommand != writer.block
      && Counted() && Stream(log.synced, log.received) && Placed(env, State())
      && bufPos < BUFFER_LENGTH
      && (log.synced ==>
            validInit && progress.objectSize > 0 && (|log.received| == progress.objectSize ==> bufPos == 0))
      && !curObj.OtherObj?
    }

    lemma Separate()
      requires Valid()
      ensures initCommand != writer.flash && initCommand != writer.block
      ensures Sensible(env) && progress.commandOffset <= initCommand.Length
    {
    }

    /** Start-up with stored banks and versions and no update in progress. */
    constructor (env: Env, flash: array<byte>, initCommand: array<byte>, settings: Settings)
      requires Sensible(env) && initCommand.Length == INIT_COMMAND_MAX_SIZE && initCommand != flash
      ensures Valid() && PoweredUp(State()) && this.env == env && this.settings == settings && log == NEW_LOG
      ensures writer.flash == flash && writer.trace == [] && writer.origin == writer.View()
    {
      this.env, this.initCommand, this.settings := env, initCommand, settings;
      progress, writeOffset := NO_PROGRESS, 0;
      bufPos, start, sizeReq, validInit, fwHash := 0, 0, 0, false, [];
      packet := Packet(false, false, Init(Absent, Absent, [], Application, Absent, Absent, Absent, false, [], false),
                       true, [], false, []);
      log, curObj := NEW_LOG, CommandObj;
      writer := new Writer(flash);
      new;
      NothingReceived();
    }

    // ----- bytes -----

    /** memcpy to the buffer position. */
    method Append(bytes: seq<byte>, ghost ok: bool, ghost got: seq<byte>)
      requires env.pageSize > 0 && Stream(ok, got) && bufPos + |bytes| <= BUFFER_LENGTH
      requires ok ==> |got| + |bytes| <= Span()
      modifies this`bufPos, writer`trace, writer.block
      ensures old(writer.trace) <= writer.trace
      ensures Stream(ok, got + bytes) && bufPos == old(bufPos) + |bytes|
    {
      hide Tracks, InFlash, Joined, AlignToPage, Sync, StoresInOrder;
      ghost var m, cells := writer.View(), writer.flash[..];
      if ok {
        FillTracks(m, start, progress.imageOffsetLast, writeOffset, bufPos, got, Span(), bytes);
        StoresGoOn(writer.trace, start + progress.imageOffsetLast, Span(), start + writeOffset, Fill(bufPos, bytes));
      }
      writer.FillBuffer(bufPos, bytes);
      assert writer.flash[..] == cells;
      bufPos := bufPos + |bytes|;
    }

    /** A store of the current buffer at the write offset, with what follows it in both places: the
        write offset moves on, or progress goes back to the last executed object; then the buffers
        are swapped. */
    method StoreAndSwap(storeOk: bool, ghost ok: bool, ghost got: seq<byte>) returns (stored: bool)
      requires env.pageSize > 0 && Stream(ok, got)
      modifies this`bufPos, this`writeOffset, this`progress
      modifies writer`trace, writer`current, writer.flash
      ensures old(writer.trace) <= writer.trace
      ensures Stream(ok && stored, got) && bufPos == 0
      ensures writeOffset == old(writeOffset) + if stored then old(bufPos) else 0
      ensures progress == if stored then old(progress) else Reverted(old(progress))
      ensures Programmed(old(writer.flash[..]), writer.flash[..], start + old(writeOffset), start + writeOffset)
      ensures stored <==> storeOk && start + old(writeOffset) + old(bufPos) <= writer.flash.Length
    {
      hide Tracks, InFlash, Joined, AlignToPage, ProgramCells, Programmed, Replay, AllFit, Rows, StoresInOrder;
      ghost var m, bytes := writer.View(), writer.View().bufs[writer.current][..bufPos];
      if ok {
        FlushTracks(m, start, progress.imageOffsetLast, writeOffset, bufPos, got, Span());
        StoresGoOn(writer.trace, start + progress.imageOffsetLast, Span(), start + writeOffset,
                   Flush(start + writeOffset, bufPos));
      }
      if log.intact {
        ProgramBehind(m.flash, start, log.Image(), start + writeOffset, bytes);
      }
      ProgrammedByStore(m.flash, start + writeOffset, bytes);
      NothingProgrammed(m.flash, start + writeOffset);
      stored := writer.FlushBuffer(start + writeOffset, bufPos, storeOk);
      assert writer.flash[..] == writer.View().flash;
      if stored {
        writeOffset := writeOffset + bufPos;
      } else {
        progress := Reverted(progress);
      }
      bufPos := 0;
    }

    /** The bytes of a write: into the buffer, and when that is full, to flash and the rest into the
        next buffer. */
    method Buffer(data: seq<byte>, storeOk: bool, ghost ok: bool, ghost got: seq<byte>) returns (ghost failed: bool)
      requires env.pageSize > 0 && Stream(ok, got) && bufPos < BUFFER_LENGTH && |data| <= BUFFER_LENGTH
      requires ok ==> |got| + |data| <= Span()
      modifies this`bufPos, this`writeOffset, this`progress
      modifies writer`trace, writer`current, writer.flash, writer.block
      ensures old(writer.trace) <= writer.trace
      ensures Stream(ok && !failed, got + data) && bufPos < BUFFER_LENGTH
      ensures progress == if failed then Reverted(old(progress)) else old(progress)
      ensures ok ==> (failed <==> old(bufPos) + |data| >= BUFFER_LENGTH && !storeOk)
      ensures bufPos == old(bufPos) + |data| - if old(bufPos) + |data| < BUFFER_LENGTH then 0 else BUFFER_LENGTH
      ensures ok && failed ==> writeOffset == old(writeOffset) &&
                               writeOffset + bufPos + BUFFER_LENGTH == progress.imageOffsetLast + |got| + |data|
      ensures Programmed(old(writer.flash[..]), writer.flash[..], start + old(writeOffset), start + writeOffset)
    {
      hide AlignToPage, Joined, InFlash, Programmed, StoresInOrder;
      NothingProgrammed(writer.flash[..], start + writeOffset);
      failed := false;
      if bufPos + |data| < BUFFER_LENGTH {
        Append(data, ok, got);
      } else {
        var first := BUFFER_LENGTH - bufPos;
        var rest := data[first..];
        Append(data[..first], ok, got);
        var stored := StoreAndSwap(storeOk, ok, got + data[..first]);
        failed := !stored;
        assert got + data[..first] + rest == got + data && got + data[..first] + [] == got + data[..first];
        if |rest| > 0 {
          Append(rest, ok && stored, got + data[..first]);
        }
      }
    }

    /** The end of an object: what is left in the buffer goes to flash. */
    method FlushAtEnd(storeOk: bool, ghost ok: bool, ghost got: seq<byte>) returns (ghost failed: bool)
      requires env.pageSize > 0 && Stream(ok, got) && bufPos < BUFFER_LENGTH
      requires ok ==> |got| <= progress.objectSize && progress.objectSize < U32
      modifies this`bufPos, this`writeOffset, this`progress
      modifies writer`trace, writer`current, writer.flash
      ensures old(writer.trace) <= writer.trace
      ensures Stream(ok && !failed, got) && bufPos < BUFFER_LENGTH
      ensures ok && |got| == progress.objectSize ==> bufPos == 0
      ensures progress == if failed then Reverted(old(progress)) else old(progress)
      ensures failed ==> writeOffset == old(writeOffset)
      ensures ok ==> (failed <==> |got| == progress.objectSize && old(bufPos) > 0 && !storeOk)
      ensures 0 <= old(writeOffset) - progress.imageOffsetLast &&
              old(writeOffset + bufPos) - progress.imageOffsetLast < progress.objectSize ==>
                !failed && writeOffset == old(writeOffset)
      ensures Programmed(old(writer.flash[..]), writer.flash[..], start + old(writeOffset), start + writeOffset)
    {
      hide AlignToPage, Joined, InFlash, Programmed, StoresInOrder;
      NothingProgrammed(writer.flash[..], start + writeOffset);
      failed := false;
      if bufPos > 0 && (writeOffset - progress.imageOffsetLast + bufPos) % U32 >= progress.objectSize {
        var stored := StoreAndSwap(storeOk, ok, got);
        failed := !stored;
      }
    }

    /** What an accepted write does with its bytes. */
    method TakeBytes(data: seq<byte>, faults: Faults, ghost ok: bool, ghost got: seq<byte>) returns (ghost failed: bool)
      requires env.pageSize > 0 && Stream(ok, got) && bufPos < BUFFER_LENGTH && |data| <= BUFFER_LENGTH
      requires |got| + |data| <= progress.objectSize < U32
      modifies this`bufPos, this`writeOffset, this`progress
      modifies writer`trace, writer`current, writer.flash, writer.block
      ensures old(writer.trace) <= writer.trace
      ensures Stream(ok && !failed, got + data) && bufPos < BUFFER_LENGTH
      ensures ok && !failed && |got + data| == progress.objectSize ==> bufPos == 0
      ensures progress == if failed then Reverted(old(progress)) else old(progress)
      ensures ok ==> (failed <==> StoreFails(old(bufPos), |got|, |data|, old(progress).objectSize, faults))
      ensures Programmed(old(writer.flash[..]), writer.flash[..], start + old(writeOffset), start + writeOffset)
      ensures ok ==> writeOffset <= progress.imageOffsetLast + Span()
    {
      hide AlignToPage, Joined, InFlash, Tracks, Programmed, StoresInOrder;
      ghost var before, from := writer.flash[..], start + writeOffset;
      AlignUp(env, progress.objectSize);
      if ok {
        StillErased(writer.View(), start, progress.imageOffsetLast, writeOffset, bufPos, got, Span());
      }
      ghost var failed1 := Buffer(data, faults.store1, ok, got);
      ghost var middle, to := writer.flash[..], start + writeOffset;
      if ok && !failed1 {
        StillErased(writer.View(), start, progress.imageOffsetLast, writeOffset, bufPos, got + data, Span());
      }
      ghost var failed2 := FlushAtEnd(faults.store2, ok && !failed1, got + data);
      if ok && !failed1 && !failed2 {
        StillErased(writer.View(), start, progress.imageOffsetLast, writeOffset, bufPos, got + data, Span());
      }
      ProgrammedTwice(before, middle, writer.flash[..], from, to, start + writeOffset);
      failed := failed1 || failed2;
    }

    /** An accepted write, from the running checksum on. */
    method Take(data: seq<byte>, faults: Faults) returns (ghost failed: bool)
      requires Valid() && validInit && |data| <= BUFFER_LENGTH && |data| + |log.received| <= progress.objectSize
      modifies this`progress, this`bufPos, this`writeOffset, this`log
      modifies writer`trace, writer`current, writer.flash, writer.block
      ensures old(writer.trace) <= writer.trace
      ensures Valid()
      ensures State() == old(State()).(current := if failed then [] else old(log.received) + data)
      ensures old(log.synced) ==>
                (failed <==> StoreFails(old(bufPos), |old(log.received)|, |data|, old(progress).objectSize, faults))
      ensures log.synced == (old(log.synced) && !failed)
      ensures log.intact == old(log.intact)
      ensures Programmed(old(writer.flash[..]), writer.flash[..], start + old(writeOffset), start + writeOffset)
      ensures old(log.synced) ==> writeOffset <= progress.imageOffsetLast + Span()
    {
      hide AlignToPage, Joined, InFlash, Tracks, Counts, Programmed, Orderly, Rows, Replay, AllFit, Continue,
           StoresInOrder;
      ghost var s := State();
      OrderlySizes(env, s);
      CountWrite(progress, s.command, log.Image(), log.received, data);
      progress := progress.(imageCrc := Continue(progress.imageCrc, data),
                            imageOffset := progress.imageOffset + |data|);
      failed := TakeBytes(data, faults, log.synced, log.received);
      ghost var view, cells := writer.View(), writer.flash[..];
      log := log.(received := if failed then [] else log.received + data,
                  synced := log.synced && !failed);
      assert writer.Valid() && writer.View() == view && writer.flash[..] == cells;
      assert initCommand[..progress.commandOffset] == s.command;
      assert Counts(progress, s.command, log.Image(), log.received);
      assert State() == s.(current := log.received);
      WriteKeepsOrder(env, s, data, failed);
    }

    /** The WRITE request of nrf_dfu_data_req. `failed` says that a store failed: then progress and
        response are back at the last executed object. The flash changes only from the old write
        offset to the new one, inside the pages of the open object. */
    method DataWrite(data: seq<byte>, faults: Faults) returns (code: ResCode, res: Response, ghost failed: bool)
      requires Valid()
      modifies this`progress, this`bufPos, this`writeOffset, this`log
      modifies writer`trace, writer`current, writer.flash, writer.block
      ensures old(writer.trace) <= writer.trace
      ensures Valid()
      ensures (code, State()) == DfuProtocol.DataWrite(old(State()), data, BUFFER_LENGTH, failed)
      ensures res == Response(|log.Image() + log.received|, Crc(log.Image() + log.received), 0)
      ensures failed ==> log.received == []
      ensures old(log.synced) && code == Success ==>
                (failed <==> StoreFails(old(bufPos), |old(log.received)|, |data|, old(progress).objectSize, faults))
      ensures Noted(old(State()), old(log), code, WriteData(data, BUFFER_LENGTH, failed), log)
      ensures UntouchedBelow(old(writer.flash[..]), writer.flash[..], start)
      ensures code != Success || !validInit ==> writer.flash[..] == old(writer.flash[..])
      ensures Programmed(old(writer.flash[..]), writer.flash[..], start + old(writeOffset), start + writeOffset)
      ensures old(log.synced) && code == Success ==> writeOffset <= |log.Image()| + Span()
    {
      hide UntouchedBelow, AlignToPage, Joined, InFlash, Tracks, Programmed, Orderly, Rows, Replay, AllFit, Crc,
           StoresInOrder;
      ghost var before, from := writer.flash[..], start + writeOffset;
      OrderlySizes(env, State());
      NothingProgrammed(writer.flash[..], start + writeOffset);
      failed := false;
      code := Success;
      if !validInit {
        code := OperationNotPermitted;
      } else if |data| > BUFFER_LENGTH {
        code := InsufficientResources;
      } else if (|data| + progress.imageOffset - progress.imageOffsetLast) % U32 > progress.objectSize {
        code := InvalidParameter;
      } else {
        failed := Take(data, faults);
      }
      ProgrammedAbove(before, writer.flash[..], start, from, start + writeOffset);
      res := Response(progress.imageOffset, progress.imageCrc, 0);
    }

    /** Next buffer, and erased pages for an object that starts behind the executed ones. */
    method ErasePages(size: nat, eraseOk: bool) returns (erased: bool)
      requires env.pageSize > 0 && writer.Valid() && size == progress.objectSize
      requires writeOffset == progress.imageOffset == progress.imageOffsetLast == |log.Image()|
      requires log.intact ==> InFlash(writer.flash[..], start, log.Image())
      modifies this`bufPos, writer`trace, writer`current, writer.flash
      ensures old(writer.trace) <= writer.trace
      ensures Stream(erased, []) && bufPos == 0
      ensures erased <==> eraseOk && start + |log.Image()| + Span() <= writer.flash.Length
      ensures UntouchedBelow(old(writer.flash[..]), writer.flash[..], start)
    {
      hide Joined, InFlash, Tracks, Rows, Replay, AllFit, StoresInOrder, EraseCells, UntouchedBelow;
      ErasedAbove(writer.flash[..], start, start + |log.Image()|, Span());
      UntouchedWhole(writer.flash[..], start);
      ghost var m, base, span := writer.View(), start + |log.Image()|, Span();
      writer.SwapBuffers();
      bufPos := 0;
      ghost var swapped := writer.View();
      assert swapped.flash == m.flash;
      erased := writer.EraseFlash(start + progress.imageOffset,
                                  (size + env.pageSize - 1) / env.pageSize * env.pageSize, eraseOk);
      if erased {
        CreateTracks(m, start, |log.Image()|, span);
        StoresGoOn(old(writer.trace) + [Swap], base, span, base, Erase(base, span));
      }
      if log.intact {
        EraseBehind(swapped.flash, start, log.Image(), base, span);
      }
      assert writer.flash[..] == writer.View().flash;
    }

    /** What an accepted data create does: progress goes back to the last executed object, the
        buffers are swapped, and the object's pages are erased. */
    method Open(size: nat, eraseOk: bool) returns (erased: bool)
      requires Valid() && validInit && 0 < size && |log.Image()| + size <= sizeReq
      requires Orderly(env, State().(current := [], objectSize := size))
      modifies this`progress, this`bufPos, this`writeOffset, this`log
      modifies writer`trace, writer`current, writer.flash
      ensures old(writer.trace) <= writer.trace
      ensures Valid()
      ensures State() == old(State()).(current := [], objectSize := size)
      ensures log == old(log).(received := [], synced := erased)
      ensures erased <==> eraseOk && start + |log.Image()| + Span() <= writer.flash.Length
      ensures UntouchedBelow(old(writer.flash[..]), writer.flash[..], start)
    {
      hide AlignToPage, Joined, InFlash, Tracks, Counts, Orderly, Rows, Replay, AllFit, StoresInOrder,
           UntouchedBelow;
      ghost var s := State();
      CountCreate(progress, s.command, log.Image(), log.received, size);
      progress := Reverted(progress).(objectSize := size);
      writeOffset := progress.imageOffsetLast;
      erased := ErasePages(size, eraseOk);
      ghost var view, cells := writer.View(), writer.flash[..];
      log := log.(received := [], synced := erased);
      assert writer.Valid() && writer.View() == view && writer.flash[..] == cells;
      assert initCommand[..progress.commandOffset] == s.command;
      assert State() == s.(current := [], objectSize := size);
    }

    /** The CREATE request of nrf_dfu_data_req. When its erase succeeds, whatever failed before, the
        object starts in step with the flash, at a page boundary. */
    method DataCreate(size: nat, faults: Faults) returns (code: ResCode, ghost erased: bool)
      requires Valid() && size < U32
      modifies this`progress, this`bufPos, this`writeOffset, this`settings, this`log
      modifies writer`trace, writer`current, writer.flash
      ensures old(writer.trace) <= writer.trace
      ensures Valid()
      ensures (code, State()) == DfuProtocol.DataCreate(env, old(State()), size, erased)
      ensures Noted(old(State()), old(log), code, CreateData(size, erased), log)
      ensures code in {Success, InvalidObject} ==>
                && |log.Image()| % env.pageSize == 0
                && (erased <==> faults.erase && start + |log.Image()| + Span() <= writer.flash.Length)
      ensures UntouchedBelow(old(writer.flash[..]), writer.flash[..], start)
      ensures !validInit ==> writer.flash[..] == old(writer.flash[..])
    {
      hide AlignToPage, Joined, InFlash, Tracks, Counts, Rows, Replay, AllFit, StoresInOrder, UntouchedBelow;
      UntouchedWhole(writer.flash[..], start);
      erased := false;
      OrderlySizes(env, State());
      var last := progress.imageOffsetLast;
      if size == 0 {
        return InvalidParameter, erased;
      }
      if size % env.pageSize != 0 && (last + size) % U32 != sizeReq {
        return InvalidParameter, erased;
      }
      if size > env.maxObject {
        return InsufficientResources, erased;
      }
      if !validInit {
        return OperationNotPermitted, erased;
      }
      if (last + size) % U32 > sizeReq {
        return OperationNotPermitted, erased;
      }
      EventKeepsOrder(env, State(), CreateData(size, true));
      CreateStartsPage(env, State(), size, true);
      hide Orderly;
      var done := Open(size, faults.erase);
      erased := done;
      if settings.bankCurrent == 0 {
        settings := settings.(bank0 := settings.bank0.(code := Invalid));
      }
      code := if done then Success else InvalidObject;
    }

    /** The bank and version settings that a validation ends with. */
    method Mark(code: ResCode, image: seq<byte>)
      requires settings.bankCurrent <= 1 && progress.commandOffset <= initCommand.Length
      requires code == Success ==> !packet.init.fwType.UnknownType?
      modifies this`settings
      ensures State() == if code == Success then Accepted(env, old(State()), image, progress.imageCrc)
                         else Rejected(env, old(State()), image)
    {
      var init, first, next := packet.init, settings.bankCurrent == 0, settings;
      if init.fwType.SoftDeviceBootloader? && env.imageMajor(image) != env.sdMajor && !first {
        next := next.(bank0 := next.bank0.(code := Invalid));
      }
      var bank := if first then next.bank0 else next.bank1;
      if code == Success {
        match init.fwType {
          case Application =>
            bank := bank.(code := ValidApp);
            if !first {
              next := next.(bank0 := next.bank0.(code := Invalid));
            }
            next := next.(appVersion := Value(init.fwVersion));
          case SoftDevice =>
            bank := bank.(code := ValidSd);
            next := next.(sdSize := Value(init.sdSize));
          case Bootloader =>
            bank := bank.(code := ValidBl);
            next := next.(blVersion := Value(init.fwVersion));
          case _ =>
            bank := bank.(code := ValidSdBl);
            next := next.(sdSize := Value(init.sdSize), blVersion := Value(init.fwVersion));
        }
        bank := bank.(crc := progress.imageCrc, size := sizeReq);
      } else {
        bank := Bank(0, 0, Invalid);
      }
      ghost var s := State();
      settings := if first then next.(bank0 := bank) else next.(bank1 := bank);
      assert initCommand[..progress.commandOffset] == s.command;
      assert State() == s.(bank0 := settings.bank0, bank1 := settings.bank1, appVersion := settings.appVersion,
                           blVersion := settings.blVersion, sdSize := settings.sdSize);
    }

    /** All progress is zeroed, and the stored init command overwritten. */
    method ClearProgress()
      requires Sensible(env) && initCommand.Length == INIT_COMMAND_MAX_SIZE
      requires progress.commandOffset <= initCommand.Length
      requires initCommand != writer.flash && initCommand != writer.block && writer.Valid()
      requires bufPos < BUFFER_LENGTH && !curObj.OtherObj? && (validInit ==> 0 < sizeReq <= env.region)
      requires Placed(env, State())
      modifies this`progress, this`writeOffset, this`log, initCommand
      ensures Valid() && State() == Cleared(old(State()))
      ensures log == NEW_LOG
    {
      hide Crc, Rows, Replay, AllFit;
      progress := NO_PROGRESS;
      forall i | 0 <= i < DFU_SIGNED_COMMAND_SIZE {
        initCommand[i] := 0xFF;
      }
      writeOffset := 0;
      log := NEW_LOG;
      NothingReceived();
      assert initCommand[..0] == [];
    }

    /** What nrf_dfu_postvalidate finds about the image: the hash, compared even when computing it
        failed, and then the SoftDevice version. */
    method Judge(image: seq<byte>, hashed: bool) returns (code: ResCode)
      requires progress.commandOffset <= initCommand.Length
      modifies this`fwHash
      ensures State() == old(State()).(fwHash := if packet.init.sha256 && hashed then env.hash(image) else old(fwHash))
      ensures code == Verdict(env, old(State()), image, hashed)
    {
      ghost var s := State();
      var init := packet.init;
      code := Success;
      if init.sha256 {
        if hashed {
          fwHash := env.hash(image);
        } else {
          code := OperationFailed;
        }
        if fwHash != init.hash {
          code := ExtError(VerificationFailed);
        }
      } else {
        code := ExtError(WrongHashType);
      }
      match init.fwType {
        case SoftDevice =>
          if env.imageMajor(image) != env.sdMajor {
            code := InvalidObject;
          }
        case UnknownType =>
          code := OperationFailed;
        case _ =>
      }
      assert initCommand[..progress.commandOffset] == s.command;
    }

    /** nrf_dfu_postvalidate, of a complete image. */
    method Postvalidate(faults: Faults) returns (code: ResCode)
      requires Valid() && log.received == [] && progress.objectSize == 0 && |log.Image()| == sizeReq
      modifies this`progress, this`writeOffset, this`settings, this`fwHash, this`log, initCommand
      ensures Valid()
      ensures (code, State()) ==
              DfuProtocol.Postvalidate(env, old(State()), ImageAt(writer.flash[..], start, sizeReq),
                                       Crc(old(log.Image())), faults)
      ensures log == old(log) || log == NEW_LOG
    {
      hide AlignToPage, Joined, InFlash, Tracks, Rows, Replay, AllFit, Crc, Orderly,
           Accepted, Rejected, Cleared, Verdict, StoresInOrder;
      ghost var s := State();
      OrderlySizes(env, s);
      assert log.Image() + [] == log.Image();
      var image := ImageAt(writer.flash[..], start, sizeReq);
      code := Judge(image, faults.imageHash);
      HashKeepsOrder(env, s, fwHash);
      if settings.bankCurrent > 1 {
        return OperationFailed;
      }
      assert code == Success ==> !packet.init.fwType.UnknownType? by { KnownType(env, s, image, faults.imageHash); }
      MarkKeepsPlace(env, State(), image, progress.imageCrc);
      Mark(code, image);
      ClearProgress();
      if !faults.settings2 {
        code := OperationFailed;
      }
    }

    /** An object received in full becomes an executed one. */
    method Close()
      requires Valid() && |log.received| == progress.objectSize
      modifies this`progress, this`log
      ensures Valid()
      ensures State() == old(State()).(objects := Closed(old(log.objects), old(log.received)),
                                       current := [], objectSize := 0)
      ensures log == Log(Closed(old(log.objects), old(log.received)), [], false, old(log.InStep()))
      ensures log.intact ==> InFlash(writer.flash[..], start, log.Image())
    {
      hide AlignToPage, Joined, InFlash, Tracks, Counts, Rows, Replay, AllFit, Crc, StoresInOrder;
      ghost var s, view, cells := State(), writer.View(), writer.flash[..];
      ClosedJoins(log.objects, log.received);
      CountExecute(progress, s.command, log.Image(), log.received);
      if log.synced {
        EmptyBuffer(view, start, |log.Image()|, writeOffset, log.received, Span());
        if log.intact {
          ObjectInFlash(view, start, log.Image(), writeOffset, log.received, Span());
        }
      }
      ExecuteKeepsOrder(env, s, [], Faults(false, false, false, false, false, false, false));
      progress := progress.(objectSize := 0, imageOffsetLast := progress.imageOffset,
                            imageCrcLast := progress.imageCrc);
      log := Log(Closed(log.objects, log.received), [], false, log.InStep());
      assert writer.Valid() && writer.View() == view && writer.flash[..] == cells;
      assert initCommand[..progress.commandOffset] == s.command;
      assert State() == s.(objects := log.objects, current := [], objectSize := 0);
    }

    /** The EXECUTE request of nrf_dfu_data_req. When it completes an image and accepts it, and all
        executed objects were in step, then what the flash holds at the start of the firmware, and what the hash
        was taken of, is the executed objects one behind the other. */
    method DataExecute(faults: Faults) returns (code: ResCode)
      requires Valid()
      modifies this`progress, this`writeOffset, this`settings, this`fwHash, this`log, initCommand
      ensures Valid()
      ensures (code, State()) ==
              DfuProtocol.DataExecute(env, old(State()), ImageAt(writer.flash[..], start, sizeReq), faults)
      ensures Noted(old(State()), old(log), code, ExecuteData(ImageAt(writer.flash[..], start, sizeReq), faults), log)
      ensures var image := ImageAt(writer.flash[..], start, sizeReq);
              Accepts(env, old(State()), image, faults) && old(log.InStep()) ==>
                Delivered(env, old(log), image, State(), writer.flash[..])
    {
      hide AlignToPage, Joined, InFlash, Tracks, Rows, Replay, AllFit, Crc, Orderly,
           Vouched, Verdict, DfuProtocol.Postvalidate, StoresInOrder;
      OrderlySizes(env, State());
      ghost var s, cells := State(), writer.flash[..];
      if progress.objectSize != (progress.imageOffset - progress.imageOffsetLast) % U32 {
        return OperationNotPermitted;
      }
      Close();
      assert writer.flash[..] == cells;
      if !faults.settings1 {
        return OperationFailed;
      }
      code := Success;
      if progress.imageOffset == sizeReq {
        ghost var image := ImageAt(cells, start, sizeReq);
        if log.intact {
          WholeImage(cells, start, log.Image());
          if Accepts(env, s, image, faults) {
            AcceptanceVouches(env, s, image, faults);
          }
        }
        code := Postvalidate(faults);
      }
    }

    /** The CRC and SELECT requests of nrf_dfu_data_req: how much of the image has been received. */
    method DataStatus(select: bool) returns (res: Response)
      requires Valid()
      ensures res == Response(|log.Image() + log.received|, Crc(log.Image() + log.received),
                              if select then env.maxObject else 0)
    {
      res := Response(progress.imageOffset, progress.imageCrc, if select then env.maxObject else 0);
    }

    // ----- command requests -----

    /** The CREATE request of nrf_dfu_command_req. */
    method CommandCreate(size: nat) returns (code: ResCode)
      requires Valid()
      modifies this`validInit, this`progress, this`writeOffset, this`log
      ensures Valid()
      ensures (code, State()) == DfuProtocol.CommandCreate(old(State()), size)
      ensures Noted(old(State()), old(log), code, CreateCommand(size), log)
    {
      hide AlignToPage, InFlash, Tracks, Rows, Replay, AllFit, Crc, StoresInOrder;
      if size == 0 {
        return InvalidParameter;
      }
      if size > INIT_COMMAND_MAX_SIZE {
        return InsufficientResources;
      }
      validInit := false;
      progress := NO_PROGRESS.(commandSize := size);
      writeOffset := 0;
      log := NEW_LOG;
      NothingReceived();
      NothingInFlash(writer.flash[..], start);
      assert initCommand[..0] == [];
      code := Success;
    }

    /** The WRITE request of nrf_dfu_command_req. */
    method CommandWrite(data: seq<byte>) returns (code: ResCode, res: Response)
      requires Valid()
      modifies this`progress, initCommand
      ensures Valid()
      ensures (code, State()) == DfuProtocol.CommandWrite(old(State()), data)
      ensures res == Response(|State().command|, Crc(State().command), 0)
    {
      hide AlignToPage, InFlash, Tracks, Rows, Replay, AllFit, Crc, Continue, Joined, StoresInOrder, Counts, Orderly;
      ghost var s, view, cells := State(), writer.View(), writer.flash[..];
      OrderlySizes(env, s);
      CountCommand(progress, s.command, log.Image(), log.received, data);
      if |data| + progress.commandOffset > progress.commandSize {
        return InvalidParameter, Response(progress.commandOffset, progress.commandCrc, 0);
      }
      forall i | 0 <= i < |data| {
        initCommand[progress.commandOffset + i] := data[i];
      }
      EventKeepsOrder(env, s, WriteCommand(data));
      progress := progress.(commandOffset := progress.commandOffset + |data|,
                            commandCrc := Continue(progress.commandCrc, data));
      assert writer.Valid() && writer.View() == view && writer.flash[..] == cells;
      assert initCommand[..progress.commandOffset] == s.command + data;
      assert State() == s.(command := s.command + data);
      code, res := Success, Response(progress.commandOffset, progress.commandCrc, 0);
    }

    /** The CRC and SELECT requests of nrf_dfu_command_req. */
    method CommandStatus(select: bool) returns (res: Response)
      requires Valid()
      ensures res == Response(|State().command|, Crc(State().command), if select then INIT_COMMAND_MAX_SIZE else 0)
    {
      res := Response(progress.commandOffset, progress.commandCrc, if select then INIT_COMMAND_MAX_SIZE else 0);
    }

    /** nrf_dfu_find_cache. */
    method ReserveBank(size: nat) returns (found: bool)
      requires env.pageSize > 0 && progress.commandOffset <= initCommand.Length
      modifies this`settings, this`start
      ensures (found, State()) == FindCache(env, old(State()), size)
    {
      ghost var s := State();
      if env.region < size {
        return false;
      }
      var next := settings;
      if next.bank0.code.ValidApp? && size <= (env.region - AlignToPage(env, next.bank0.size)) % U32 {
        start := (env.appStart + AlignToPage(env, next.bank0.size)) % U32;
        next := next.(bankCurrent := 1, bank1 := Bank(size, 0, Invalid));
      } else {
        start := env.appStart;
        next := next.(bankCurrent := 0, bank0 := Bank(size, 0, Invalid));
      }
      settings := next;
      found := true;
      assert initCommand[..progress.commandOffset] == s.command;
    }

    /** The checks of dfu_handle_prevalidate, up to the signature. */
    method CheckPacket(hashed: bool) returns (code: ResCode)
      ensures code == CheckInit(env, settings.appVersion, settings.blVersion, packet, hashed)
    {
      var init := packet.init;
      if |packet.initBytes| == 0 {
        return ExtError(InitCommandInvalid);
      }
      if init.debug {
        return OperationFailed;
      }
      if init.hwVersion.Absent? {
        return ExtError(InitCommandInvalid);
      }
      if init.hwVersion.value != HW_VERSION {
        return ExtError(HwVersionFailure);
      }
      var found, i := false, 0;
      while i < |init.sdReq| && !found
        invariant 0 <= i <= |init.sdReq|
        invariant found <==> env.sdFwid in init.sdReq[..i]
      {
        found := init.sdReq[i] == env.sdFwid;
        i := i + 1;
      }
      assert !found ==> init.sdReq[..i] == init.sdReq;
      if !found {
        return ExtError(SdVersionFailure);
      }
      var fwVersion := 0;
      match init.fwType {
        case Application =>
          if init.fwVersion.Absent? {
            return ExtError(InitCommandInvalid);
          }
          fwVersion := settings.appVersion;
        case SoftDevice =>
        case Bootloader | SoftDeviceBootloader =>
          if init.fwVersion.Absent? {
            return ExtError(InitCommandInvalid);
          }
          fwVersion := settings.blVersion;
        case UnknownType =>
          return ExtError(InitCommandInvalid);
      }
      match init.fwType {
        case Application =>
          if init.fwVersion.value < fwVersion {
            return ExtError(FwVersionFailure);
          }
        case Bootloader | SoftDeviceBootloader =>
          if init.fwVersion.value <= fwVersion {
            return ExtError(FwVersionFailure);
          }
        case _ =>
      }
      if !packet.ecdsa {
        return ExtError(WrongSignatureType);
      }
      if !hashed || |packet.signature| != SIGNATURE_LENGTH {
        return OperationFailed;
      }
      if !env.verify(packet.initBytes, packet.signature) {
        return InvalidObject;
      }
      code := Success;
    }

    /** The sizes in dfu_handle_prevalidate: what the init packet announces goes to m_firmware_size_req,
        even when it is then refused. */
    method TakeSize() returns (code: ResCode)
      requires progress.commandOffset <= initCommand.Length
      modifies this`sizeReq
      ensures (code, sizeReq) == AnnouncedSize(env, packet.init)
      ensures State() == old(State()).(sizeReq := sizeReq)
    {
      ghost var s := State();
      var init := packet.init;
      sizeReq := 0;
      code := Success;
      match init.fwType {
        case Application =>
          if init.appSize.Absent? {
            code := ExtError(InitCommandInvalid);
          } else {
            sizeReq := init.appSize.value;
          }
        case Bootloader =>
          if init.blSize.Absent? {
            code := ExtError(InitCommandInvalid);
          } else {
            sizeReq := init.blSize.value;
            if init.blSize.value > env.blRoom {
              code := InsufficientResources;
            }
          }
        case SoftDevice =>
          if init.sdSize.Absent? {
            code := ExtError(InitCommandInvalid);
          } else {
            sizeReq := init.sdSize.value;
          }
        case SoftDeviceBootloader =>
          if init.blSize.Absent? || init.sdSize.Absent? {
            code := ExtError(InitCommandInvalid);
          } else {
            sizeReq := (init.sdSize.value + init.blSize.value) % U32;
            if init.sdSize.value == 0 || init.blSize.value == 0 {
              code := InvalidParameter;
            } else if init.blSize.value > env.blRoom {
              code := InsufficientResources;
            }
          }
        case UnknownType =>
          code := ExtError(InitCommandInvalid);
      }
      assert initCommand[..progress.commandOffset] == s.command;
    }

    /** dfu_handle_prevalidate, for an init packet that is not valid yet. */
    method Prevalidate(hashed: bool) returns (code: ResCode)
      requires env.pageSize > 0 && progress.commandOffset <= initCommand.Length
      modifies this`settings, this`start, this`sizeReq, this`fwHash
      ensures (code, State()) == DfuProtocol.Prevalidate(env, old(State()), hashed)
    {
      hide FindCache, AnnouncedSize, CheckInit;
      ghost var s := State();
      code := CheckPacket(hashed);
      if code != Success {
        return;
      }
      code := TakeSize();
      if code != Success {
        return;
      }
      fwHash := packet.init.hash;
      assert initCommand[..progress.commandOffset] == s.command;
      assert State() == s.(sizeReq := sizeReq, fwHash := fwHash);
      if sizeReq == 0 {
        return InvalidParameter;
      }
      var found := ReserveBank(sizeReq);
      if !found {
        FindCacheFails(env, s.(sizeReq := sizeReq, fwHash := fwHash), sizeReq);
        return InsufficientResources;
      }
    }

    /** Decoding the init command and handling what it holds. */
    method Decode(faults: Faults) returns (code: ResCode)
      requires env.pageSize > 0 && progress.commandOffset <= initCommand.Length
      modifies this`validInit, this`packet, this`settings, this`start, this`sizeReq, this`fwHash
      ensures (code, State()) == DfuProtocol.CommandExecute(env, old(State()), faults)
    {
      hide DfuProtocol.Prevalidate;
      ghost var s := State();
      if progress.commandOffset != progress.commandSize {
        return OperationNotPermitted;
      }
      if validInit {
        return Success;
      }
      var decoded := env.decode(initCommand[..progress.commandSize]);
      packet := decoded.packet;
      assert initCommand[..progress.commandOffset] == s.command;
      if !decoded.ok {
        code := InvalidObject;
      } else if packet.signed {
        if !packet.hasInit {
          code := InvalidObject;
        } else {
          code := Prevalidate(faults.initHash);
          if code == Success && !faults.settings1 {
            code := OperationFailed;
          }
          if code == Success {
            validInit := true;
          }
        }
      } else if packet.unsigned {
        code := ExtError(UnknownCommand);
      } else {
        code := InvalidObject;
      }
    }

    /** The EXECUTE request of nrf_dfu_command_req. */
    method CommandExecute(faults: Faults) returns (code: ResCode)
      requires Valid()
      modifies this`validInit, this`packet, this`settings, this`start, this`sizeReq, this`fwHash
      ensures Valid() && log == old(log)
      ensures (code, State()) == DfuProtocol.CommandExecute(env, old(State()), faults)
    {
      hide AlignToPage, InFlash, Tracks, Rows, Replay, AllFit, Crc, Joined, Counts, StoresInOrder,
           DfuProtocol.Prevalidate;
      ghost var s := State();
      code := Decode(faults);
      EventKeepsOrder(env, s, ExecuteCommand(faults));
      EventKeepsPlace(env, s, ExecuteCommand(faults));
      NothingReceived();
      NothingInFlash(writer.flash[..], start);
    }

    /** nrf_dfu_command_req: every operation on the init command. */
    method CommandReq(req: Request, faults: Faults)
      returns (code: ResCode, res: Option<Response>, ghost step: Option<Event>)
      requires Valid() && curObj.CommandObj?
      modifies this, initCommand
      ensures Valid() && curObj == old(curObj)
      ensures if Changes(req) then
                && step.Some? && Asks(CommandObj, req, faults, step.value)
                && (code, State()) == Respond(env, old(State()), step.value)
              else
                step.None? && State() == old(State()) && code == if req.UnknownReq? then OpCodeNotSupported else Success
      ensures res == Reported(env, CommandObj, req, State())
      ensures if step.Some? then Noted(old(State()), old(log), code, step.value, log) else log == old(log)
      ensures step.Some? ==> !step.value.ExecuteData? && !step.value.WriteData? && !step.value.CreateData?
    {
      hide Valid, AlignToPage, DfuProtocol.CommandCreate, DfuProtocol.CommandWrite, DfuProtocol.CommandExecute,
           Crc, Joined, Orderly;
      Separate();
      code, res, step := Success, None, None;
      match req
      case CreateReq(_, size) =>
        code := CommandCreate(size);
        step := Some(CreateCommand(size));
      case WriteReq(data) =>
        var report;
        code, report := CommandWrite(data);
        res, step := Some(report), Some(WriteCommand(data));
      case ExecuteReq =>
        code := CommandExecute(faults);
        step := Some(ExecuteCommand(faults));
      case UnknownReq =>
        code := OpCodeNotSupported;
      case _ =>
        var report := CommandStatus(req.SelectReq?);
        res := Some(report);
    }

    /** nrf_dfu_data_req: every operation on the firmware image. */
    method DataReq(req: Request, faults: Faults)
      returns (code: ResCode, res: Option<Response>, ghost step: Option<Event>)
      requires Valid() && curObj.DataObj? && (req.CreateReq? ==> req.size < U32)
      modifies this, initCommand, writer, writer.flash, writer.block
      ensures old(writer.trace) <= writer.trace
      ensures Valid() && curObj == old(curObj)
      ensures if Changes(req) then
                && step.Some? && Asks(DataObj, req, faults, step.value)
                && (code, State()) == Respond(env, old(State()), step.value)
              else
                step.None? && State() == old(State()) && code == if req.UnknownReq? then OpCodeNotSupported else Success
      ensures res == Reported(env, DataObj, req, State())
      ensures if step.Some? then Noted(old(State()), old(log), code, step.value, log) else log == old(log)
      ensures step.Some? && step.value.CreateData? && code in {Success, InvalidObject} ==>
                (step.value.erased <==> faults.erase && start + |log.Image()| + Span() <= writer.flash.Length)
      ensures step.Some? && step.value.WriteData? && old(log.synced) && code == Success ==>
                (step.value.failed <==>
                  StoreFails(old(bufPos), |old(log.received)|, |step.value.data|, old(progress).objectSize, faults))
      ensures step.Some? && step.value.ExecuteData? ==>
                && step.value.image == old(ImageAt(writer.flash[..], start, sizeReq))
                && (old(log.InStep()) && Accepts(env, old(State()), step.value.image, faults) ==>
                      Delivered(env, old(log), step.value.image, State(), writer.flash[..]))
      ensures UntouchedBelow(old(writer.flash[..]), writer.flash[..], old(start))
      ensures !old(validInit) ==> writer.flash[..] == old(writer.flash[..])
    {
      hide Valid, AlignToPage, DfuProtocol.DataCreate, DfuProtocol.DataWrite, DfuProtocol.DataExecute,
           Accepts, Delivered, Noted, Programmed, UntouchedBelow, StoreFails, ImageAt, Crc, Joined, Closed, Orderly,
           Rows, Pow2;
      Separate();
      UntouchedWhole(writer.flash[..], start);
      code, res, step := Success, None, None;
      match req
      case CreateReq(_, size) =>
        ghost var erased;
        code, erased := DataCreate(size, faults);
        step := Some(CreateData(size, erased));
      case WriteReq(data) =>
        var report;
        ghost var failed;
        code, report, failed := DataWrite(data, faults);
        res, step := Some(report), Some(WriteData(data, BUFFER_LENGTH, failed));
      case ExecuteReq =>
        ghost var cells := writer.flash[..];
        ghost var image := ImageAt(cells, start, sizeReq);
        code := DataExecute(faults);
        assert writer.flash[..] == cells;
        step := Some(ExecuteData(image, faults));
      case UnknownReq =>
        code := OpCodeNotSupported;
      case _ =>
        var report := DataStatus(req.SelectReq?);
        res := Some(report);
    }

    /** nrf_dfu_req_handler_on_req: create and select requests choose the object type, and the
        request goes to its handler. Whatever is asked, in whatever order, either nothing changes or
        the update makes the step of the protocol that was asked for; what the flash and the faults
        make of the step is determined. */
    method OnReq(req: Request, faults: Faults)
      returns (code: ResCode, res: Option<Response>, ghost step: Option<Event>)
      requires Valid() && (req.CreateReq? ==> req.size < U32)
      modifies this, initCommand, writer, writer.flash, writer.block
      ensures old(writer.trace) <= writer.trace
      ensures Valid()
      ensures Unsupported(req) ==> code == UnsupportedType && res == None && step == None && curObj == old(curObj)
      ensures !Unsupported(req) ==>
                && curObj == (if req.CreateReq? || req.SelectReq? then req.obj else old(curObj))
                && res == Reported(env, curObj, req, State())
                && (step.Some? <==> Changes(req))
      ensures if step.Some? then
                && Asks(curObj, req, faults, step.value)
                && (code, State()) == Respond(env, old(State()), step.value)
                && Noted(old(State()), old(log), code, step.value, log)
              else
                State() == old(State()) && log == old(log)
      ensures step.Some? && step.value.CreateData? && code in {Success, InvalidObject} ==>
                (step.value.erased <==> faults.erase && start + |log.Image()| + Span() <= writer.flash.Length)
      ensures step.Some? && step.value.WriteData? && old(log.synced) && code == Success ==>
                (step.value.failed <==>
                  StoreFails(old(bufPos), |old(log.received)|, |step.value.data|, old(progress).objectSize, faults))
      ensures step.Some? && step.value.ExecuteData? ==>
                && step.value.image == old(ImageAt(writer.flash[..], start, sizeReq))
                && (old(log.InStep()) && Accepts(env, old(State()), step.value.image, faults) ==>
                      Delivered(env, old(log), step.value.image, State(), writer.flash[..]))
      ensures UntouchedBelow(old(writer.flash[..]), writer.flash[..], old(start))
      ensures !old(validInit) ==> writer.flash[..] == old(writer.flash[..])
      ensures old(settings.bankCurrent == 1 && settings.bank0.code.ValidApp? &&
                  env.appStart + AlignToPage(env, settings.bank0.size) < U32) ==>
                forall i :: env.appStart <= i < env.appStart + old(settings.bank0.size) && i < writer.flash.Length ==>
                  writer.flash[i] == old(writer.flash[i])
    {
      hide Respond, Orderly, Counts, Tracks, InFlash, AlignToPage, Joined, Replay, Rows, AllFit, Asks, StoresInOrder,
           Noted, Accepts, Delivered, StoreFails, ImageAt, Reported;
      if req.CreateReq? || req.SelectReq? {
        if req.obj.OtherObj? {
          return UnsupportedType, None, None;
        }
        ghost var s, view, cells := State(), writer.View(), writer.flash[..];
        curObj := req.obj;
        assert State() == s && writer.Valid() && writer.View() == view && writer.flash[..] == cells;
      }
      if curObj.CommandObj? {
        ghost var cells := writer.flash[..];
        code, res, step := CommandReq(req, faults);
        assert writer.flash[..] == cells;
      } else {
        code, res, step := DataReq(req, faults);
      }
    }
  }

  /** The stream invariant, which every request keeps while an object is open and none of its flash
      operations has failed: the counters agree, the flash followed by the current buffer holds what
      was received of the object, and at the object's end nothing is left in the buffer. */
  lemma StreamInvariant(h: Handler)
    requires h.Valid() && h.log.synced
    ensures var p, base := h.progress, h.start + h.progress.imageOffsetLast;
            && h.writeOffset + h.bufPos == p.imageOffset && h.bufPos < BUFFER_LENGTH
            && p.imageOffsetLast <= h.writeOffset <= p.imageOffset <= p.imageOffsetLast + p.objectSize <= h.sizeReq
            && h.start + h.writeOffset <= h.writer.flash.Length
            && h.writer.flash[base..h.start + h.writeOffset] + h.writer.View().bufs[h.writer.current][..h.bufPos]
               == h.log.received
            && p.imageCrc == Crc(h.log.Image() + h.log.received)
            && (p.imageOffset == p.imageOffsetLast + p.objectSize ==> h.bufPos == 0)
  {
    hide InFlash, Replay, AllFit, Rows, Joined, AlignToPage, StoresInOrder, Crc;
    OrderlySizes(h.env, h.State());
    AlignUp(h.env, h.progress.objectSize);
  }

  /** What the handler did to buffers and flash leaves the same flash when erases and stores complete
      later, in their order, as long as each store completes before the fourth swap after it. */
  lemma LateCompletionIsTheSame(h: Handler, s: Async, events: seq<FlashEvent>)
    requires h.Valid() && Kept(s) && PossibleRun(s, events)
    requires Settled(s) == h.writer.origin && Ops(events) == h.writer.trace
    ensures Settled(FlashTrace.Run(s, events)).flash == h.writer.flash[..]
    ensures FlashTrace.Run(s, events).jobs == [] ==> FlashTrace.Run(s, events).flash == h.writer.flash[..]
  {
    hide Tracks, InFlash, Counts, Joined, AlignToPage, StoresInOrder, Kept, PossibleRun, Settled, FlashTrace.Run, Rows;
    AsyncRefinesSync(s, events);
  }

  /** Right after an object was opened, all its pages are erased; if it is the first one, and as long
      as the image in the current bank, nothing of that image is left. */
  lemma OpenedPagesAreErased(h: Handler, n: nat)
    requires h.Valid() && h.log.synced && h.log.received == [] && n <= h.Span()
    ensures var base := h.start + |h.log.Image()|;
            base + n <= h.writer.flash.Length && forall i :: base <= i < base + n ==> h.writer.flash[i] == ERASED
  {
    hide InFlash, Replay, AllFit, Rows, Joined, AlignToPage, StoresInOrder, Counts;
    var m, last := h.writer.View(), |h.log.Image()|;
    StillErased(m, h.start, last, h.writeOffset, h.bufPos, h.log.received, h.Span());
    NothingWritten(m, h.start, last, h.writeOffset, h.bufPos, h.Span());
    assert m.flash == h.writer.flash[..];
  }

  lemma NothingWritten(m: Mem, start: nat, last: nat, writeOffset: nat, pos: nat, span: nat)
    requires Tracks(m, start, last, writeOffset, pos, [], span)
    ensures writeOffset == last
  {
  }

  /** Flash discipline: while an object is open and none of its flash operations has failed, every
      store since the erase of its pages has fallen inside these pages and behind the stores before
      it. The object starts at a page boundary. */
  lemma FlashDiscipline(h: Handler)
    requires h.Valid() && h.log.synced
    ensures var base, to := h.start + |h.log.Image()|, h.start + h.writeOffset;
            && |h.log.Image()| % h.env.pageSize == 0
            && base <= to <= base + h.Span()
            && exists k: nat :: EachCellOnce(h.writer.trace, k, base, h.Span(), to)
  {
    hide InFlash, Counts, Replay, AllFit, Rows, Joined, AlignToPage, StoresInOrder;
    var base, to := h.start + |h.log.Image()|, h.start + h.writeOffset;
    StillErased(h.writer.View(), h.start, |h.log.Image()|, h.writeOffset, h.bufPos, h.log.received, h.Span());
    NoCellTwice(h.writer.trace, base, h.Span(), to);
    var k :| EachCellOnce(h.writer.trace, k, base, h.Span(), to);
    assert EachCellOnce(h.writer.trace, k, h.start + |h.log.Image()|, h.Span(), h.start + h.writeOffset);
  }

  lemma NothingInFlash(flash: seq<byte>, start: nat)
    ensures InFlash(flash, start, [])
  {
  }

  lemma FindCacheFails(env: Env, s: Session, size: nat)
    requires env.pageSize > 0
    ensures !FindCache(env, s, size).0 ==> FindCache(env, s, size).1 == s
  {
  }

  lemma ClosedJoins(objects: seq<seq<byte>>, received: seq<byte>)
    ensures Joined(Closed(objects, received)) == Joined(objects) + received
  {
    if received == [] {
      assert Joined(objects) + [] == Joined(objects);
    } else {
      JoinedSnoc(objects, received);
    }
  }

  lemma CountExecute(p: Progress, command: seq<byte>, image: seq<byte>, received: seq<byte>)
    requires Counts(p, command, image, received)
    ensures Counts(p.(objectSize := 0, imageOffsetLast := p.imageOffset, imageCrcLast := p.imageCrc),
                   command, image + received, [])
    ensures p.imageOffsetLast == |image| && p.imageOffset == |image| + |received|
  {
    assert image + received + [] == image + received;
  }

  lemma CountCommand(p: Progress, command: seq<byte>, image: seq<byte>, received: seq<byte>, data: seq<byte>)
    requires Counts(p, command, image, received)
    ensures p.commandCrc == Crc(command) && p.imageOffsetLast == |image|
    ensures Continue(p.commandCrc, data) == Crc(command + data)
    ensures Counts(p.(commandOffset := p.commandOffset + |data|, commandCrc := Continue(p.commandCrc, data)),
                   command + data, image, received)
  {
    hide Crc, Continue;
    CrcContinues(command, data);
  }

  lemma EmptyBuffer(m: Mem, start: nat, last: nat, writeOffset: nat, got: seq<byte>, span: nat)
    requires Tracks(m, start, last, writeOffset, 0, got, span)
    ensures writeOffset == last + |got|
  {
  }

  lemma WholeImage(flash: seq<byte>, start: nat, image: seq<byte>)
    requires InFlash(flash, start, image)
    ensures ImageAt(flash, start, |image|) == image
    ensures image == [] || start + |image| <= |flash|
  {
  }

  lemma KnownType(env: Env, s: Session, image: seq<byte>, hashed: bool)
    ensures Verdict(env, s, image, hashed) == Success ==> !s.packet.init.fwType.UnknownType?
  {
  }

  lemma HashKeepsOrder(env: Env, s: Session, hash: seq<byte>)
    requires env.pageSize > 0 && Orderly(env, s)
    ensures Orderly(env, s.(fwHash := hash))
  {
  }

  lemma CountCreate(p: Progress, command: seq<byte>, image: seq<byte>, received: seq<byte>, size: nat)
    requires Counts(p, command, image, received)
    ensures Counts(Reverted(p).(objectSize := size), command, image, [])
    ensures p.imageOffsetLast == |image|
  {
    assert image + [] == image;
  }

  lemma OrderlySizes(env: Env, s: Session)
    requires Sensible(env) && Orderly(env, s)
    ensures |s.current| <= s.objectSize < 0x8000_0000 && |s.command| <= s.commandSize <= INIT_COMMAND_MAX_SIZE
    ensures s.valid ==> 0 < s.sizeReq <= env.region && |Joined(s.objects)| + s.objectSize <= s.sizeReq < 0x8000_0000
  {
  }

  lemma WriteKeepsOrder(env: Env, s: Session, data: seq<byte>, failed: bool)
    requires Sensible(env) && Orderly(env, s) && s.valid
    requires |data| <= BUFFER_LENGTH && |data| + |s.current| <= s.objectSize
    ensures Orderly(env, s.(current := if failed then [] else s.current + data))
  {
    hide Joined;
  }

  lemma AlignUp(env: Env, n: nat)
    requires env.pageSize > 0
    ensures n <= AlignToPage(env, n) < n + env.pageSize
  {
    QuotientBounds(n + env.pageSize - 1, env.pageSize);
  }

  lemma StillErased(m: Mem, start: nat, last: nat, writeOffset: nat, pos: nat, got: seq<byte>, span: nat)
    requires Tracks(m, start, last, writeOffset, pos, got, span)
    ensures start + last + span <= |m.flash| && last <= writeOffset <= last + span
    ensures forall i :: start + writeOffset <= i < start + last + span ==> m.flash[i] == ERASED
  {
  }

  lemma NothingReceived()
    ensures Joined([]) == [] && Crc([]) == 0 && Joined([]) + [] == []
  {
  }
}
