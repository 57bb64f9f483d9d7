/** What an honest peer gets from the firmware update of dfu_req_handling.c: every request answered
    with success, and in the end its image accepted, however it cuts the init command and the image
    into objects and writes. */
module DfuProgress {
  import opened Arithmetic
  import opened Cyclic
  import opened Crc32
  import opened DfuProtocol
  import FlashTrace

  /** The longest write. */
  const WRITE_MAX := 128

  // ----- runs and their answers -----

  ghost function Answers(env: Env, s: Session, events: seq<Event>): (codes: seq<ResCode>)
    requires env.pageSize > 0
    decreases |events|
  {
    if events == [] then []
    else [Respond(env, s, events[0]).0] + Answers(env, Respond(env, s, events[0]).1, events[1..])
  }

  /** Every request of a run is answered with success. */
  ghost predicate AllSucceed(env: Env, s: Session, events: seq<Event>)
    requires env.pageSize > 0
  {
    forall i :: 0 <= i < |Answers(env, s, events)| ==> Answers(env, s, events)[i] == Success
  }

  lemma {:induction false} RunThen(env: Env, s: Session, a: seq<Event>, b: seq<Event>)
    requires env.pageSize > 0
    ensures Run(env, s, a + b) == Run(env, Run(env, s, a), b)
    ensures Answers(env, s, a + b) == Answers(env, s, a) + Answers(env, Run(env, s, a), b)
    decreases |a|
  {
    hide Respond;
    if a == [] {
      assert a + b == b;
    } else {
      assert (a + b)[1..] == a[1..] + b;
      RunThen(env, Respond(env, s, a[0]).1, a[1..], b);
    }
  }

  lemma SucceedThen(env: Env, s: Session, a: seq<Event>, b: seq<Event>)
    requires env.pageSize > 0 && AllSucceed(env, s, a) && AllSucceed(env, Run(env, s, a), b)
    ensures AllSucceed(env, s, a + b) && Run(env, s, a + b) == Run(env, Run(env, s, a), b)
  {
    hide Answers, Run;
    RunThen(env, s, a, b);
  }

  lemma OneSucceeds(env: Env, s: Session, e: Event)
    requires env.pageSize > 0 && Respond(env, s, e).0 == Success
    ensures AllSucceed(env, s, [e]) && Run(env, s, [e]) == Respond(env, s, e).1
  {
    hide Respond;
    var r := Respond(env, s, e).1;
    assert [e][1..] == [];
    assert Run(env, r, []) == r && Answers(env, r, []) == [];
    assert Run(env, s, [e]) == Run(env, r, []) && Answers(env, s, [e]) == [Respond(env, s, e).0] + [];
  }

  lemma NoneSucceed(env: Env, s: Session)
    requires env.pageSize > 0
    ensures AllSucceed(env, s, []) && Run(env, s, []) == s
  {
  }

  lemma {:induction false} JoinedFront(parts: seq<seq<byte>>)
    requires parts != []
    ensures Joined(parts) == parts[0] + Joined(parts[1..])
  {
    var init := parts[..|parts| - 1];
    if init == [] {
      assert parts[1..] == [] && Joined([]) == [];
      assert parts[0] + [] == [] + parts[0];
    } else {
      JoinedFront(init);
      assert parts[1..][..|parts| - 2] == init[1..];
    }
  }

  // ----- what the peer sends -----

  predicate ShortPieces(pieces: seq<seq<byte>>) {
    forall i :: 0 <= i < |pieces| ==> 1 <= |pieces[i]| <= WRITE_MAX
  }

  function Writes(pieces: seq<seq<byte>>): (events: seq<Event>) {
    if pieces == [] then [] else [WriteData(pieces[0], FlashTrace.BUFFER_LENGTH, false)] + Writes(pieces[1..])
  }

  /** Creating, writing and executing one object. */
  function ObjectRequests(pieces: seq<seq<byte>>, image: seq<byte>): (events: seq<Event>) {
    [CreateData(|Joined(pieces)|, true)] + Writes(pieces) + [ExecuteData(image, NO_FAULTS)]
  }

  /** Sending objects, one after the other. */
  function Requests(plan: seq<seq<seq<byte>>>, image: seq<byte>): (events: seq<Event>) {
    if plan == [] then [] else ObjectRequests(plan[0], image) + Requests(plan[1..], image)
  }

  function Parts(plan: seq<seq<seq<byte>>>): (parts: seq<seq<byte>>)
    ensures |parts| == |plan|
  {
    if plan == [] then [] else [Joined(plan[0])] + Parts(plan[1..])
  }

  /** An object that can be sent: in short pieces, not empty and not too large. */
  predicate Sendable(env: Env, pieces: seq<seq<byte>>) {
    ShortPieces(pieces) && 0 < |Joined(pieces)| <= env.maxObject
  }

  /** Objects that can be sent, all of them multiples of the page size. */
  predicate WholePages(env: Env, plan: seq<seq<seq<byte>>>)
    requires env.pageSize > 0
  {
    forall i :: 0 <= i < |plan| ==> Sendable(env, plan[i]) && |Joined(plan[i])| % env.pageSize == 0
  }

  /** The current bank is known, and the init packet speaks of this image. */
  predicate Matches(env: Env, s: Session, image: seq<byte>) {
    var init := s.packet.init;
    && s.bankCurrent <= 1 && !init.fwType.UnknownType? && init.sha256 && env.hash(image) == init.hash
    && (init.fwType.SoftDevice? ==> env.imageMajor(image) == env.sdMajor)
  }

  // ----- one object -----

  lemma {:induction false} WritesSucceed(env: Env, s: Session, pieces: seq<seq<byte>>)
    requires env.pageSize > 0 && s.valid && ShortPieces(pieces)
    requires |s.current| + |Joined(pieces)| <= s.objectSize
    ensures AllSucceed(env, s, Writes(pieces))
    ensures Run(env, s, Writes(pieces)) == s.(current := s.current + Joined(pieces))
    decreases |pieces|
  {
    hide AllSucceed, Run;
    if pieces == [] {
      NoneSucceed(env, s);
      JoinedNone();
      assert s.current + [] == s.current;
    } else {
      JoinedFront(pieces);
      var e := WriteData(pieces[0], FlashTrace.BUFFER_LENGTH, false);
      var t := s.(current := s.current + pieces[0]);
      assert Respond(env, s, e) == (Success, t);
      hide Respond, Joined;
      OneSucceeds(env, s, e);
      WritesSucceed(env, t, pieces[1..]);
      SucceedThen(env, s, [e], Writes(pieces[1..]));
      assert s.current + pieces[0] + Joined(pieces[1..]) == s.current + (pieces[0] + Joined(pieces[1..]));
    }
  }

  /** The state once an object has been created. */
  function Opened(s: Session, size: nat): Session {
    s.(current := [], objectSize := size, bank0 := if s.bankCurrent == 0 then s.bank0.(code := Invalid) else s.bank0)
  }

  lemma CreateSucceeds(env: Env, s: Session, size: nat)
    requires Sensible(env) && Orderly(env, s) && s.valid && 0 < size <= env.maxObject
    requires |Joined(s.objects)| + size <= s.sizeReq
    requires size % env.pageSize == 0 || |Joined(s.objects)| + size == s.sizeReq
    ensures Respond(env, s, CreateData(size, true)) == (Success, Opened(s, size))
  {
    hide Joined;
    var last := |Joined(s.objects)|;
    assert (last + size) % U32 == last + size;
  }

  /** An object is created and written, whatever was open before; all but its execution. */
  lemma ObjectIsReceived(env: Env, s: Session, pieces: seq<seq<byte>>)
    requires Sensible(env) && Orderly(env, s) && s.valid && Sendable(env, pieces)
    requires |Joined(s.objects)| + |Joined(pieces)| <= s.sizeReq
    requires |Joined(pieces)| % env.pageSize == 0 || |Joined(s.objects)| + |Joined(pieces)| == s.sizeReq
    ensures var size := |Joined(pieces)|;
            var events := [CreateData(size, true)] + Writes(pieces);
            && AllSucceed(env, s, events)
            && Run(env, s, events) == Opened(s, size).(current := Joined(pieces))
  {
    var size := |Joined(pieces)|;
    CreateSucceeds(env, s, size);
    hide Respond, AllSucceed, Run, Joined, Orderly;
    OneSucceeds(env, s, CreateData(size, true));
    WritesSucceed(env, Opened(s, size), pieces);
    SucceedThen(env, s, [CreateData(size, true)], Writes(pieces));
    assert [] + Joined(pieces) == Joined(pieces);
  }

  /** An object before the last one. */
  lemma ObjectSucceeds(env: Env, s: Session, pieces: seq<seq<byte>>, image: seq<byte>)
    requires Sensible(env) && Orderly(env, s) && s.valid && Sendable(env, pieces)
    requires |Joined(s.objects)| + |Joined(pieces)| < s.sizeReq && |Joined(pieces)| % env.pageSize == 0
    ensures AllSucceed(env, s, ObjectRequests(pieces, image))
    ensures Run(env, s, ObjectRequests(pieces, image)) ==
            Opened(s, 0).(objects := s.objects + [Joined(pieces)])
  {
    ObjectIsReceived(env, s, pieces);
    hide AllSucceed, Run, Joined, Orderly;
    var bytes := Joined(pieces);
    var t := Opened(s, |bytes|).(current := bytes);
    JoinedSnoc(s.objects, bytes);
    assert Respond(env, t, ExecuteData(image, NO_FAULTS)) == (Success, Opened(s, 0).(objects := s.objects + [bytes]));
    hide Respond;
    OneSucceeds(env, t, ExecuteData(image, NO_FAULTS));
    SucceedThen(env, s, [CreateData(|bytes|, true)] + Writes(pieces), [ExecuteData(image, NO_FAULTS)]);
  }

  lemma MatchIsAccepted(env: Env, s: Session, image: seq<byte>)
    requires Matches(env, s, image)
    ensures Verdict(env, s, image, true) == Success
  {
  }

  /** Executing the last object accepts the image. */
  lemma LastIsAccepted(env: Env, s: Session, image: seq<byte>)
    requires s.objectSize == |s.current| > 0 && Joined(s.objects) + s.current == image && |image| == s.sizeReq
    requires Matches(env, s, image)
    ensures var (code, r) := DataExecute(env, s, image, NO_FAULTS);
            code == Success && Vouched(env, r, image)
  {
    JoinedSnoc(s.objects, s.current);
    MatchIsAccepted(env, s, image);
    AcceptanceVouches(env, s, image, NO_FAULTS);
    hide Joined, Crc, Vouched, Accepted, Rejected, Matches;
    var t := s.(objects := s.objects + [s.current], current := [], objectSize := 0);
    SameVerdict(env, s, t, image, NO_FAULTS);
    hide Verdict;
  }

  lemma LastObjectSucceeds(env: Env, s: Session, pieces: seq<seq<byte>>, image: seq<byte>)
    requires Sensible(env) && Orderly(env, s) && s.valid && Sendable(env, pieces)
    requires Joined(s.objects) + Joined(pieces) == image && |image| == s.sizeReq && Matches(env, s, image)
    ensures AllSucceed(env, s, ObjectRequests(pieces, image))
    ensures Vouched(env, Run(env, s, ObjectRequests(pieces, image)), image)
  {
    ObjectIsReceived(env, s, pieces);
    hide AllSucceed, Run, Joined, Orderly, Vouched;
    var bytes := Joined(pieces);
    var t := Opened(s, |bytes|).(current := bytes);
    LastIsAccepted(env, t, image);
    OneSucceeds(env, t, ExecuteData(image, NO_FAULTS));
    SucceedThen(env, s, [CreateData(|bytes|, true)] + Writes(pieces), [ExecuteData(image, NO_FAULTS)]);
  }

  // ----- the image -----

  /** From an init packet in force, every object sent before the last one is accepted; the executed
      objects are then those sent so far. */
  lemma {:induction false} ObjectsSucceed(env: Env, s: Session, plan: seq<seq<seq<byte>>>, image: seq<byte>)
    requires Sensible(env) && Orderly(env, s) && s.valid && WholePages(env, plan)
    requires |Joined(s.objects)| + |Joined(Parts(plan))| < s.sizeReq
    ensures AllSucceed(env, s, Requests(plan, image))
    ensures var r := Run(env, s, Requests(plan, image));
            && Orderly(env, r) && r.objects == s.objects + Parts(plan)
            && r.valid && r.sizeReq == s.sizeReq && r.packet == s.packet && r.bankCurrent == s.bankCurrent
    decreases |plan|
  {
    hide AllSucceed, Run, Joined, Respond, Orderly;
    if plan == [] {
      NoneSucceed(env, s);
      assert s.objects + [] == s.objects;
    } else {
      var bytes := Joined(plan[0]);
      var events := ObjectRequests(plan[0], image);
      JoinedFront(Parts(plan));
      assert Parts(plan)[1..] == Parts(plan[1..]);
      ObjectSucceeds(env, s, plan[0], image);
      RunKeepsOrder(env, s, events);
      var t := Run(env, s, events);
      JoinedSnoc(s.objects, bytes);
      ObjectsSucceed(env, t, plan[1..], image);
      SucceedThen(env, s, events, Requests(plan[1..], image));
      assert s.objects + [bytes] + Parts(plan[1..]) == s.objects + ([bytes] + Parts(plan[1..]));
    }
  }

  lemma {:induction false} RequestsThen(plan: seq<seq<seq<byte>>>, last: seq<seq<byte>>, image: seq<byte>)
    ensures Requests(plan + [last], image) == Requests(plan, image) + ObjectRequests(last, image)
    ensures Parts(plan + [last]) == Parts(plan) + [Joined(last)]
    decreases |plan|
  {
    hide ObjectRequests, Joined;
    if plan == [] {
      assert [] + [last] == [last] && [last][1..] == [];
      assert Requests([last], image) == ObjectRequests(last, image) + [];
      assert Parts([last]) == [Joined(last)] + [];
    } else {
      assert (plan + [last])[1..] == plan[1..] + [last];
      RequestsThen(plan[1..], last, image);
    }
  }

  /** From an init packet in force that speaks of an image, every request of an honest update is
      answered with success, and the image is then accepted: its bank is marked as the kind of image
      it is. The image may be cut into objects in any way the page size allows, the last object at
      any length, and every object into any writes of 1 to 128 bytes. */
  lemma HonestImageIsAccepted(env: Env, s: Session, plan: seq<seq<seq<byte>>>, last: seq<seq<byte>>, image: seq<byte>)
    requires Sensible(env) && Orderly(env, s) && s.valid && s.objects == []
    requires WholePages(env, plan) && Sendable(env, last)
    requires Joined(Parts(plan + [last])) == image && |image| == s.sizeReq && Matches(env, s, image)
    ensures AllSucceed(env, s, Requests(plan + [last], image))
    ensures Vouched(env, Run(env, s, Requests(plan + [last], image)), image)
  {
    hide AllSucceed, Run, Joined, Orderly, Vouched, Respond, ObjectRequests;
    RequestsThen(plan, last, image);
    JoinedSnoc(Parts(plan), Joined(last));
    JoinedNone();
    ObjectsSucceed(env, s, plan, image);
    var t := Run(env, s, Requests(plan, image));
    assert [] + Parts(plan) == Parts(plan);
    LastObjectSucceeds(env, t, last, image);
    SucceedThen(env, s, Requests(plan, image), ObjectRequests(last, image));
  }

  // ----- the init command -----

  function CommandWrites(pieces: seq<seq<byte>>): (events: seq<Event>) {
    if pieces == [] then [] else [WriteCommand(pieces[0])] + CommandWrites(pieces[1..])
  }

  function CommandRequests(pieces: seq<seq<byte>>): (events: seq<Event>) {
    [CreateCommand(|Joined(pieces)|)] + CommandWrites(pieces) + [ExecuteCommand(NO_FAULTS)]
  }

  lemma {:induction false} CommandWritesSucceed(env: Env, s: Session, pieces: seq<seq<byte>>)
    requires env.pageSize > 0 && |s.command| + |Joined(pieces)| <= s.commandSize
    ensures AllSucceed(env, s, CommandWrites(pieces))
    ensures Run(env, s, CommandWrites(pieces)) == s.(command := s.command + Joined(pieces))
    decreases |pieces|
  {
    hide AllSucceed, Run;
    if pieces == [] {
      NoneSucceed(env, s);
      JoinedNone();
      assert s.command + [] == s.command;
    } else {
      JoinedFront(pieces);
      var e := WriteCommand(pieces[0]);
      var t := s.(command := s.command + pieces[0]);
      assert Respond(env, s, e) == (Success, t);
      hide Respond, Joined;
      OneSucceeds(env, s, e);
      CommandWritesSucceed(env, t, pieces[1..]);
      SucceedThen(env, s, [e], CommandWrites(pieces[1..]));
      assert s.command + pieces[0] + Joined(pieces[1..]) == s.command + (pieces[0] + Joined(pieces[1..]));
    }
  }

  /** A release init packet for this device: of a known kind, for this hardware and SoftDevice, new
      enough, correctly signed, announcing a size that there is room for. */
  predicate Wanted(env: Env, appVersion: nat, blVersion: nat, p: Packet, size: nat) {
    var init := p.init;
    && !init.debug && init.hwVersion == Present(HW_VERSION) && env.sdFwid in init.sdReq
    && p.ecdsa && |p.signature| == SIGNATURE_LENGTH && p.initBytes != [] && env.verify(p.initBytes, p.signature)
    && 0 < size <= env.region
    && match init.fwType
       case Application =>
         init.fwVersion.Present? && init.fwVersion.value >= appVersion && init.appSize == Present(size)
       case SoftDevice => init.sdSize == Present(size)
       case Bootloader =>
         && init.fwVersion.Present? && init.fwVersion.value > blVersion
         && init.blSize == Present(size) && size <= env.blRoom
       case SoftDeviceBootloader =>
         && init.fwVersion.Present? && init.fwVersion.value > blVersion
         && init.sdSize.Present? && init.blSize.Present? && init.sdSize.value > 0 && 0 < init.blSize.value <= env.blRoom
         && (init.sdSize.value + init.blSize.value) % U32 == size
       case UnknownType => false
  }

  lemma WantedIsAccepted(env: Env, s: Session, size: nat)
    requires env.pageSize > 0 && Wanted(env, s.appVersion, s.blVersion, s.packet, size)
    ensures Prevalidate(env, s, true).0 == Success && Prevalidate(env, s, true).1.sizeReq == size
  {
    hide AlignToPage;
  }

  /** An init command whose packet is wanted is accepted from any state, in whatever pieces it comes,
      and puts the packet in force. */
  lemma HonestCommandIsAccepted(env: Env, s: Session, pieces: seq<seq<byte>>, size: nat)
    requires env.pageSize > 0 && 0 < |Joined(pieces)| <= INIT_COMMAND_MAX_SIZE
    requires var d := env.decode(Joined(pieces));
             d.ok && d.packet.signed && d.packet.hasInit && Wanted(env, s.appVersion, s.blVersion, d.packet, size)
    ensures AllSucceed(env, s, CommandRequests(pieces))
    ensures var r := Run(env, s, CommandRequests(pieces));
            && r.valid && r.packet == env.decode(Joined(pieces)).packet && r.sizeReq == size
            && r.objects == [] && r.bankCurrent <= 1
  {
    var command := Joined(pieces);
    var a := Cleared(s).(valid := false, commandSize := |command|);
    var b := a.(command := command);
    var c := b.(packet := env.decode(command).packet);
    var open, close := CreateCommand(|command|), ExecuteCommand(NO_FAULTS);
    assert Respond(env, s, open) == (Success, a);
    WantedIsAccepted(env, c, size);
    PrevalidateBounds(env, c, true);
    assert [] + command == command;
    hide Prevalidate, Wanted, AllSucceed, Run, Joined;
    var r := Prevalidate(env, c, true).1.(valid := true);
    assert Respond(env, b, close) == (Success, r);
    hide Respond;
    OneSucceeds(env, s, open);
    CommandWritesSucceed(env, a, pieces);
    SucceedThen(env, s, [open], CommandWrites(pieces));
    OneSucceeds(env, b, close);
    SucceedThen(env, s, [open] + CommandWrites(pieces), [close]);
  }

  /** A whole honest update, from any state that requests can lead to: the init command and then the
      image it speaks of. Every request is answered with success, and the image is accepted. */
  lemma HonestUpdateCompletes(env: Env, s: Session, pieces: seq<seq<byte>>,
                              plan: seq<seq<seq<byte>>>, last: seq<seq<byte>>, image: seq<byte>)
    requires Sensible(env) && Orderly(env, s) && 0 < |Joined(pieces)| <= INIT_COMMAND_MAX_SIZE
    requires WholePages(env, plan) && Sendable(env, last) && Joined(Parts(plan + [last])) == image
    requires var d := env.decode(Joined(pieces));
             && d.ok && d.packet.signed && d.packet.hasInit
             && Wanted(env, s.appVersion, s.blVersion, d.packet, |image|)
             && d.packet.init.sha256 && env.hash(image) == d.packet.init.hash
             && (d.packet.init.fwType.SoftDevice? ==> env.imageMajor(image) == env.sdMajor)
    ensures var events := CommandRequests(pieces) + Requests(plan + [last], image);
            AllSucceed(env, s, events) && Vouched(env, Run(env, s, events), image)
  {
    WantedIsKnown(env, s.appVersion, s.blVersion, env.decode(Joined(pieces)).packet, |image|);
    hide AllSucceed, Run, Joined, Orderly, Vouched, Wanted, Parts;
    HonestCommandIsAccepted(env, s, pieces, |image|);
    RunKeepsOrder(env, s, CommandRequests(pieces));
    var t := Run(env, s, CommandRequests(pieces));
    HonestImageIsAccepted(env, t, plan, last, image);
    SucceedThen(env, s, CommandRequests(pieces), Requests(plan + [last], image));
  }

  lemma WantedIsKnown(env: Env, appVersion: nat, blVersion: nat, p: Packet, size: nat)
    requires Wanted(env, appVersion, blVersion, p, size)
    ensures !p.init.fwType.UnknownType?
  {
  }
}
