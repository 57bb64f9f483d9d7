/** The firmware update protocol of dfu_req_handling.c, as the peer sees it: an init command is
    received and validated, then the image comes in objects, each created, written and executed,
    and a complete image is validated and its bank marked. Buffers, offsets and flash are not here.

    Signature, hash and protobuf decoding are functions of the environment. */
module DfuProtocol {
  import opened Arithmetic
  import opened Cyclic
  import opened Crc32

  const U32 := 0x1_0000_0000

  // ----- messages and settings -----

  datatype FwType = Application | SoftDevice | Bootloader | SoftDeviceBootloader | UnknownType
  datatype Field = Absent | Present(value: nat)

  /** dfu_init_command_t. */
  datatype Init = Init(fwVersion: Field, hwVersion: Field, sdReq: seq<nat>, fwType: FwType,
                       sdSize: Field, blSize: Field, appSize: Field, sha256: bool, hash: seq<byte>, debug: bool)

  /** dfu_packet_t, and where the callback found the bytes of the init command in it. */
  datatype Packet = Packet(signed: bool, hasInit: bool, init: Init, ecdsa: bool, signature: seq<byte>,
                           unsigned: bool, initBytes: seq<byte>)

  datatype Decoded = Decoded(ok: bool, packet: Packet)

  datatype BankCode = Invalid | ValidApp | ValidSd | ValidBl | ValidSdBl
  datatype Bank = Bank(size: nat, crc: word, code: BankCode)

  datatype Ext = InitCommandInvalid | HwVersionFailure | SdVersionFailure | FwVersionFailure |
    WrongSignatureType | WrongHashType | VerificationFailed | UnknownCommand

  /** nrf_dfu_res_code_t, with the extended error where there is one. */
  datatype ResCode = Success | OpCodeNotSupported | InvalidParameter | InsufficientResources | InvalidObject |
    UnsupportedType | OperationNotPermitted | OperationFailed | ExtError(ext: Ext)

  /** What the handler is built for and what it calls. */
  datatype Env = Env(pageSize: nat, maxObject: nat, appStart: nat, region: nat, blRoom: nat,
                     sdFwid: nat, sdMajor: nat, imageMajor: seq<byte> -> nat,
                     decode: seq<byte> -> Decoded, verify: (seq<byte>, seq<byte>) -> bool,
                     hash: seq<byte> -> seq<byte>)

  const INIT_COMMAND_MAX_SIZE := 256
  const HW_VERSION := 52
  const SIGNATURE_LENGTH := 64

  /** Which of the calls a request makes to flash and crypto succeed. */
  datatype Faults = Faults(erase: bool, store1: bool, store2: bool, settings1: bool, settings2: bool,
                           initHash: bool, imageHash: bool)

  /** The state of an update. `objects` are the executed objects since the last command create,
      `current` what has been received of the open one. */
  datatype Session = Session(
    valid: bool, sizeReq: nat, start: nat, packet: Packet, fwHash: seq<byte>,
    commandSize: nat, command: seq<byte>,
    objects: seq<seq<byte>>, current: seq<byte>, objectSize: nat,
    bankCurrent: nat, bank0: Bank, bank1: Bank, appVersion: nat, blVersion: nat, sdSize: nat)

  function Joined(objects: seq<seq<byte>>): (r: seq<byte>) {
    if objects == [] then [] else Joined(objects[..|objects| - 1]) + objects[|objects| - 1]
  }

  // ----- init packet -----

  predicate HasBootloader(t: FwType) { t.Bootloader? || t.SoftDeviceBootloader? }

  /** The checks of dfu_handle_prevalidate on the init packet and its signature, in their order. */
  function CheckInit(env: Env, appVersion: nat, blVersion: nat, p: Packet, hashed: bool): (code: ResCode) {
    var init := p.init;
    if p.initBytes == [] then ExtError(InitCommandInvalid)
    else if init.debug then OperationFailed
    else if init.hwVersion.Absent? then ExtError(InitCommandInvalid)
    else if init.hwVersion.value != HW_VERSION then ExtError(HwVersionFailure)
    else if env.sdFwid !in init.sdReq then ExtError(SdVersionFailure)
    else if init.fwType.UnknownType? then ExtError(InitCommandInvalid)
    else if !init.fwType.SoftDevice? && init.fwVersion.Absent? then ExtError(InitCommandInvalid)
    else if init.fwType.Application? && init.fwVersion.value < appVersion then ExtError(FwVersionFailure)
    else if HasBootloader(init.fwType) && init.fwVersion.value <= blVersion then ExtError(FwVersionFailure)
    else if !p.ecdsa then ExtError(WrongSignatureType)
    else if !hashed then OperationFailed
    else if |p.signature| != SIGNATURE_LENGTH then OperationFailed
    else if !env.verify(p.initBytes, p.signature) then InvalidObject
    else Success
  }

  /** The size of the image an init packet announces, and whether it is acceptable. */
  function AnnouncedSize(env: Env, init: Init): (r: (ResCode, nat)) {
    match init.fwType
    case Application =>
      if init.appSize.Absent? then (ExtError(InitCommandInvalid), 0) else (Success, init.appSize.value)
    case SoftDevice =>
      if init.sdSize.Absent? then (ExtError(InitCommandInvalid), 0) else (Success, init.sdSize.value)
    case Bootloader =>
      if init.blSize.Absent? then (ExtError(InitCommandInvalid), 0)
      else if init.blSize.value > env.blRoom then (InsufficientResources, init.blSize.value)
      else (Success, init.blSize.value)
    case SoftDeviceBootloader =>
      if init.blSize.Absent? || init.sdSize.Absent? then (ExtError(InitCommandInvalid), 0)
      else
        var sum := (init.sdSize.value + init.blSize.value) % U32;
        if init.sdSize.value == 0 || init.blSize.value == 0 then (InvalidParameter, sum)
        else if init.blSize.value > env.blRoom then (InsufficientResources, sum)
        else (Success, sum)
    case UnknownType => (ExtError(InitCommandInvalid), 0)
  }

  function AlignToPage(env: Env, n: nat): (r: nat)
    requires env.pageSize > 0
  {
    (n + env.pageSize - 1) / env.pageSize * env.pageSize
  }

  /** nrf_dfu_find_cache: bank 1 behind a valid application if there is room, else bank 0. */
  function FindCache(env: Env, s: Session, size: nat): (r: (bool, Session))
    requires env.pageSize > 0
  {
    var reserved := Bank(size, 0, Invalid);
    if env.region < size then (false, s)
    else if s.bank0.code.ValidApp? && size <= (env.region - AlignToPage(env, s.bank0.size)) % U32 then
      (true, s.(bankCurrent := 1, bank1 := reserved,
              start := (env.appStart + AlignToPage(env, s.bank0.size)) % U32))
    else
      (true, s.(bankCurrent := 0, bank0 := reserved, start := env.appStart))
  }

  /** dfu_handle_prevalidate. */
  function Prevalidate(env: Env, s: Session, hashed: bool): (r: (ResCode, Session))
    requires env.pageSize > 0
  {
    var check := CheckInit(env, s.appVersion, s.blVersion, s.packet, hashed);
    if check != Success then (check, s)
    else
      var (code, size) := AnnouncedSize(env, s.packet.init);
      var t := s.(sizeReq := size);
      if code != Success then (code, t)
      else
        var u := t.(fwHash := s.packet.init.hash);
        if size == 0 then (InvalidParameter, u)
        else
          var (found, v) := FindCache(env, u, size);
          if found then (Success, v) else (InsufficientResources, u)
  }

  // ----- command requests -----

  function Cleared(s: Session): Session {
    s.(commandSize := 0, command := [], objects := [], current := [], objectSize := 0)
  }

  function CommandCreate(s: Session, size: nat): (r: (ResCode, Session)) {
    if size == 0 then (InvalidParameter, s)
    else if size > INIT_COMMAND_MAX_SIZE then (InsufficientResources, s)
    else (Success, Cleared(s).(valid := false, commandSize := size))
  }

  function CommandWrite(s: Session, data: seq<byte>): (r: (ResCode, Session)) {
    if |data| + |s.command| > s.commandSize then (InvalidParameter, s)
    else (Success, s.(command := s.command + data))
  }

  function CommandExecute(env: Env, s: Session, faults: Faults): (r: (ResCode, Session))
    requires env.pageSize > 0
  {
    if |s.command| != s.commandSize then (OperationNotPermitted, s)
    else if s.valid then (Success, s)
    else
      var d := env.decode(s.command);
      var t := s.(packet := d.packet);
      if !d.ok then (InvalidObject, t)
      else if d.packet.signed then
        if !d.packet.hasInit then (InvalidObject, t)
        else
          var (code, u) := Prevalidate(env, t, faults.initHash);
          if code != Success then (code, u)
          else if !faults.settings1 then (OperationFailed, u)
          else (Success, u.(valid := true))
      else if d.packet.unsigned then (ExtError(UnknownCommand), t)
      else (InvalidObject, t)
  }

  // ----- data requests -----

  function DataCreate(env: Env, s: Session, size: nat, erased: bool): (r: (ResCode, Session))
    requires env.pageSize > 0
  {
    var last := |Joined(s.objects)|;
    if size == 0 then (InvalidParameter, s)
    else if size % env.pageSize != 0 && (last + size) % U32 != s.sizeReq then (InvalidParameter, s)
    else if size > env.maxObject then (InsufficientResources, s)
    else if !s.valid then (OperationNotPermitted, s)
    else if (last + size) % U32 > s.sizeReq then (OperationNotPermitted, s)
    else
      var bank0 := if s.bankCurrent == 0 then s.bank0.(code := Invalid) else s.bank0;
      (if erased then Success else InvalidObject, s.(current := [], objectSize := size, bank0 := bank0))
  }

  /** A write whose store fails loses the open object, and says so by the offset it reports. */
  function DataWrite(s: Session, data: seq<byte>, limit: nat, failed: bool): (r: (ResCode, Session)) {
    if !s.valid then (OperationNotPermitted, s)
    else if |data| > limit then (InsufficientResources, s)
    else if |data| + |s.current| > s.objectSize then (InvalidParameter, s)
    else (Success, s.(current := if failed then [] else s.current + data))
  }

  /** What nrf_dfu_postvalidate finds about the bytes `image` in the flash. */
  function Verdict(env: Env, s: Session, image: seq<byte>, hashed: bool): (code: ResCode) {
    var init := s.packet.init;
    var found := if hashed then env.hash(image) else s.fwHash;
    if init.fwType.SoftDevice? && env.imageMajor(image) != env.sdMajor then InvalidObject
    else if init.fwType.UnknownType? then OperationFailed
    else if !init.sha256 then ExtError(WrongHashType)
    else if found != init.hash then ExtError(VerificationFailed)
    else if !hashed then OperationFailed
    else Success
  }

  function MarkedBank(s: Session, crc: word): Bank {
    Bank(s.sizeReq, crc,
         match s.packet.init.fwType
         case Application => ValidApp
         case SoftDevice => ValidSd
         case Bootloader => ValidBl
         case _ => ValidSdBl)
  }

  function Value(f: Field): nat { if f.Present? then f.value else 0 }

  /** The settings after a successful verdict. */
  function Accepted(env: Env, s: Session, image: seq<byte>, crc: word): (r: Session)
    requires s.bankCurrent <= 1
  {
    var init := s.packet.init;
    var t := if s.bankCurrent == 0 then s.(bank0 := MarkedBank(s, crc)) else s.(bank1 := MarkedBank(s, crc));
    var t := if s.bankCurrent == 1 && (init.fwType.Application? ||
                (init.fwType.SoftDeviceBootloader? && env.imageMajor(image) != env.sdMajor))
             then t.(bank0 := t.bank0.(code := Invalid)) else t;
    var t := if init.fwType.SoftDevice? || init.fwType.SoftDeviceBootloader? then t.(sdSize := Value(init.sdSize))
             else t;
    if init.fwType.Application? then t.(appVersion := Value(init.fwVersion))
    else if HasBootloader(init.fwType) then t.(blVersion := Value(init.fwVersion))
    else t
  }

  /** The settings after any other verdict. */
  function Rejected(env: Env, s: Session, image: seq<byte>): (r: Session)
    requires s.bankCurrent <= 1
  {
    var t := if s.bankCurrent == 1 && s.packet.init.fwType.SoftDeviceBootloader? && env.imageMajor(image) != env.sdMajor
             then s.(bank0 := s.bank0.(code := Invalid)) else s;
    if s.bankCurrent == 0 then t.(bank0 := Bank(0, 0, Invalid)) else t.(bank1 := Bank(0, 0, Invalid))
  }

  function Postvalidate(env: Env, s: Session, image: seq<byte>, crc: word, faults: Faults): (r: (ResCode, Session)) {
    var hash := if s.packet.init.sha256 && faults.imageHash then env.hash(image) else s.fwHash;
    var h := s.(fwHash := hash);
    if s.bankCurrent > 1 then (OperationFailed, h)
    else
      var code := Verdict(env, s, image, faults.imageHash);
      var t := if code == Success then Accepted(env, h, image, crc) else Rejected(env, h, image);
      (if faults.settings2 then code else OperationFailed, Cleared(t))
  }

  /** The executed objects with the open one, if it holds anything. */
  function Closed(objects: seq<seq<byte>>, last: seq<byte>): (r: seq<seq<byte>>) {
    if last == [] then objects else objects + [last]
  }

  /** `image` is what the flash holds at the start of the firmware. */
  function DataExecute(env: Env, s: Session, image: seq<byte>, faults: Faults): (r: (ResCode, Session)) {
    if s.objectSize != |s.current| then (OperationNotPermitted, s)
    else
      var t := s.(objects := Closed(s.objects, s.current), current := [], objectSize := 0);
      if !faults.settings1 then (OperationFailed, t)
      else if |Joined(t.objects)| == s.sizeReq then Postvalidate(env, t, image, Crc(Joined(t.objects)), faults)
      else (Success, t)
  }

  // ----- runs of the protocol -----

  /** A request, with what flash and crypto make of it. Select and CRC requests change nothing. */
  datatype Event =
    | CreateCommand(size: nat)
    | WriteCommand(data: seq<byte>)
    | ExecuteCommand(faults: Faults)
    | CreateData(size: nat, erased: bool)
    | WriteData(data: seq<byte>, limit: nat, failed: bool)
    | ExecuteData(image: seq<byte>, faults: Faults)

  function Respond(env: Env, s: Session, e: Event): (r: (ResCode, Session))
    requires env.pageSize > 0
  {
    match e
    case CreateCommand(size) => CommandCreate(s, size)
    case WriteCommand(data) => CommandWrite(s, data)
    case ExecuteCommand(faults) => CommandExecute(env, s, faults)
    case CreateData(size, erased) => DataCreate(env, s, size, erased)
    case WriteData(data, limit, failed) => DataWrite(s, data, limit, failed)
    case ExecuteData(image, faults) => DataExecute(env, s, image, faults)
  }

  predicate Sensible(env: Env) {
    env.pageSize > 0 && env.region < 0x8000_0000 && env.maxObject < 0x8000_0000
  }

  /** What every request keeps, in every state of an update. */
  ghost predicate Orderly(env: Env, s: Session)
    requires env.pageSize > 0
  {
    var done := |Joined(s.objects)|;
    && |s.command| <= s.commandSize <= INIT_COMMAND_MAX_SIZE
    && |s.current| <= s.objectSize <= env.maxObject
    && (!s.valid ==> s.objects == [] && s.objectSize == 0)
    && (s.valid ==> 0 < s.sizeReq <= env.region && done + s.objectSize <= s.sizeReq)
    && (done % env.pageSize == 0 || done == s.sizeReq)
    && (s.objectSize % env.pageSize == 0 || done + s.objectSize == s.sizeReq)
  }

  lemma PrevalidateBounds(env: Env, s: Session, hashed: bool)
    requires env.pageSize > 0
    ensures var (code, r) := Prevalidate(env, s, hashed);
            && r == s.(sizeReq := r.sizeReq, start := r.start, fwHash := r.fwHash,
                       bankCurrent := r.bankCurrent, bank0 := r.bank0, bank1 := r.bank1)
            && (code == Success ==> 0 < r.sizeReq <= env.region && r.bankCurrent <= 1)
            && (r.bank0 != s.bank0 ==> r.bank0.code == Invalid) && (r.bank1 != s.bank1 ==> r.bank1.code == Invalid)
            && (code == Success ==> CheckInit(env, s.appVersion, s.blVersion, s.packet, hashed) == Success)
  {
  }

  lemma PostvalidateKeeps(env: Env, s: Session, image: seq<byte>, crc: word, faults: Faults)
    ensures var r := Postvalidate(env, s, image, crc, faults).1;
            && r.valid == s.valid && r.sizeReq == s.sizeReq && r.packet == s.packet && r.start == s.start
            && (r == s.(fwHash := r.fwHash) || r == Cleared(r))
  {
    hide Accepted, Rejected, Verdict;
    if s.bankCurrent <= 1 {
      var h := s.(fwHash := if s.packet.init.sha256 && faults.imageHash then env.hash(image) else s.fwHash);
      AcceptedShape(env, h, image, crc);
      RejectedShape(env, h, image);
    }
  }

  lemma JoinedSnoc(objects: seq<seq<byte>>, last: seq<byte>)
    ensures Joined(objects + [last]) == Joined(objects) + last
  {
    assert (objects + [last])[..|objects|] == objects;
  }

  lemma SumOfMultiples(a: nat, b: nat, p: nat)
    requires p > 0 && a % p == 0 && b % p == 0
    ensures (a + b) % p == 0
  {
    assert a == a / p * p && b == b / p * p;
    assert a + b == (a / p + b / p) * p;
    Remainder(a + b, a / p + b / p, 0, p);
  }

  lemma EventKeepsOrder(env: Env, s: Session, e: Event)
    requires Sensible(env) && Orderly(env, s)
    ensures Orderly(env, Respond(env, s, e).1)
  {
    hide Prevalidate, Postvalidate, Joined;
    assert Joined([]) == [] by { JoinedNone(); }
    match e {
      case CreateCommand(_) =>
      case WriteCommand(_) =>
      case ExecuteCommand(faults) =>
        PrevalidateBounds(env, s.(packet := env.decode(s.command).packet), faults.initHash);
      case CreateData(size, _) =>
      case WriteData(_, _, _) =>
      case ExecuteData(image, faults) =>
        if s.objectSize == |s.current| {
          ExecuteKeepsOrder(env, s, image, faults);
        }
    }
  }

  lemma JoinedNone()
    ensures Joined([]) == []
  {
  }

  lemma ExecuteKeepsOrder(env: Env, s: Session, image: seq<byte>, faults: Faults)
    requires Sensible(env) && Orderly(env, s) && s.objectSize == |s.current|
    ensures Orderly(env, DataExecute(env, s, image, faults).1)
  {
    hide Postvalidate, Joined;
    var t := s.(objects := Closed(s.objects, s.current), current := [], objectSize := 0);
    JoinedSnoc(s.objects, s.current);
    JoinedNone();
    if |Joined(s.objects)| % env.pageSize == 0 && s.objectSize % env.pageSize == 0 {
      SumOfMultiples(|Joined(s.objects)|, s.objectSize, env.pageSize);
    }
    assert Orderly(env, t);
    PostvalidateKeeps(env, t, image, Crc(Joined(t.objects)), faults);
  }

  /** Every data create that goes as far as the erase starts at a multiple of the page size. */
  lemma CreateStartsPage(env: Env, s: Session, size: nat, erased: bool)
    requires Sensible(env) && Orderly(env, s)
    requires DataCreate(env, s, size, erased).0 in {Success, InvalidObject}
    ensures |Joined(s.objects)| % env.pageSize == 0
    ensures |Joined(s.objects)| + size <= s.sizeReq <= env.region
  {
    hide Joined;
    var last := |Joined(s.objects)|;
    assert last + size < U32 && (last + size) % U32 == last + size;
  }

  // ----- acceptance -----

  /** When an init packet is accepted, for every packet: it is a release build for this hardware
      and SoftDevice, newer than what it replaces, correctly signed, and announces an image that
      there is room for. */
  lemma PrevalidateAccepts(env: Env, s: Session, hashed: bool)
    requires env.pageSize > 0
    ensures var init, p := s.packet.init, s.packet;
            var size := AnnouncedSize(env, init);
            Prevalidate(env, s, hashed).0 == Success <==>
              && !init.debug && init.hwVersion == Present(HW_VERSION) && env.sdFwid in init.sdReq
              && (init.fwType.Application? ==> init.fwVersion.Present? && init.fwVersion.value >= s.appVersion)
              && (HasBootloader(init.fwType) ==> init.fwVersion.Present? && init.fwVersion.value > s.blVersion)
              && hashed && p.ecdsa && |p.signature| == SIGNATURE_LENGTH
              && p.initBytes != [] && env.verify(p.initBytes, p.signature)
              && size.0 == Success && 0 < size.1 <= env.region
    ensures Prevalidate(env, s, hashed).0 == Success ==>
              Prevalidate(env, s, hashed).1.sizeReq == AnnouncedSize(env, s.packet.init).1
  {
  }

  /** Which mark belongs to which kind of image. */
  predicate MarkedAs(code: BankCode, t: FwType) {
    && (code == ValidApp <==> t.Application?) && (code == ValidSd <==> t.SoftDevice?)
    && (code == ValidBl <==> t.Bootloader?) && (code == ValidSdBl <==> t.SoftDeviceBootloader?)
  }

  /** When a complete image is accepted, and what its bank then says. */
  lemma PostvalidateAccepts(env: Env, s: Session, image: seq<byte>, crc: word, faults: Faults)
    requires s.bankCurrent <= 1
    ensures var (code, r) := Postvalidate(env, s, image, crc, faults);
            var bank := if s.bankCurrent == 0 then r.bank0 else r.bank1;
            var init := s.packet.init;
            && (bank.code != Invalid <==>
                  && init.sha256 && faults.imageHash && env.hash(image) == init.hash
                  && !init.fwType.UnknownType?
                  && (init.fwType.SoftDevice? ==> env.imageMajor(image) == env.sdMajor))
            && (bank.code != Invalid ==> MarkedAs(bank.code, init.fwType) && bank.size == s.sizeReq && bank.crc == crc)
            && (code == Success <==> bank.code != Invalid && faults.settings2)
            && r == Cleared(r)
  {
  }

  /** Whether a data execute completes the image and accepts it. */
  ghost predicate Accepts(env: Env, s: Session, image: seq<byte>, faults: Faults) {
    && s.objectSize == |s.current| && faults.settings1 && s.bankCurrent <= 1
    && |Joined(Closed(s.objects, s.current))| == s.sizeReq
    && Verdict(env, s, image, faults.imageHash) == Success
  }

  /** The current bank is marked valid for the kind of this image, which the init packet's hash
      vouches for. */
  ghost predicate Vouched(env: Env, s: Session, image: seq<byte>) {
    var bank := if s.bankCurrent == 0 then s.bank0 else s.bank1;
    && bank.code != Invalid && MarkedAs(bank.code, s.packet.init.fwType)
    && bank.size == |image| && bank.crc == Crc(image)
    && env.hash(image) == s.packet.init.hash
  }

  /** An accepted image is vouched for, if it is what the executed objects make up. */
  lemma AcceptanceVouches(env: Env, s: Session, image: seq<byte>, faults: Faults)
    requires Accepts(env, s, image, faults) && image == Joined(Closed(s.objects, s.current))
    ensures Vouched(env, DataExecute(env, s, image, faults).1, image)
  {
    hide Joined, Crc;
  }

  lemma KnownWhenAccepted(env: Env, s: Session, image: seq<byte>, hashed: bool)
    ensures Verdict(env, s, image, hashed) == Success ==> !s.packet.init.fwType.UnknownType?
  {
  }

  /** What acceptance does to the banks: each kind of image gets its own mark; the other bank stays,
      but the old application in bank 0 is given up for a new one in bank 1, or for a SoftDevice of
      another major version. */
  lemma AcceptedMarks(env: Env, s: Session, image: seq<byte>, crc: word)
    requires s.bankCurrent <= 1 && !s.packet.init.fwType.UnknownType?
    ensures var r, t := Accepted(env, s, image, crc), s.packet.init.fwType;
            var bank := if s.bankCurrent == 0 then r.bank0 else r.bank1;
            && MarkedAs(bank.code, t) && bank.size == s.sizeReq && bank.crc == crc
            && (s.bankCurrent == 0 ==> r.bank1 == s.bank1)
            && (s.bankCurrent == 1 ==>
                  r.bank0 == if t.Application? || (t.SoftDeviceBootloader? && env.imageMajor(image) != env.sdMajor)
                             then s.bank0.(code := Invalid) else s.bank0)
            && r.sdSize == (if t.SoftDevice? || t.SoftDeviceBootloader? then Value(s.packet.init.sdSize) else s.sdSize)
  {
  }

  /** The same for every data execute that accepts. */
  lemma AcceptanceMarks(env: Env, s: Session, image: seq<byte>, faults: Faults)
    requires Accepts(env, s, image, faults)
    ensures var r, t := DataExecute(env, s, image, faults).1, s.packet.init.fwType;
            var bank := if s.bankCurrent == 0 then r.bank0 else r.bank1;
            && MarkedAs(bank.code, t)
            && bank.size == s.sizeReq && bank.crc == Crc(Joined(Closed(s.objects, s.current)))
            && (s.bankCurrent == 0 ==> r.bank1 == s.bank1)
            && (s.bankCurrent == 1 ==>
                  r.bank0 == if t.Application? || (t.SoftDeviceBootloader? && env.imageMajor(image) != env.sdMajor)
                             then s.bank0.(code := Invalid) else s.bank0)
            && r.sdSize == (if t.SoftDevice? || t.SoftDeviceBootloader? then Value(s.packet.init.sdSize) else s.sdSize)
  {
    hide Joined, Crc, Accepted, Rejected, MarkedAs;
    KnownWhenAccepted(env, s, image, faults.imageHash);
    var t := s.(objects := Closed(s.objects, s.current), current := [], objectSize := 0,
                fwHash := if s.packet.init.sha256 && faults.imageHash then env.hash(image) else s.fwHash);
    AcceptedMarks(env, t, image, Crc(Joined(t.objects)));
  }

  /** A complete image that is refused leaves the current bank empty, and versions and sizes alone. The
      old application in bank 0 stays, but for a SoftDevice of another major version. */
  lemma RefusalClears(env: Env, s: Session, image: seq<byte>, faults: Faults)
    requires s.objectSize == |s.current| && faults.settings1 && s.bankCurrent <= 1
    requires |Joined(Closed(s.objects, s.current))| == s.sizeReq && !Accepts(env, s, image, faults)
    ensures var (code, r) := DataExecute(env, s, image, faults);
            && code != Success
            && r.objects == [] && r.current == []
            && (s.bankCurrent == 0 ==> r.bank0 == Bank(0, 0, Invalid) && r.bank1 == s.bank1)
            && (s.bankCurrent == 1 ==>
                  && r.bank1 == Bank(0, 0, Invalid)
                  && r.bank0 == if s.packet.init.fwType.SoftDeviceBootloader? && env.imageMajor(image) != env.sdMajor
                                then s.bank0.(code := Invalid) else s.bank0)
            && r.appVersion == s.appVersion && r.blVersion == s.blVersion && r.sdSize == s.sdSize
  {
    hide Joined, Crc, Accepted;
  }

  /** When an init packet comes into force: when a command received in full holds a signed packet that
      is accepted, and the settings are written; and when it goes out of force: when a new command is
      created. */
  lemma WhenPacketInForce(env: Env, s: Session, e: Event)
    requires env.pageSize > 0
    ensures var r, d := Respond(env, s, e).1, env.decode(s.command);
            && (!s.valid && r.valid <==>
                  && e.ExecuteCommand? && !s.valid && |s.command| == s.commandSize
                  && d.ok && d.packet.signed && d.packet.hasInit && e.faults.settings1
                  && Prevalidate(env, s.(packet := d.packet), e.faults.initHash).0 == Success)
            && (!s.valid && r.valid ==> r.packet == d.packet)
            && (s.valid && !r.valid <==> s.valid && e.CreateCommand? && 0 < e.size <= INIT_COMMAND_MAX_SIZE)
            && (s.valid && r.valid ==> r.packet == s.packet && r.sizeReq == s.sizeReq && r.start == s.start)
  {
    hide Prevalidate, DataExecute, Joined;
    match e
    case ExecuteCommand(faults) =>
      PrevalidateBounds(env, s.(packet := env.decode(s.command).packet), faults.initHash);
    case ExecuteData(image, faults) => ExecuteKeepsOld(env, s, image, faults); ExecuteVersions(env, s, image, faults);
    case _ =>
  }

  // ----- where an image goes -----

  lemma PageMultiple(env: Env, n: nat)
    requires env.pageSize > 0
    ensures AlignToPage(env, n) % env.pageSize == 0 && n <= AlignToPage(env, n) < n + env.pageSize
    ensures env.region % env.pageSize == 0 && n <= env.region ==> AlignToPage(env, n) <= env.region
  {
    var p := env.pageSize;
    var q := (n + p - 1) / p;
    QuotientBounds(n + p - 1, p);
    Remainder(q * p, q, 0, p);
    if env.region % p == 0 && n <= env.region {
      NextMultiple(n, env.region, q, p);
    }
  }

  lemma NextMultiple(n: nat, m: nat, q: nat, p: nat)
    requires p > 0 && m % p == 0 && n <= m && q * p < n + p
    ensures q * p <= m
  {
    var r := m / p;
    assert m == r * p;
    if q > r {
      Mono(r, q, p);
    }
  }

  /** Where an accepted init packet sends its image: into the region, at a page boundary; behind a
      valid application in bank 0, which is then kept, exactly if there is room behind it. */
  lemma WhereItGoes(env: Env, s: Session, hashed: bool)
    requires env.pageSize > 0 && env.region % env.pageSize == 0 && env.appStart + env.region < U32
    requires s.bank0.code.ValidApp? ==> s.bank0.size <= env.region
    requires Prevalidate(env, s, hashed).0 == Success
    ensures var r := Prevalidate(env, s, hashed).1;
            && env.appStart <= r.start && r.start + r.sizeReq <= env.appStart + env.region
            && (r.start - env.appStart) % env.pageSize == 0
            && (r.bankCurrent == 0 ==>
                  && r.start == env.appStart
                  && r.bank0 == Bank(r.sizeReq, 0, Invalid) && r.bank1 == s.bank1)
            && (r.bankCurrent == 1 ==>
                  && r.bank0 == s.bank0 && s.bank0.code.ValidApp? && r.bank1 == Bank(r.sizeReq, 0, Invalid)
                  && env.appStart + r.bank0.size <= r.start < env.appStart + r.bank0.size + env.pageSize)
            && (r.bankCurrent == 1 <==>
                  s.bank0.code.ValidApp? && AlignToPage(env, s.bank0.size) + r.sizeReq <= env.region)
  {
    hide AlignToPage, CheckInit, AnnouncedSize;
    PageMultiple(env, s.bank0.size);
  }

  /** The sizes an init packet announces, by the kind of its image. */
  lemma WhatIsAnnounced(env: Env, s: Session, hashed: bool)
    requires env.pageSize > 0 && Prevalidate(env, s, hashed).0 == Success
    ensures var size, init := Prevalidate(env, s, hashed).1.sizeReq, s.packet.init;
            && (init.fwType.Application? ==> init.appSize == Present(size))
            && (init.fwType.SoftDevice? ==> init.sdSize == Present(size))
            && (init.fwType.Bootloader? ==> init.blSize == Present(size))
            && (init.fwType.SoftDeviceBootloader? ==>
                  init.sdSize.Present? && init.blSize.Present? && size == (init.sdSize.value + init.blSize.value) % U32)
            && (HasBootloader(init.fwType) ==> init.blSize.value <= env.blRoom)
  {
    hide CheckInit, AlignToPage;
  }

  /** While an image goes behind a valid application, it starts behind it; unless addresses wrap. */
  ghost predicate Placed(env: Env, s: Session)
    requires env.pageSize > 0
  {
    s.valid && s.bankCurrent == 1 && s.bank0.code.ValidApp? && env.appStart + AlignToPage(env, s.bank0.size) < U32 ==>
      env.appStart + s.bank0.size <= s.start
  }

  lemma PrevalidatePlaces(env: Env, s: Session, hashed: bool)
    requires env.pageSize > 0 && Prevalidate(env, s, hashed).0 == Success
    ensures Placed(env, Prevalidate(env, s, hashed).1.(valid := true))
  {
    hide AlignToPage, CheckInit, AnnouncedSize;
    PageMultiple(env, s.bank0.size);
  }

  lemma MarkKeepsPlace(env: Env, s: Session, image: seq<byte>, crc: word)
    requires env.pageSize > 0 && s.bankCurrent <= 1 && Placed(env, s)
    ensures Placed(env, Accepted(env, s, image, crc)) && Placed(env, Rejected(env, s, image))
  {
    hide AlignToPage, MarkedBank;
  }

  /** What data EXECUTE does to the old application in bank 0 while bank 1 is current: it keeps it, or
      takes its mark. */
  lemma ExecuteKeepsOld(env: Env, s: Session, image: seq<byte>, faults: Faults)
    ensures var r := DataExecute(env, s, image, faults).1;
            && r.valid == s.valid && r.start == s.start && r.sizeReq == s.sizeReq && r.bankCurrent == s.bankCurrent
            && (s.bankCurrent == 1 ==> r.bank0 == s.bank0 || r.bank0.code == Invalid)
  {
    hide Joined, Crc, Postvalidate;
    var t := s.(objects := Closed(s.objects, s.current), current := [], objectSize := 0);
    PostvalidateKeeps(env, t, image, Crc(Joined(t.objects)), faults);
    PostvalidateBanks(env, t, image, Crc(Joined(t.objects)), faults);
  }

  /** Every request keeps the image behind the application. */
  lemma EventKeepsPlace(env: Env, s: Session, e: Event)
    requires env.pageSize > 0 && Placed(env, s)
    ensures Placed(env, Respond(env, s, e).1)
  {
    hide Prevalidate, DataExecute, Joined, AlignToPage;
    match e
    case ExecuteCommand(faults) =>
      var t := s.(packet := env.decode(s.command).packet);
      PrevalidateBounds(env, t, faults.initHash);
      if !s.valid && Respond(env, s, e).1.valid {
        PrevalidatePlaces(env, t, faults.initHash);
      }
    case ExecuteData(image, faults) => ExecuteKeepsOld(env, s, image, faults);
    case _ =>
  }

  // ----- versions -----

  /** A valid init packet is not older than what it replaces. As long as it has not been used, a
      bootloader in it is newer. */
  ghost predicate Upgrades(s: Session, unused: bool) {
    var init := s.packet.init;
    s.valid ==>
      && (init.fwType.Application? ==> Value(init.fwVersion) >= s.appVersion)
      && (HasBootloader(init.fwType) ==> Value(init.fwVersion) >= s.blVersion)
      && (HasBootloader(init.fwType) && unused ==> Value(init.fwVersion) > s.blVersion)
  }

  /** Whether the init packet in force is unused after an event: it is when it has just been
      accepted, and until an image is accepted. */
  ghost predicate StillUnused(env: Env, s: Session, unused: bool, e: Event) {
    match e
    case ExecuteCommand(_) => unused || !s.valid
    case ExecuteData(image, faults) => unused && !Accepts(env, s, image, faults)
    case _ => unused
  }

  /** The guard of the one step that can decrease a version. Data EXECUTE does not look whether the
      init packet is valid; without one, an announced size of zero lets it validate an empty image
      against whatever packet was decoded last. */
  predicate Downgrades(env: Env, s: Session, e: Event) {
    && e.ExecuteData? && !s.valid && s.sizeReq == 0 && s.bankCurrent <= 1 && e.faults.settings1
    && Verdict(env, s, e.image, e.faults.imageHash) == Success
    && var init := s.packet.init;
       || (init.fwType.Application? && Value(init.fwVersion) < s.appVersion)
       || (HasBootloader(init.fwType) && Value(init.fwVersion) < s.blVersion)
  }

  /** What acceptance stores, and that nothing else changes a version. */
  lemma PostvalidateVersions(env: Env, s: Session, image: seq<byte>, crc: word, faults: Faults)
    ensures var r, init := Postvalidate(env, s, image, crc, faults).1, s.packet.init;
            var accepted := s.bankCurrent <= 1 && Verdict(env, s, image, faults.imageHash) == Success;
            && r.appVersion == (if accepted && init.fwType.Application? then Value(init.fwVersion) else s.appVersion)
            && r.blVersion == (if accepted && HasBootloader(init.fwType) then Value(init.fwVersion) else s.blVersion)
            && r.packet == s.packet && r.valid == s.valid
  {
    hide Accepted, Rejected, Verdict;
    if s.bankCurrent <= 1 {
      var h := s.(fwHash := if s.packet.init.sha256 && faults.imageHash then env.hash(image) else s.fwHash);
      AcceptedShape(env, h, image, crc);
      RejectedShape(env, h, image);
    }
  }

  /** What accepting an image changes: the banks, and the sizes and versions of what is in it. */
  lemma AcceptedShape(env: Env, s: Session, image: seq<byte>, crc: word)
    requires s.bankCurrent <= 1
    ensures var r, init := Accepted(env, s, image, crc), s.packet.init;
            && r == s.(bank0 := r.bank0, bank1 := r.bank1, sdSize := r.sdSize,
                       appVersion := r.appVersion, blVersion := r.blVersion)
            && r.appVersion == (if init.fwType.Application? then Value(init.fwVersion) else s.appVersion)
            && r.blVersion == (if HasBootloader(init.fwType) then Value(init.fwVersion) else s.blVersion)
  {
    hide MarkedBank;
  }

  lemma RejectedShape(env: Env, s: Session, image: seq<byte>)
    requires s.bankCurrent <= 1
    ensures var r := Rejected(env, s, image);
            && r == s.(bank0 := r.bank0, bank1 := r.bank1)
            && (r.bank0 != s.bank0 ==> r.bank0.code == Invalid) && (r.bank1 != s.bank1 ==> r.bank1.code == Invalid)
  {
  }

  lemma ExecuteVersions(env: Env, s: Session, image: seq<byte>, faults: Faults)
    ensures var r, init := DataExecute(env, s, image, faults).1, s.packet.init;
            var accepted := Accepts(env, s, image, faults);
            && r.appVersion == (if accepted && init.fwType.Application? then Value(init.fwVersion) else s.appVersion)
            && r.blVersion == (if accepted && HasBootloader(init.fwType) then Value(init.fwVersion) else s.blVersion)
            && r.packet == s.packet && r.valid == s.valid
  {
    hide Postvalidate, Joined, Crc;
    var t := s.(objects := Closed(s.objects, s.current), current := [], objectSize := 0);
    PostvalidateVersions(env, t, image, Crc(Joined(t.objects)), faults);
  }

  /** Without a valid init packet, data EXECUTE does nothing if a size was announced before; if the
      announced size is zero, it goes on to validate the empty image. */
  lemma StaleExecute(env: Env, s: Session, image: seq<byte>, faults: Faults)
    requires Sensible(env) && Orderly(env, s) && !s.valid
    ensures s.sizeReq != 0 ==> DataExecute(env, s, image, faults).1 == s
    ensures Accepts(env, s, image, faults) <==>
              && faults.settings1 && s.sizeReq == 0 && s.bankCurrent <= 1
              && Verdict(env, s, image, faults.imageHash) == Success
  {
    hide Postvalidate, Joined, Verdict;
    JoinedNone();
  }

  lemma AcceptedUpgrades(env: Env, s: Session, hashed: bool)
    requires env.pageSize > 0 && Prevalidate(env, s, hashed).0 == Success
    ensures Upgrades(s.(valid := true), true)
  {
  }

  /** No request makes a valid init packet older than what it replaces. */
  lemma EventKeepsUpgrades(env: Env, s: Session, unused: bool, e: Event)
    requires env.pageSize > 0 && Upgrades(s, unused)
    ensures Upgrades(Respond(env, s, e).1, StillUnused(env, s, unused, e))
  {
    hide Prevalidate, DataExecute, Joined, Accepts;
    match e
    case ExecuteCommand(faults) =>
      PrevalidateBounds(env, s.(packet := env.decode(s.command).packet), faults.initHash);
      if !s.valid && Respond(env, s, e).1.valid {
        AcceptedUpgrades(env, s.(packet := env.decode(s.command).packet), faults.initHash);
      }
    case ExecuteData(image, faults) => ExecuteVersions(env, s, image, faults);
    case _ =>
  }

  /** When a request decreases a version, in every state that requests can lead to: exactly when it
      is a data EXECUTE without a valid init packet, with no size announced, that accepts the empty
      image for an older packet. */
  lemma WhenVersionsDrop(env: Env, s: Session, unused: bool, e: Event)
    requires Sensible(env) && Orderly(env, s) && Upgrades(s, unused)
    ensures var r := Respond(env, s, e).1;
            Downgrades(env, s, e) <==> r.appVersion < s.appVersion || r.blVersion < s.blVersion
  {
    hide Prevalidate, DataExecute, Joined, Accepts, Verdict, Orderly;
    match e
    case ExecuteCommand(faults) =>
      PrevalidateBounds(env, s.(packet := env.decode(s.command).packet), faults.initHash);
    case ExecuteData(image, faults) =>
      ExecuteVersions(env, s, image, faults);
      if !s.valid {
        StaleExecute(env, s, image, faults);
      }
    case _ =>
  }

  ghost function Run(env: Env, s: Session, events: seq<Event>): (r: Session)
    requires env.pageSize > 0
    decreases |events|
  {
    if events == [] then s else Run(env, Respond(env, s, events[0]).1, events[1..])
  }

  /** Whether the init packet in force is unused after a run. */
  ghost predicate Unused(env: Env, s: Session, unused: bool, events: seq<Event>)
    requires env.pageSize > 0
    decreases |events|
  {
    if events == [] then unused
    else Unused(env, Respond(env, s, events[0]).1, StillUnused(env, s, unused, events[0]), events[1..])
  }

  /** The assumption on the peer, which it can check before the request: a data EXECUTE comes under a
      valid init packet, or at least after one that announced a size. */
  ghost predicate Disciplined(s: Session, e: Event) {
    e.ExecuteData? ==> s.valid || s.sizeReq != 0
  }

  ghost predicate DisciplinedRun(env: Env, s: Session, events: seq<Event>)
    requires env.pageSize > 0
    decreases |events|
  {
    events == [] || (Disciplined(s, events[0]) && DisciplinedRun(env, Respond(env, s, events[0]).1, events[1..]))
  }

  /** Over every run in which no data EXECUTE comes with neither a valid init packet nor an announced
      size, the stored versions never decrease. */
  lemma {:induction false} VersionsNeverDecrease(env: Env, s: Session, unused: bool, events: seq<Event>)
    requires Sensible(env) && Orderly(env, s) && Upgrades(s, unused) && DisciplinedRun(env, s, events)
    ensures Run(env, s, events).appVersion >= s.appVersion && Run(env, s, events).blVersion >= s.blVersion
    decreases |events|
  {
    hide Respond, Orderly;
    if events != [] {
      WhenVersionsDrop(env, s, unused, events[0]);
      EventKeepsUpgrades(env, s, unused, events[0]);
      EventKeepsOrder(env, s, events[0]);
      VersionsNeverDecrease(env, Respond(env, s, events[0]).1, StillUnused(env, s, unused, events[0]), events[1..]);
    }
  }

  /** Over every run whatever, a valid init packet is no older than what it replaces. */
  lemma {:induction false} RunKeepsUpgrades(env: Env, s: Session, unused: bool, events: seq<Event>)
    requires env.pageSize > 0 && Upgrades(s, unused)
    ensures Upgrades(Run(env, s, events), Unused(env, s, unused, events))
    decreases |events|
  {
    hide Respond, StillUnused;
    if events != [] {
      EventKeepsUpgrades(env, s, unused, events[0]);
      RunKeepsUpgrades(env, Respond(env, s, events[0]).1, StillUnused(env, s, unused, events[0]), events[1..]);
    }
  }

  /** Over every run from power-up, whatever requests and failures it holds: an image accepted under
      a valid init packet stores the packet's version, and the first image accepted under it, if it
      holds a bootloader, raises the bootloader version. */
  lemma FirstBootloaderIsNewer(env: Env, s: Session, events: seq<Event>, image: seq<byte>, faults: Faults)
    requires env.pageSize > 0 && PoweredUp(s)
    requires Run(env, s, events).valid && Accepts(env, Run(env, s, events), image, faults)
    ensures var t := Run(env, s, events);
            var init, r := t.packet.init, DataExecute(env, t, image, faults).1;
            && (init.fwType.Application? ==> r.appVersion == Value(init.fwVersion))
            && (HasBootloader(init.fwType) ==> r.blVersion == Value(init.fwVersion))
            && (HasBootloader(init.fwType) && Unused(env, s, true, events) ==> r.blVersion > t.blVersion)
  {
    hide DataExecute, Accepts;
    RunKeepsUpgrades(env, s, true, events);
    ExecuteVersions(env, Run(env, s, events), image, faults);
  }

  // ----- a run that decreases a version -----

  const PLAIN_ENV := Env(4096, 4096, 0, 0x1_0000, 0, 0, 0, _ => 0,
                         _ => Decoded(true, OLD_PACKET), (_, _) => false, _ => [])

  /** An application of version 0, without a signature that could be checked, for the empty image. */
  const OLD_PACKET := Packet(true, true,
    Init(Present(0), Present(HW_VERSION), [0], Application, Absent, Absent, Present(1), true, [], false),
    false, [], false, [0])

  const VERSION_ONE := Session(false, 0, 0, OLD_PACKET, [], 0, [], [], [], 0, 0,
                               Bank(0, 0, Invalid), Bank(0, 0, Invalid), 1, 1, 0)

  const NO_FAULTS := Faults(true, true, true, true, true, true, true)

  const REFUSED := VERSION_ONE.(commandSize := 1, command := [0])

  lemma CommandIsRefused()
    ensures var s := CommandCreate(VERSION_ONE, 1).1;
            CommandExecute(PLAIN_ENV, CommandWrite(s, [0]).1, NO_FAULTS).1 == REFUSED
  {
    var s := CommandCreate(VERSION_ONE, 1).1;
    assert s.command + [0] == [0];
  }

  lemma EmptyImageIsAccepted()
    ensures Downgrades(PLAIN_ENV, REFUSED, ExecuteData([], NO_FAULTS))
    ensures var r := DataExecute(PLAIN_ENV, REFUSED, [], NO_FAULTS).1;
            r.appVersion == 0 && r.bank0.code == ValidApp && !r.valid && r.packet == OLD_PACKET
  {
    hide Crc;
    JoinedNone();
  }

  /** From power-up, an init command that is received but refused, followed by a data EXECUTE,
      brings the application version from one to zero and marks bank 0 as a valid application, without
      a signature. */
  lemma RefusedPacketDowngrades()
    ensures PoweredUp(VERSION_ONE) && Sensible(PLAIN_ENV)
    ensures var events := [CreateCommand(1), WriteCommand([0]), ExecuteCommand(NO_FAULTS), ExecuteData([], NO_FAULTS)];
            var r := Run(PLAIN_ENV, VERSION_ONE, events);
            && r.appVersion == 0 < VERSION_ONE.appVersion
            && r.bank0.code == ValidApp && !r.valid && !Authentic(PLAIN_ENV, r.packet)
  {
    CommandIsRefused();
    EmptyImageIsAccepted();
    hide CommandCreate, CommandWrite, CommandExecute, DataExecute;
    var a, b, c, d := CreateCommand(1), WriteCommand([0]), ExecuteCommand(NO_FAULTS), ExecuteData([], NO_FAULTS);
    assert [a, b, c, d][1..] == [b, c, d] && [b, c, d][1..] == [c, d] && [c, d][1..] == [d] && [d][1..] == [];
    var s := CommandCreate(VERSION_ONE, 1).1;
    assert Run(PLAIN_ENV, REFUSED, [d]) == DataExecute(PLAIN_ENV, REFUSED, [], NO_FAULTS).1;
    assert Run(PLAIN_ENV, CommandWrite(s, [0]).1, [c, d]) == Run(PLAIN_ENV, REFUSED, [d]);
    assert Run(PLAIN_ENV, s, [b, c, d]) == Run(PLAIN_ENV, CommandWrite(s, [0]).1, [c, d]);
  }

  // ----- marked banks -----

  function CurrentBank(s: Session): Bank { if s.bankCurrent == 0 then s.bank0 else s.bank1 }

  /** Since the current bank was marked valid, no object has been opened that would erase its image. */
  ghost predicate MarkStands(s: Session) {
    CurrentBank(s).code != Invalid ==> s.objects == [] && s.objectSize == 0
  }

  /** Whether a request opens an object: it goes as far as the erase. */
  predicate Opens(env: Env, s: Session, e: Event)
    requires env.pageSize > 0
  {
    e.CreateData? && DataCreate(env, s, e.size, e.erased).0 in {Success, InvalidObject}
  }

  /** When a request touches the image of a bank that stays marked valid, exactly: when it opens an
      object under an init packet that has already delivered to bank 1. Bank 0 is unmarked first. */
  lemma WhenMarkFails(env: Env, s: Session, e: Event)
    requires Sensible(env) && Orderly(env, s) && MarkStands(s)
    ensures !MarkStands(Respond(env, s, e).1) <==>
              Opens(env, s, e) && s.bankCurrent != 0 && CurrentBank(s).code != Invalid
  {
    hide Prevalidate, DataExecute, Joined;
    match e
    case ExecuteCommand(faults) =>
      var t := s.(packet := env.decode(s.command).packet);
      PrevalidateReserves(env, t, faults.initHash);
    case ExecuteData(image, faults) => ExecuteKeepsMark(env, s, image, faults);
    case _ =>
  }

  lemma PrevalidateReserves(env: Env, s: Session, hashed: bool)
    requires env.pageSize > 0
    ensures var (code, r) := Prevalidate(env, s, hashed);
            && r.objects == s.objects && r.objectSize == s.objectSize
            && (if code == Success then CurrentBank(r).code == Invalid else CurrentBank(r) == CurrentBank(s))
  {
    hide CheckInit, AnnouncedSize;
  }

  lemma ExecuteKeepsMark(env: Env, s: Session, image: seq<byte>, faults: Faults)
    requires MarkStands(s)
    ensures MarkStands(DataExecute(env, s, image, faults).1)
  {
    hide Joined, Crc, Verdict, Accepted, Rejected;
  }

  ghost predicate NeverReopens(env: Env, s: Session, events: seq<Event>)
    requires env.pageSize > 0
    decreases |events|
  {
    events == [] ||
    ((Opens(env, s, events[0]) ==> s.bankCurrent == 0 || CurrentBank(s).code == Invalid) &&
     NeverReopens(env, Respond(env, s, events[0]).1, events[1..]))
  }

  /** Over every run that opens no object while bank 1 is current and marked, a marked bank keeps its
      image. */
  lemma {:induction false} MarksStand(env: Env, s: Session, events: seq<Event>)
    requires Sensible(env) && Orderly(env, s) && MarkStands(s) && NeverReopens(env, s, events)
    ensures MarkStands(Run(env, s, events))
    decreases |events|
  {
    hide Respond, Orderly, MarkStands, Opens;
    if events != [] {
      WhenMarkFails(env, s, events[0]);
      EventKeepsOrder(env, s, events[0]);
      MarksStand(env, Respond(env, s, events[0]).1, events[1..]);
    }
  }

  /** For instance, the image just accepted into bank 1, created once more in one object, under the
      init packet it came with: the bank stays marked. */
  lemma CreatedAgain(env: Env, s: Session)
    requires Sensible(env) && Orderly(env, s) && s.valid && s.objects == [] && s.sizeReq <= env.maxObject
    requires s.bankCurrent == 1 && s.bank1.code != Invalid
    ensures var (code, r) := DataCreate(env, s, s.sizeReq, true);
            code == Success && r.bank1 == s.bank1 && r.objectSize == s.sizeReq > 0 && !MarkStands(r)
  {
    JoinedNone();
  }

  // ----- only signed images -----

  /** The packet carries a signature that verifies. */
  ghost predicate Authentic(env: Env, p: Packet) {
    p.ecdsa && |p.signature| == SIGNATURE_LENGTH && env.verify(p.initBytes, p.signature)
  }

  /** A valid init packet is authentic. */
  ghost predicate Signed(env: Env, s: Session) {
    s.valid ==> Authentic(env, s.packet)
  }

  /** A bank that changes, and is not invalid afterwards, changes under an authentic init packet. */
  ghost predicate MarksSigned(env: Env, s: Session, r: Session) {
    && (r.bank0 != s.bank0 && r.bank0.code != Invalid ==> Authentic(env, r.packet))
    && (r.bank1 != s.bank1 && r.bank1.code != Invalid ==> Authentic(env, r.packet))
  }

  lemma AcceptedIsSigned(env: Env, s: Session, hashed: bool)
    requires env.pageSize > 0 && Prevalidate(env, s, hashed).0 == Success
    ensures Authentic(env, s.packet)
  {
    hide FindCache, AnnouncedSize;
  }

  lemma EventMarksSigned(env: Env, s: Session, e: Event)
    requires Sensible(env) && Orderly(env, s) && Signed(env, s) && Disciplined(s, e)
    ensures Signed(env, Respond(env, s, e).1) && MarksSigned(env, s, Respond(env, s, e).1)
  {
    hide Prevalidate, DataExecute, Joined, Authentic, Orderly;
    match e
    case ExecuteCommand(faults) =>
      var t := s.(packet := env.decode(s.command).packet);
      PrevalidateBounds(env, t, faults.initHash);
      if !s.valid && Respond(env, s, e).1.valid {
        AcceptedIsSigned(env, t, faults.initHash);
      }
    case ExecuteData(image, faults) =>
      ExecuteVersions(env, s, image, faults);
      if !s.valid {
        StaleExecute(env, s, image, faults);
      }
    case _ =>
  }

  /** The guard of the one step that marks a bank without a signature: a data EXECUTE with neither a
      valid init packet nor an announced size that accepts the empty image for an unsigned packet, in
      a bank that is not marked just so already. */
  predicate MarksUnsigned(env: Env, s: Session, e: Event) {
    && e.ExecuteData? && !s.valid && s.sizeReq == 0 && s.bankCurrent <= 1 && e.faults.settings1
    && Verdict(env, s, e.image, e.faults.imageHash) == Success
    && CurrentBank(s) != MarkedBank(s, Crc([]))
  }

  lemma AcceptedBanks(env: Env, s: Session, image: seq<byte>, crc: word)
    requires s.bankCurrent <= 1
    ensures var r := Accepted(env, s, image, crc);
            && CurrentBank(r) == MarkedBank(s, crc) && r.bankCurrent == s.bankCurrent
            && (s.bankCurrent == 0 ==> r.bank1 == s.bank1)
            && (s.bankCurrent == 1 && r.bank0 != s.bank0 ==> r.bank0.code == Invalid)
  {
    hide MarkedBank;
  }

  lemma PostvalidateBanks(env: Env, s: Session, image: seq<byte>, crc: word, faults: Faults)
    ensures var r := Postvalidate(env, s, image, crc, faults).1;
            var accepted := s.bankCurrent <= 1 && Verdict(env, s, image, faults.imageHash) == Success;
            && (r.bank0 != s.bank0 && r.bank0.code != Invalid ==> accepted && s.bankCurrent == 0)
            && (r.bank1 != s.bank1 && r.bank1.code != Invalid ==> accepted && s.bankCurrent == 1)
            && r.bankCurrent == s.bankCurrent && (accepted ==> CurrentBank(r) == MarkedBank(s, crc))
  {
    hide Accepted, Rejected, Verdict;
    if s.bankCurrent <= 1 {
      var h := s.(fwHash := if s.packet.init.sha256 && faults.imageHash then env.hash(image) else s.fwHash);
      AcceptedBanks(env, h, image, crc);
      RejectedShape(env, h, image);
    }
  }

  /** What a data EXECUTE that accepts does to the banks, and that any other only invalidates. */
  lemma ExecuteBanks(env: Env, s: Session, image: seq<byte>, faults: Faults)
    ensures var r := DataExecute(env, s, image, faults).1;
            && (r.bank0 != s.bank0 && r.bank0.code != Invalid ==> Accepts(env, s, image, faults) && s.bankCurrent == 0)
            && (r.bank1 != s.bank1 && r.bank1.code != Invalid ==> Accepts(env, s, image, faults) && s.bankCurrent == 1)
            && r.bankCurrent == s.bankCurrent
            && (Accepts(env, s, image, faults) ==>
                  CurrentBank(r) == MarkedBank(s, Crc(Joined(Closed(s.objects, s.current)))))
  {
    var t := s.(objects := Closed(s.objects, s.current), current := [], objectSize := 0);
    SameVerdict(env, s, t, image, faults);
    hide Joined, Crc, Postvalidate, Verdict, CurrentBank;
    PostvalidateBanks(env, t, image, Crc(Joined(t.objects)), faults);
    SameMark(s, t, Crc(Joined(t.objects)));
  }

  lemma SameVerdict(env: Env, s: Session, t: Session, image: seq<byte>, faults: Faults)
    requires s.packet == t.packet && s.fwHash == t.fwHash
    ensures Verdict(env, s, image, faults.imageHash) == Verdict(env, t, image, faults.imageHash)
  {
  }

  lemma SameMark(s: Session, t: Session, crc: word)
    requires s.packet == t.packet && s.sizeReq == t.sizeReq
    ensures MarkedBank(s, crc) == MarkedBank(t, crc)
  {
  }

  /** When a request marks a bank without a signature, in every state that requests can lead to. */
  lemma WhenMarkedUnsigned(env: Env, s: Session, e: Event)
    requires Sensible(env) && Orderly(env, s) && Signed(env, s)
    ensures !MarksSigned(env, s, Respond(env, s, e).1) <==> MarksUnsigned(env, s, e) && !Authentic(env, s.packet)
  {
    hide DataExecute, Joined, Authentic, Orderly, Verdict, Accepts, MarkedBank, Crc;
    if Disciplined(s, e) {
      EventMarksSigned(env, s, e);
    } else {
      ExecuteVersions(env, s, e.image, e.faults);
      ExecuteBanks(env, s, e.image, e.faults);
      StaleExecute(env, s, e.image, e.faults);
      NothingExecuted(env, s);
      MarkIsValid(s, Crc([]));
    }
  }

  lemma NothingExecuted(env: Env, s: Session)
    requires env.pageSize > 0 && Orderly(env, s) && !s.valid
    ensures Joined(Closed(s.objects, s.current)) == []
  {
  }

  lemma MarkIsValid(s: Session, crc: word)
    ensures MarkedBank(s, crc).code != Invalid
  {
  }

  /** Every step of a run marks banks only under an authentic init packet. */
  ghost predicate AllMarksSigned(env: Env, s: Session, events: seq<Event>)
    requires env.pageSize > 0
    decreases |events|
  {
    events == [] ||
    (MarksSigned(env, s, Respond(env, s, events[0]).1) &&
     AllMarksSigned(env, Respond(env, s, events[0]).1, events[1..]))
  }

  /** Over every run in which no data EXECUTE comes with neither a valid init packet nor an announced
      size, a bank becomes valid only under an init packet whose signature verifies. */
  lemma {:induction false} OnlySignedImages(env: Env, s: Session, events: seq<Event>)
    requires Sensible(env) && Orderly(env, s) && Signed(env, s) && DisciplinedRun(env, s, events)
    ensures AllMarksSigned(env, s, events)
    decreases |events|
  {
    hide Respond, Orderly, Signed, MarksSigned;
    if events != [] {
      EventMarksSigned(env, s, events[0]);
      EventKeepsOrder(env, s, events[0]);
      OnlySignedImages(env, Respond(env, s, events[0]).1, events[1..]);
    }
  }

  /** From power-up the stored progress is empty, and the bank is one of the two. */
  ghost predicate PoweredUp(s: Session) {
    !s.valid && s == Cleared(s)
  }

  lemma PoweredUpIsOrderly(env: Env, s: Session)
    requires env.pageSize > 0 && PoweredUp(s)
    ensures Orderly(env, s) && Upgrades(s, true) && Signed(env, s) && MarkStands(s) && Placed(env, s)
  {
  }

  /** Every state that requests can lead to is orderly. */
  lemma {:induction false} RunKeepsOrder(env: Env, s: Session, events: seq<Event>)
    requires Sensible(env) && Orderly(env, s)
    ensures Orderly(env, Run(env, s, events))
    decreases |events|
  {
    hide Respond, Orderly;
    if events != [] {
      EventKeepsOrder(env, s, events[0]);
      RunKeepsOrder(env, Respond(env, s, events[0]).1, events[1..]);
    }
  }
}
