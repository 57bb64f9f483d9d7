/** The timed transmission windows of Firmware/AppBase/Src/Application/ModeManagement.c: five
    windows, each marked as due when its period has passed on the RTC; when any window is marked,
    all due windows are sent. */
module Scheduler {
  import opened Arithmetic
  import opened Cyclic

  const FRAME_CFG_NUMBER := 5
  const FRAME_CFG_WINDOWS_BLE_SIZE := 5

  /** s_CC430FrameCfg_t. `timer` is transmission mode 0; `elapsed` is u16TimeToSend, `due` is
      u8TimeToSend. */
  datatype Window = Window(number: nat, active: bool, timer: bool, cmd: nat, dimming: int, tagType: byte,
                           period: nat, due: bool, elapsed: nat)

  /** One window marked as due, with the period then in force. */
  datatype Mark = Mark(time: nat, period: nat)

  /** What concerns one window: its settings, when it was last marked, the time of the last
      process, and its history. */
  datatype Timer = Timer(window: Window, last: nat, prev: nat, marks: seq<Mark>, sent: nat)

  /** The elapsed time as the code keeps it: a difference of 32-bit times cut to 16 bits. */
  function Elapsed(time: nat, last: nat): (e: nat)
    ensures e < 0x1_0000
  {
    (time - last) % 0x1_0000_0000 % 0x1_0000
  }

  predicate Marked(w: Window, last: nat, time: nat) {
    w.active && w.timer && Elapsed(time, last) >= w.period
  }

  function Check(w: Window, last: nat, time: nat): (r: Window) {
    if w.active && w.timer then w.(elapsed := Elapsed(time, last), due := w.due || Marked(w, last, time)) else w
  }

  /** One process at a new time, for one window. `any` says whether some window was marked, `built`
      whether this window's payload could be built. */
  function Process(s: Timer, time: nat, any: bool, built: bool): (r: Timer) {
    if time == s.prev then s
    else
      var marked := Marked(s.window, s.last, time);
      var checked := Check(s.window, s.last, time);
      var sends := any && checked.due && built;
      Timer(if sends then checked.(due := false) else checked,
            if marked then time else s.last, time,
            if marked then s.marks + [Mark(time, s.window.period)] else s.marks,
            if sends then s.sent + 1 else s.sent)
  }

  // ----- runs of one window -----

  datatype Event =
    | Tick(time: nat, any: bool, built: bool)
    | Configure(window: Window)

  /** Configuration changes anything but whether the window is due. */
  function Step(s: Timer, e: Event): (r: Timer) {
    match e
    case Tick(time, any, built) => Process(s, time, any || Marked(s.window, s.last, time), built)
    case Configure(w) => s.(window := w.(due := s.window.due))
  }

  ghost predicate ClockRuns(s: Timer, events: seq<Event>)
    decreases |events|
  {
    events == [] ||
    ((events[0].Tick? ==> s.prev <= events[0].time < 0x1_0000_0000) && ClockRuns(Step(s, events[0]), events[1..]))
  }

  function Run(s: Timer, events: seq<Event>): (r: Timer)
    decreases |events|
  {
    if events == [] then s else Run(Step(s, events[0]), events[1..])
  }

  /** Every mark comes no earlier than its period after the one before, the first no earlier than
      its period after time zero; and no window is sent more often than it was marked. */
  ghost predicate Spaced(s: Timer) {
    && s.last <= s.prev < 0x1_0000_0000
    && s.last == (if s.marks == [] then 0 else s.marks[|s.marks| - 1].time)
    && (forall i :: 0 <= i < |s.marks| ==> s.marks[i].time >= s.marks[i].period)
    && (forall i :: 0 < i < |s.marks| ==> s.marks[i].time >= s.marks[i - 1].time + s.marks[i].period)
    && s.sent + (if s.window.due then 1 else 0) <= |s.marks|
  }

  /** Truncation can only make the elapsed time smaller. */
  lemma ElapsedAtMost(time: nat, last: nat)
    requires last <= time < 0x1_0000_0000
    ensures Elapsed(time, last) <= time - last
    ensures time - last < 0x1_0000 ==> Elapsed(time, last) == time - last
  {
  }

  /** Over every run with a non-decreasing clock, through every reconfiguration: consecutive marks
      of a window are at least the period in force at the later one apart. */
  lemma {:induction false} MarksAreSpaced(s: Timer, events: seq<Event>)
    requires Spaced(s) && ClockRuns(s, events)
    ensures Spaced(Run(s, events))
    decreases |events|
  {
    if events != [] {
      if events[0].Tick? {
        ElapsedAtMost(events[0].time, s.last);
      }
      MarksAreSpaced(Step(s, events[0]), events[1..]);
    }
  }

  // ----- sending -----

  /** In every process of a run the payload can be built. */
  predicate AllBuilt(events: seq<Event>) {
    forall i :: 0 <= i < |events| && events[i].Tick? ==> events[i].built
  }

  /** A window that is due stays due until it is sent, whatever happens. */
  lemma {:induction false} DueUntilSent(s: Timer, events: seq<Event>)
    requires s.window.due
    ensures Run(s, events).window.due || Run(s, events).sent > s.sent
    ensures Run(s, events).sent >= s.sent
    decreases |events|
  {
    if events != [] {
      var t := Step(s, events[0]);
      SentGrows(t, events[1..]);
      if t.window.due {
        DueUntilSent(t, events[1..]);
      }
    }
  }

  lemma {:induction false} SentGrows(s: Timer, events: seq<Event>)
    ensures Run(s, events).sent >= s.sent
    decreases |events|
  {
    if events != [] {
      SentGrows(Step(s, events[0]), events[1..]);
    }
  }

  /** Over every run in which the payloads can be built, every mark is sent in the process that makes
      it: as many transmissions as marks, and nothing left due. */
  lemma {:induction false} EveryMarkIsSent(s: Timer, events: seq<Event>)
    requires AllBuilt(events) && !s.window.due && s.sent == |s.marks|
    ensures Run(s, events).sent == |Run(s, events).marks| && !Run(s, events).window.due
    decreases |events|
  {
    if events != [] {
      var t := Step(s, events[0]);
      assert AllBuilt(events[1..]);
      EveryMarkIsSent(t, events[1..]);
    }
  }

  /** A due window whose payload can be built is sent in the first process that marks any window. */
  lemma DueIsSentWithAny(s: Timer, time: nat)
    requires s.window.due && time != s.prev
    ensures var r := Step(s, Tick(time, true, true));
            r.sent == s.sent + 1 && !r.window.due
  {
  }

  // ----- every tick -----

  /** `n` processes, one a tick, of a window nobody reconfigures. */
  function Ticks(s: Timer, n: nat, built: nat -> bool): (r: Timer)
  {
    if n == 0 then s
    else
      var p := Ticks(s, n - 1, built);
      Process(p, s.prev + n, Marked(p.window, p.last, s.prev + n), built(n))
  }

  function Max1(p: nat): (r: nat) { if p == 0 then 1 else p }

  /** The times of the marks, for a window last marked at `start`, over `n` ticks. */
  function MarkTimes(start: nat, period: nat, n: nat): (times: seq<Mark>)
  {
    if n == 0 then []
    else MarkTimes(start, period, n - 1) + if n % Max1(period) == 0 then [Mark(start + n, period)] else []
  }

  /** A window that has just been marked, and is processed on every tick, is marked at every
      multiple of its period and at no other time, although the elapsed time is cut to 16 bits. A
      period of zero counts as one. */
  lemma {:induction false} MarkedAgain(s: Timer, n: nat, built: nat -> bool)
    requires s.window.active && s.window.timer && s.window.period < 0x1_0000
    requires s.last == s.prev && s.prev + n < 0x1_0000_0000
    ensures var r := Ticks(s, n, built);
            && r.marks == s.marks + MarkTimes(s.prev, s.window.period, n)
            && r.last + n % Max1(s.window.period) == s.prev + n == r.prev
            && r.window.active && r.window.timer && r.window.period == s.window.period
  {
    hide Elapsed;
    if n == 0 {
      assert s.marks + [] == s.marks;
    } else {
      var p := Ticks(s, n - 1, built);
      MarkedAgain(s, n - 1, built);
      NextModulo(n - 1, Max1(s.window.period));
      ElapsedAtMost(p.prev + 1, p.last);
      var marks := MarkTimes(s.prev, s.window.period, n - 1);
      var mark := [Mark(s.prev + n, s.window.period)];
      assert s.marks + marks + mark == s.marks + (marks + mark);
      assert marks + [] == marks;
    }
  }

  /** After how many ticks a window is marked first, from any state: what counts is the elapsed time
      as the code sees it, which starts again at zero after 65535. */
  function FirstMark(prev: nat, last: nat, period: nat): (n: nat) {
    var r := Elapsed(prev, last);
    if r == 0xFFFF then 1 + period else if r + 1 >= period then 1 else period - r
  }

  lemma FirstMarkBound(prev: nat, last: nat, period: nat)
    ensures 1 <= FirstMark(prev, last, period) <= period + 1
  {
  }

  /** The elapsed time `n` ticks on. */
  lemma ElapsedLater(prev: nat, last: nat, n: nat)
    requires last <= prev && prev + n < 0x1_0000_0000
    ensures Elapsed(prev + n, last) == (Elapsed(prev, last) + n) % 0x1_0000
  {
  }

  /** The first mark comes when the elapsed time first reaches the period. */
  lemma FirstReached(prev: nat, last: nat, period: nat, n: nat)
    requires last <= prev && prev + n < 0x1_0000_0000 && period < 0x1_0000
    requires 1 <= n <= FirstMark(prev, last, period)
    ensures Elapsed(prev + n, last) >= period <==> n == FirstMark(prev, last, period)
  {
    var r := Elapsed(prev, last);
    ElapsedLater(prev, last, n);
    hide Elapsed;
    if r + n < 0x1_0000 {
      assert (r + n) % 0x1_0000 == r + n;
    } else {
      assert (r + n) % 0x1_0000 == r + n - 0x1_0000;
    }
  }

  /** Until the first mark nothing happens. */
  lemma {:induction false} UnmarkedBefore(s: Timer, n: nat, built: nat -> bool)
    requires s.window.active && s.window.timer && s.window.period < 0x1_0000
    requires s.last <= s.prev && s.prev + n < 0x1_0000_0000
    requires n < FirstMark(s.prev, s.last, s.window.period)
    ensures var r := Ticks(s, n, built);
            && r.marks == s.marks && r.last == s.last && r.prev == s.prev + n
            && r.window.active && r.window.timer && r.window.period == s.window.period
  {
    hide Elapsed, FirstMark;
    if n > 0 {
      UnmarkedBefore(s, n - 1, built);
      FirstReached(s.prev, s.last, s.window.period, n);
    }
  }

  lemma FirstIsMarked(s: Timer, built: nat -> bool)
    requires s.window.active && s.window.timer && s.window.period < 0x1_0000
    requires s.last <= s.prev && s.prev + FirstMark(s.prev, s.last, s.window.period) < 0x1_0000_0000
    ensures var first := FirstMark(s.prev, s.last, s.window.period);
            var r := Ticks(s, first, built);
            && r.marks == s.marks + [Mark(s.prev + first, s.window.period)]
            && r.last == r.prev == s.prev + first
            && r.window.active && r.window.timer && r.window.period == s.window.period
  {
    hide Elapsed, FirstMark;
    var first := FirstMark(s.prev, s.last, s.window.period);
    FirstMarkBound(s.prev, s.last, s.window.period);
    UnmarkedBefore(s, first - 1, built);
    FirstReached(s.prev, s.last, s.window.period, first);
  }

  /** Ticks go on where they stopped. */
  lemma {:induction false} TicksThen(s: Timer, n: nat, m: nat, built: nat -> bool, later: nat -> bool)
    requires forall i :: later(i) == built(n + i)
    requires Ticks(s, n, built).prev == s.prev + n
    ensures Ticks(s, n + m, built) == Ticks(Ticks(s, n, built), m, later)
  {
    hide Process, Marked;
    if m > 0 {
      TicksThen(s, n, m - 1, built, later);
    }
  }

  /** An active timer window that is processed on every tick, whenever it was marked last or switched
      on: it is marked first after at most period + 1 ticks, exactly when the code's elapsed time
      says so, and from then on at every multiple of its period and at no other time. */
  lemma MarkedEveryPeriod(s: Timer, n: nat, built: nat -> bool)
    requires s.window.active && s.window.timer && s.window.period < 0x1_0000
    requires s.last <= s.prev && s.prev + n < 0x1_0000_0000
    ensures var period := s.window.period;
            var first := FirstMark(s.prev, s.last, period);
            && 1 <= first <= period + 1
            && Ticks(s, n, built).marks ==
               s.marks + if n < first then []
                         else [Mark(s.prev + first, period)] + MarkTimes(s.prev + first, period, n - first)
  {
    hide Elapsed, FirstMark, Process;
    var first := FirstMark(s.prev, s.last, s.window.period);
    FirstMarkBound(s.prev, s.last, s.window.period);
    if n < first {
      UnmarkedBefore(s, n, built);
      assert s.marks + [] == s.marks;
    } else {
      var t := Ticks(s, first, built);
      var later := (i: nat) => built(first + i);
      FirstIsMarked(s, built);
      TicksThen(s, first, n - first, built, later);
      MarkedAgain(t, n - first, later);
      var mark, more := [Mark(s.prev + first, s.window.period)], MarkTimes(s.prev + first, s.window.period, n - first);
      assert s.marks + mark + more == s.marks + (mark + more);
    }
  }

  // ----- skipped ticks -----

  /** How far apart processes may be for a window with a period: every window that was not overdue at
      one process is marked at the next exactly if it is overdue then, as long as period and distance
      together stay within 65536 seconds; and no longer. */
  lemma GapBound(w: Window, last: nat, gap: nat)
    requires w.active && w.timer && 0 < w.period < 0x1_0000 && last + w.period + gap < 0x1_0000_0000
    ensures (forall time :: last <= time < last + w.period + gap ==>
               (Marked(w, last, time) <==> time - last >= w.period))
            <==> w.period + gap <= 0x1_0000
  {
    if w.period + gap <= 0x1_0000 {
      forall time | last <= time < last + w.period + gap
        ensures Marked(w, last, time) <==> time - last >= w.period
      {
        ElapsedAtMost(time, last);
      }
    } else {
      assert !Marked(w, last, last + 0x1_0000);
    }
  }

  /** For instance, a window with a period of one second, processed again after 65536 seconds. */
  lemma MissedAfterWrap(w: Window)
    requires w.active && w.timer && w.period == 1
    ensures !Marked(w, 0, 0x1_0000)
  {
  }

  /** The clock runs, and processes are at most `gap` seconds apart. */
  ghost predicate Paced(s: Timer, events: seq<Event>, gap: nat)
    decreases |events|
  {
    events == [] ||
    ((events[0].Tick? ==> s.prev <= events[0].time <= s.prev + gap && events[0].time < 0x1_0000_0000) &&
     Paced(Step(s, events[0]), events[1..], gap))
  }

  /** An active timer window whose period leaves room for the gap. */
  predicate FitsGap(w: Window, gap: nat) {
    w.active && w.timer && Max1(w.period) + gap <= 0x1_0000
  }

  /** Whether the window has been marked since it was switched on, and stayed a window that fits. */
  predicate Running(s: Timer, running: bool, e: Event, gap: nat) {
    match e
    case Tick(time, _, _) =>
      running || (time != s.prev && FitsGap(s.window, gap) && Marked(s.window, s.last, time))
    case Configure(w) => running && FitsGap(w, gap)
  }

  /** In every process of a run while the window is running, it is marked exactly if it is overdue;
      and afterwards it is not. */
  ghost predicate NeverLate(s: Timer, running: bool, events: seq<Event>, gap: nat)
    decreases |events|
  {
    events == [] ||
    (var e, r := events[0], Step(s, events[0]);
     && (running && e.Tick? && e.time != s.prev ==>
           && (Marked(s.window, s.last, e.time) <==> e.time - s.last >= s.window.period)
           && 0 <= r.prev - r.last < Max1(r.window.period))
     && NeverLate(r, Running(s, running, e, gap), events[1..], gap))
  }

  /** Over every run with processes at most `gap` apart, through every reconfiguration and however
      often the window is switched off and on: from its first mark until it is switched off or its
      period leaves no room for the gap, no overdue window is missed, although the elapsed time is cut
      to 16 bits. */
  lemma {:induction false} MarksAreTimely(s: Timer, running: bool, events: seq<Event>, gap: nat)
    requires Paced(s, events, gap) && s.last <= s.prev
    requires running ==> FitsGap(s.window, gap) && s.prev - s.last + gap < 0x1_0000
    ensures NeverLate(s, running, events, gap)
    decreases |events|
  {
    if events != [] {
      if events[0].Tick? {
        ElapsedAtMost(events[0].time, s.last);
      }
      MarksAreTimely(Step(s, events[0]), Running(s, running, events[0], gap), events[1..], gap);
    }
  }

  /** Before its first mark a window can be missed, whatever the gap: for instance, a window of 100
      seconds, switched on at second 65536 and processed one second later. It is marked at 65636. */
  lemma SwitchedOnLate(w: Window, built: nat -> bool)
    requires w.active && w.timer && w.period == 100
    ensures !Marked(w, 0, 0x1_0001) && 0x1_0001 - 0 >= w.period
    ensures FirstMark(0x1_0000, 0, w.period) == 100
    ensures Ticks(Timer(w, 0, 0x1_0000, [], 0), 100, built).marks == [Mark(0x1_0000 + 100, 100)]
  {
    FirstIsMarked(Timer(w, 0, 0x1_0000, [], 0), built);
  }

  // ----- configuration records -----

  /** One record of a configuration frame: window number, transmission mode and command in its
      first byte, then dimming, tag type and period. */
  function Configured(w: Window, record: seq<byte>): (r: Window)
    requires |record| == FRAME_CFG_WINDOWS_BLE_SIZE
  {
    var cmd: nat := record[0] % 16;
    w.(number := WindowOf(record), timer := record[0] / 16 % 2 == 0, cmd := cmd,
       dimming := if record[1] < 128 then record[1] else (record[1] as int) - 256,
       tagType := record[2], period := (record[3] as int) * 256 + (record[4] as int), elapsed := 0, active := cmd != 0)
  }

  /** A record as the peer builds it, the period with its high byte first. */
  function RecordOf(number: nat, timer: bool, cmd: nat, dimming: int, tagType: byte, period: nat): (r: seq<byte>)
    requires number < 8 && cmd < 16 && -128 <= dimming < 128 && period < 0x1_0000
    ensures |r| == FRAME_CFG_WINDOWS_BLE_SIZE
  {
    [32 * number + (if timer then 0 else 16) + cmd, if dimming < 0 then dimming + 256 else dimming,
     tagType, period / 256, period % 256]
  }

  /** A window is configured as the record says, and is active exactly if there is a command. */
  lemma RecordRoundTrip(w: Window, number: nat, timer: bool, cmd: nat, dimming: int, tagType: byte, period: nat)
    requires number < 8 && cmd < 16 && -128 <= dimming < 128 && period < 0x1_0000
    ensures var record := RecordOf(number, timer, cmd, dimming, tagType, period);
            && WindowOf(record) == number
            && Configured(w, record) ==
               Window(number, cmd != 0, timer, cmd, dimming, tagType, period, w.due, 0)
  {
    var mode := if timer then 0 else 16;
    var first := 32 * number + mode + cmd;
    assert first / 32 == number && first / 16 % 2 == mode / 16 && first % 16 == cmd;
  }

  /** For instance, five bytes off the air: window 2 in event mode, command 5, dimming -1, tag type 7,
      period 258. */
  lemma RecordOfBytes(w: Window)
    ensures Configured(w, [0x55, 0xFF, 7, 1, 2]) == Window(2, true, false, 5, -1, 7, 258, w.due, 0)
  {
  }

  function WindowOf(record: seq<byte>): (w: nat)
    requires |record| == FRAME_CFG_WINDOWS_BLE_SIZE
    ensures w < 8
  {
    record[0] / 32
  }

  function Record(data: seq<byte>, i: nat): (r: seq<byte>)
    requires 5 * i + 5 <= |data|
    ensures |r| == FRAME_CFG_WINDOWS_BLE_SIZE
  {
    data[5 * i..5 * i + 5]
  }

  /** A window after the first `n` records: as the last record that names it says, or unchanged. */
  function AfterRecords(w: Window, data: seq<byte>, n: nat, index: nat): (r: Window)
    requires 5 * n <= |data|
  {
    if n == 0 then w
    else if WindowOf(Record(data, n - 1)) == index then
      Configured(AfterRecords(w, data, n - 1, index), Record(data, n - 1))
    else AfterRecords(w, data, n - 1, index)
  }

  /** The last record that names a window decides its settings alone. */
  lemma {:induction false} LastRecordDecides(w: Window, data: seq<byte>, n: nat, index: nat)
    requires 5 * n <= |data|
    ensures var r := AfterRecords(w, data, n, index);
            && r.due == w.due
            && (r == w || exists i :: 0 <= i < n && WindowOf(Record(data, i)) == index &&
                              r == Configured(w, Record(data, i)) &&
                              forall k :: i < k < n ==> WindowOf(Record(data, k)) != index)
            && ((forall i :: 0 <= i < n ==> WindowOf(Record(data, i)) != index) ==> r == w)
  {
    if n > 0 {
      LastRecordDecides(w, data, n - 1, index);
    }
  }

  class ModeManagement {
    const windows: array<Window>
    const oldTime: array<nat>
    var prevTime: nat
    ghost var marks: seq<seq<Mark>>
    ghost var sent: seq<nat>

    ghost predicate Valid()
      reads this
    {
      windows.Length == oldTime.Length == |marks| == |sent| == FRAME_CFG_NUMBER
    }

    /** Everything that concerns one window. */
    ghost function Of(i: nat): Timer
      requires Valid() && i < FRAME_CFG_NUMBER
      reads this, windows, oldTime
    {
      Timer(windows[i], oldTime[i], prevTime, marks[i], sent[i])
    }

    /** All windows switched off, no mark made. */
    constructor ()
      ensures Valid() && fresh(windows) && fresh(oldTime)
      ensures forall i :: 0 <= i < FRAME_CFG_NUMBER ==>
                !Of(i).window.active && !Of(i).window.due && Of(i).marks == [] && Spaced(Of(i))
    {
      windows := new Window[FRAME_CFG_NUMBER](_ => Window(0, false, true, 0, 0, 0, 0, false, 0));
      oldTime := new nat[FRAME_CFG_NUMBER](_ => 0);
      prevTime := 0;
      marks := seq(FRAME_CFG_NUMBER, _ => []);
      sent := seq(FRAME_CFG_NUMBER, _ => 0);
    }

    /** u8ModeMngt_BleFrameCfg. */
    method BleFrameCfg(data: seq<byte>) returns (ok: bool)
      requires Valid() && |data| < 256
      modifies windows
      ensures ok == (|data| % FRAME_CFG_WINDOWS_BLE_SIZE == 0 &&
                     |data| / FRAME_CFG_WINDOWS_BLE_SIZE <= FRAME_CFG_NUMBER)
      ensures forall i :: 0 <= i < FRAME_CFG_NUMBER ==>
                windows[i] == if ok then AfterRecords(old(windows[i]), data, |data| / 5, i) else old(windows[i])
    {
      if |data| % FRAME_CFG_WINDOWS_BLE_SIZE != 0 {
        return false;
      }
      var count := |data| / FRAME_CFG_WINDOWS_BLE_SIZE;
      if count > FRAME_CFG_NUMBER {
        return false;
      }
      for n := 0 to count
        invariant forall i :: 0 <= i < FRAME_CFG_NUMBER ==> windows[i] == AfterRecords(old(windows[i]), data, n, i)
      {
        var record := Record(data, n);
        var index := WindowOf(record);
        if index < FRAME_CFG_NUMBER {
          windows[index] := Configured(windows[index], record);
        }
      }
      ok := true;
    }

    /** The first loop of vModeMngt_FrameProcess: every window whose period has passed is marked. */
    method MarkDue(time: nat) returns (somethingToSend: bool)
      requires Valid()
      modifies this`marks, windows, oldTime
      ensures Valid()
      ensures somethingToSend <==>
              exists k :: 0 <= k < FRAME_CFG_NUMBER && Marked(old(windows[k]), old(oldTime[k]), time)
      ensures forall k :: 0 <= k < FRAME_CFG_NUMBER ==>
                var w, since := old(windows[k]), old(oldTime[k]);
                && windows[k] == Check(w, since, time)
                && oldTime[k] == (if Marked(w, since, time) then time else since)
                && marks[k] == (if Marked(w, since, time) then old(marks)[k] + [Mark(time, w.period)]
                                else old(marks)[k])
    {
      hide Elapsed;
      ghost var was, since, before := windows[..], oldTime[..], marks;
      somethingToSend := false;
      for i := 0 to FRAME_CFG_NUMBER
        invariant Valid()
        invariant somethingToSend <==> exists k :: 0 <= k < i && Marked(was[k], since[k], time)
        invariant forall k :: 0 <= k < i ==>
                    && windows[k] == Check(was[k], since[k], time)
                    && oldTime[k] == (if Marked(was[k], since[k], time) then time else since[k])
                    && marks[k] == (if Marked(was[k], since[k], time) then before[k] + [Mark(time, was[k].period)]
                                    else before[k])
        invariant forall k :: i <= k < FRAME_CFG_NUMBER ==>
                    windows[k] == was[k] && oldTime[k] == since[k] && marks[k] == before[k]
      {
        var w := windows[i];
        if w.active && w.timer {
          var elapsed := Elapsed(time, oldTime[i]);
          if elapsed >= w.period {
            somethingToSend := true;
            windows[i] := w.(elapsed := elapsed, due := true);
            oldTime[i] := time;
            marks := marks[i := marks[i] + [Mark(time, w.period)]];
          } else {
            windows[i] := w.(elapsed := elapsed);
          }
        }
      }
    }

    /** vModeMngt_FrameProcess at an RTC time. `built(i)` says whether the payload of window `i` can
        be built. */
    method FrameProcess(time: nat, built: nat -> bool)
      requires Valid()
      modifies this, windows, oldTime
      ensures Valid()
      ensures var any := exists k :: 0 <= k < FRAME_CFG_NUMBER && Marked(old(windows[k]), old(oldTime[k]), time);
              forall i :: 0 <= i < FRAME_CFG_NUMBER ==> Of(i) == Process(old(Of(i)), time, any, built(i))
    {
      hide Elapsed, Marked, Check;
      if time == prevTime {
        return;
      }
      prevTime := time;
      var somethingToSend := MarkDue(time);
      if somethingToSend {
        SendDue(built);
      }
    }

    /** The second loop: every due window whose payload can be built is sent. */
    method SendDue(built: nat -> bool)
      requires Valid()
      modifies this`sent, windows
      ensures Valid()
      ensures forall i :: 0 <= i < FRAME_CFG_NUMBER ==>
                var w := old(windows[i]);
                && windows[i] == (if w.due && built(i) then w.(due := false) else w)
                && sent[i] == old(sent[i]) + (if w.due && built(i) then 1 else 0)
    {
      for i := 0 to FRAME_CFG_NUMBER
        invariant Valid()
        invariant forall k :: 0 <= k < i ==>
                    && windows[k] == (if old(windows[k]).due && built(k) then old(windows[k]).(due := false)
                                      else old(windows[k]))
                    && sent[k] == old(sent[k]) + (if old(windows[k]).due && built(k) then 1 else 0)
        invariant forall k :: i <= k < FRAME_CFG_NUMBER ==> windows[k] == old(windows[k]) && sent[k] == old(sent[k])
      {
        if windows[i].due && built(i) {
          windows[i] := windows[i].(due := false);
          sent := sent[i := sent[i] + 1];
        }
      }
    }
  }
}
