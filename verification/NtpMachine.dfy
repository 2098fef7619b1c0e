/** The functions of src/ntp.c and clock_task (src/clock.c) as methods on the state they update. Callbacks
    may interrupt clock_task between any two of its sections; the firmware's main loop is shown to make a
    run of the machine in NtpClock. */
module NtpMachine {
  import opened Bytes
  import opened NtpPacket
  import opened NtpClock
  import opened NtpTime

  /** What can happen between two sections of the main loop. */
  predicate Interrupt(e: Event) {
    e.Advance? || e.Tick? || e.DnsDone? || e.Datagram?
  }

  predicate Interrupts(events: seq<Event>) {
    forall i :: 0 <= i < |events| ==> Interrupt(events[i])
  }

  /** One turn of the main loop: what happens before clock_task and in each of the seven places between its
      sections, and how the DNS query of a request turns out, should it make one. */
  datatype Turn = Turn(before: seq<Event>, gaps: seq<seq<Event>>, lookup: Lookup)

  predicate ValidTurn(t: Turn) {
    Interrupts(t.before) && |t.gaps| == 7 && forall i :: 0 <= i < 7 ==> Interrupts(t.gaps[i])
  }

  // Runs of the machine, as what has happened before and what is added. A section that the code skips is a
  // step that the machine ignores.

  function WithSync(done: seq<Event>, gaps: seq<seq<Event>>): seq<Event>
    requires |gaps| == 3
  {
    done + [TakeSnapshot] + gaps[0] + [CheckUpdate] + gaps[1] + [SetClock] + gaps[2] + [StampSync]
  }

  function WithPoll(done: seq<Event>, gap: seq<Event>): seq<Event> {
    done + [CheckTick] + gap + [Act]
  }

  function WithRequest(done: seq<Event>, gap: seq<Event>, lookup: Lookup): seq<Event> {
    done + [Begin] + gap + [Resolve(lookup)]
  }

  function WithTurn(done: seq<Event>, t: Turn): seq<Event>
    requires ValidTurn(t)
  {
    var polled := WithPoll(WithSync(done + t.before, t.gaps[..3]) + t.gaps[3], t.gaps[4]);
    WithRequest(polled + t.gaps[5], t.gaps[6], t.lookup)
  }

  function WithTurns(done: seq<Event>, turns: seq<Turn>): seq<Event>
    requires forall i :: 0 <= i < |turns| ==> ValidTurn(turns[i])
  {
    if turns == [] then done else WithTurn(WithTurns(done, turns[..|turns| - 1]), turns[|turns| - 1])
  }

  class Clock {
    // ntp_state_t
    var status: Status
    var error: Error
    var requestStartMs: nat
    // clock_state_t
    var ntpTime: int
    var ntpTimeUpdated: bool
    var clockTickUpdated: bool
    var ntpLastSync: int
    var ntpInterval: nat
    const ntpTimeout: nat
    // settimeofday's effect on time(NULL)
    var offset: int
    // clock_task's locals
    var snapshot: Snapshot
    var utcNow: int
    // the hardware's clock: milliseconds since boot
    var now: nat

    ghost var pc: Pc
    ghost var polledAt: nat
    ghost var setAt: nat
    ghost var begunAt: nat
    ghost var anchor: nat
    ghost var synced: bool
    ghost var kods: nat
    // the steps of the machine made so far
    ghost var trace: seq<Event>

    /** The state is the one a run of the machine reaches by the steps made so far. */
    ghost predicate Valid()
      reads this
    {
      Model() == Run(Init(ntpTimeout), trace)
    }

    ghost function Model(): State
      reads `status, `error, `requestStartMs, `ntpTime, `ntpTimeUpdated, `clockTickUpdated, `ntpLastSync, `ntpInterval
      reads `offset, `snapshot, `utcNow, `now, `pc, `polledAt, `setAt, `begunAt, `anchor, `synced, `kods
    {
      State(status, error, requestStartMs,
            ntpTime, ntpTimeUpdated, clockTickUpdated, ntpLastSync, ntpInterval, ntpTimeout,
            offset, pc, snapshot, utcNow,
            now, polledAt, setAt, begunAt, anchor, synced, kods)
    }

    /** The state clock_init and ntp_init leave, before clock_start's own request. */
    constructor (ntpTimeout: nat)
      ensures Valid() && trace == [] && pc == Requesting && this.ntpTimeout == ntpTimeout
    {
      trace := [];
      status, error, requestStartMs := Idle, Ok, 0;
      ntpTime, ntpTimeUpdated, clockTickUpdated := 0, false, false;
      ntpLastSync, ntpInterval := 0, SYNC_INTERVAL;
      this.ntpTimeout := ntpTimeout;
      offset, snapshot, utcNow := 0, Snapshot(Idle, Ok, 0), 0;
      pc, now, polledAt, setAt, begunAt, anchor, synced, kods := Requesting, 0, 0, 0, 0, 0, false, 0;
    }

    /** ntp_atomic_status: None and 0 stand for the null values that leave a field alone. */
    method AtomicStatus(newStatus: Option<Status>, newError: Option<Error>, ms: nat) returns (atomic: Snapshot)
      modifies `status, `error, `requestStartMs
      ensures var s := old(Model());
              Model() == s.(status := if newStatus.Some? then newStatus.value else s.status,
                            error := if newError.Some? then newError.value else s.error,
                            startMs := if ms != 0 then ms else s.startMs)
      ensures atomic == Snapshot(status, error, requestStartMs)
    {
      if newStatus.Some? {
        status := newStatus.value;
      }
      if newError.Some? {
        error := newError.value;
      }
      if ms != 0 {
        requestStartMs := ms;
      }
      return Snapshot(status, error, requestStartMs);
    }

    /** What has just been done was the step `e` of the machine. */
    ghost method Record(e: Event)
      requires Model() == Next(Run(Init(ntpTimeout), trace), e)
      modifies `trace
      ensures Valid() && trace == old(trace) + [e]
    {
      hide Next, Model;
      RunAppend(Init(ntpTimeout), trace, [e]);
      RunOne(Run(Init(ntpTimeout), trace), e);
      trace := trace + [e];
    }

    // ----- interrupt callbacks -----

    /** clock_timer_callback, as far as the loop sees it. */
    method TimerCallback()
      modifies `clockTickUpdated
      ensures Model() == Next(old(Model()), Tick)
    {
      clockTickUpdated := true;
    }

    method StartUdpRequest(send: Send)
      modifies `status, `error, `requestStartMs
      ensures Model() == AfterSend(old(Model()), send)
    {
      if send == NoMemory {
        var _ := AtomicStatus(Some(Failed), Some(MemoryError), 0);
        return;
      }
      if send == SendError {
        var _ := AtomicStatus(Some(Failed), Some(ProtocolError), 0);
        return;
      }
    }

    method DnsCallback(found: bool, send: Send)
      modifies `status, `error, `requestStartMs
      ensures Model() == Next(old(Model()), DnsDone(found, send))
    {
      if found {
        StartUdpRequest(send);
      } else {
        var _ := AtomicStatus(Some(Failed), Some(DnsError), 0);
      }
    }

    /** The transmit timestamp as a Unix time, by the NTP era it lies in. */
    method TransmitTime(p: seq<byte>) returns (since1970: int)
      requires |p| == NTP_MSG_LEN
      ensures since1970 == EraTime(FromBigEndian32(p[40..44]))
    {
      var since1900 := FromBigEndian32(p[40..44]);
      if since1900 < NTP_DELTA {
        return since1900 + TWO_32 - NTP_DELTA;
      } else {
        return since1900 - NTP_DELTA;
      }
    }

    method RecvCallback(addressMatches: bool, portMatches: bool, p: seq<byte>)
      modifies `status, `error, `requestStartMs, `ntpTime, `ntpTimeUpdated
      ensures Model() == Next(old(Model()), Datagram(addressMatches, portMatches, p))
    {
      hide EraTime, FromBigEndian32, GetAt, Model;
      var firstByte := GetAt(p, 0);
      var mode := firstByte % 8;
      var leap := firstByte / 64 % 4;
      var stratum := GetAt(p, 1);
      var responseValid := portMatches && |p| == NTP_MSG_LEN && mode == 4;
      if !addressMatches {
        var _ := AtomicStatus(Some(Failed), Some(DnsError), 0);
      } else if !(addressMatches && responseValid) {
        var _ := AtomicStatus(Some(Failed), Some(ProtocolError), 0);
      } else if stratum == 0 {
        var _ := AtomicStatus(Some(Kod), Some(Ok), 0);
      } else if leap == 3 {
        var _ := AtomicStatus(Some(Failed), Some(ProtocolError), 0);
      } else {
        var since1970 := TransmitTime(p);
        var _ := AtomicStatus(Some(Success), Some(Ok), 0);
        TimeHandler(since1970);
      }
    }

    /** ntp_timer_callback */
    method TimeHandler(t: int)
      modifies `ntpTime, `ntpTimeUpdated
      ensures Model() == old(Model()).(ntpTime := t, timeUpdated := true)
    {
      ntpTime := t;
      ntpTimeUpdated := true;
    }

    method HandleInterrupt(e: Event)
      requires Interrupt(e)
      modifies `status, `error, `requestStartMs, `ntpTime, `ntpTimeUpdated, `clockTickUpdated, `now
      ensures Model() == Next(old(Model()), e)
    {
      match e
      case Advance(ms) => now := now + ms;
      case Tick => TimerCallback();
      case DnsDone(found, send) => DnsCallback(found, send);
      case Datagram(addressMatches, portMatches, p) => RecvCallback(addressMatches, portMatches, p);
    }

    method Interrupted(events: seq<Event>)
      requires Interrupts(events) && Valid()
      modifies `status, `error, `requestStartMs, `ntpTime, `ntpTimeUpdated, `clockTickUpdated, `now, `trace
      ensures Valid() && trace == old(trace) + events
    {
      hide Next, Run, Model;
      for i := 0 to |events|
        invariant Valid() && trace == old(trace) + events[..i]
      {
        HandleInterrupt(events[i]);
        Record(events[i]);
      }
    }

    // ----- the sections of clock_task -----

    method TaskSnapshot()
      requires pc == Top
      modifies `snapshot, `status, `error, `requestStartMs, `pc
      ensures Model() == Next(old(Model()), TakeSnapshot) && pc == Snapped
    {
      snapshot := AtomicStatus(None, None, 0);
      pc := Snapped;
    }

    method TaskCheckUpdate() returns (updated: bool)
      requires pc == Snapped
      modifies `ntpTimeUpdated, `pc
      ensures Model() == Next(old(Model()), CheckUpdate)
      ensures pc == if updated then Syncing else Synced
    {
      updated := ntpTimeUpdated;
      if updated {
        ntpTimeUpdated := false;
        pc := Syncing;
      } else {
        pc := Synced;
      }
    }

    /** set_time_of_day */
    method TaskSetClock()
      requires pc == Syncing
      modifies `offset, `pc, `setAt
      ensures Model() == Next(old(Model()), SetClock) && pc == Stamping
    {
      offset := ntpTime * 1000 - now;
      setAt := now;
      pc := Stamping;
    }

    method TaskStampSync()
      requires pc == Stamping
      modifies `ntpLastSync, `pc, `anchor, `synced
      ensures Model() == Next(old(Model()), StampSync) && pc == Synced
    {
      ntpLastSync := (now + offset) / 1000;
      anchor, synced := setAt, true;
      pc := Synced;
    }

    method TaskCheckTick() returns (ticked: bool)
      requires pc == Synced
      modifies `clockTickUpdated, `utcNow, `pc, `polledAt
      ensures Model() == Next(old(Model()), CheckTick)
      ensures pc == if ticked then Polled else Top
    {
      if !clockTickUpdated {
        pc := Top;
        return false;
      }
      clockTickUpdated := false;
      utcNow := (now + offset) / 1000;
      polledAt := now;
      pc := Polled;
      return true;
    }

    /** The status dispatch at the end of clock_task: whether it ends in fatal_reset, or a request is due. */
    method TaskAct() returns (fatal: bool, due: bool)
      requires pc == Polled
      modifies `status, `error, `requestStartMs, `ntpInterval, `ntpLastSync, `pc, `anchor, `synced, `kods
      ensures Model() == Next(old(Model()), Act)
      ensures pc == if due then Requesting else if fatal then Reset else Top
    {
      fatal, due := false, false;
      if snapshot.status == Pending {
        fatal := CheckTimeout();
      } else if snapshot.status == Failed {
        fatal := true;
        pc := Reset;
      } else if snapshot.status == Kod {
        ConsumeKod();
      } else if snapshot.status == Success {
        ConsumeSuccess();
      }
      if snapshot.status == Idle {
        due := DecideRequest();
      }
    }

    method CheckTimeout() returns (fatal: bool)
      requires pc == Polled && snapshot.status == Pending
      modifies `pc
      ensures Model() == AfterAct(old(Model()))
      ensures fatal <==> pc == Reset
    {
      var nowMs := now % TWO_32;
      fatal := (nowMs - snapshot.startMs) % TWO_32 > ntpTimeout;
      pc := if fatal then Reset else Top;
    }

    method ConsumeKod()
      requires pc == Polled && snapshot.status == Kod
      modifies `status, `error, `requestStartMs, `ntpInterval, `pc, `kods
      ensures Model() == AfterAct(old(Model()))
    {
      ntpInterval := ntpInterval * 2 % TWO_32;
      var _ := AtomicStatus(Some(Idle), None, 0);
      kods := kods + 1;
      pc := Top;
    }

    method ConsumeSuccess()
      requires pc == Polled && snapshot.status == Success
      modifies `status, `error, `requestStartMs, `pc
      ensures Model() == AfterAct(old(Model()))
    {
      var _ := AtomicStatus(Some(Idle), None, 0);
      pc := Top;
    }

    method DecideRequest() returns (due: bool)
      requires pc == Polled && snapshot.status == Idle
      modifies `ntpLastSync, `pc, `anchor, `synced
      ensures Model() == AfterAct(old(Model()))
      ensures pc == if due then Requesting else Top
    {
      due := utcNow - ntpLastSync >= ntpInterval;
      if due {
        ntpLastSync := utcNow;
        anchor, synced := polledAt, false;
        pc := Requesting;
      } else {
        pc := Top;
      }
    }

    /** ntp_request_async up to the DNS query. */
    method RequestBegin()
      requires pc == Requesting && status != Pending
      modifies `status, `error, `requestStartMs, `pc, `begunAt
      ensures Model() == Next(old(Model()), Begin) && pc == Resolving
    {
      var requestStart := now % TWO_32;
      var _ := AtomicStatus(Some(Pending), Some(Ok), requestStart);
      begunAt := now;
      pc := Resolving;
    }

    /** ntp_request_async after the DNS query; an error makes the caller reset. */
    method RequestResolve(lookup: Lookup) returns (result: Error)
      requires pc == Resolving
      modifies `status, `error, `requestStartMs, `pc
      ensures Model() == Next(old(Model()), Resolve(lookup))
      ensures result == if lookup.LookupError? then DnsError else Ok
      ensures pc == if result == Ok then Top else Reset
    {
      if lookup.Resolved? {
        StartUdpRequest(lookup.send);
      } else if !lookup.InProgress? {
        pc := Reset;
        return DnsError;
      }
      pc := Top;
      return Ok;
    }

    // ----- the main loop -----

    /** A section that the code skips is a step that the machine ignores. */
    ghost method Skip(e: Event)
      requires Valid()
      requires match e
               case SetClock => pc != Syncing
               case StampSync => pc != Stamping
               case Act => pc != Polled
               case Begin => pc != Requesting
               case Resolve(_) => pc != Resolving
               case _ => false
      modifies `trace
      ensures Valid() && trace == old(trace) + [e]
    {
      assert Next(Model(), e) == Model();
      Record(e);
    }

    /** clock_task up to the tick check: the snapshot is taken and a new time is put into effect. */
    method Synchronise(gaps: seq<seq<Event>>)
      requires Valid() && pc == Top && |gaps| == 3 && forall i :: 0 <= i < 3 ==> Interrupts(gaps[i])
      modifies this
      ensures Valid() && pc == Synced
      ensures trace == WithSync(old(trace), gaps)
    {
      hide Next, Run, Model;
      TaskSnapshot();
      Record(TakeSnapshot);
      Interrupted(gaps[0]);
      var updated := TaskCheckUpdate();
      Record(CheckUpdate);
      Interrupted(gaps[1]);
      if updated {
        TaskSetClock();
        Record(SetClock);
      } else {
        Skip(SetClock);
      }
      Interrupted(gaps[2]);
      if updated {
        TaskStampSync();
        Record(StampSync);
      } else {
        Skip(StampSync);
      }
    }

    /** The tick check and what follows on a tick. */
    method Poll(gap: seq<Event>) returns (fatal: bool, due: bool)
      requires Valid() && pc == Synced && Interrupts(gap)
      modifies this
      ensures Valid() && trace == WithPoll(old(trace), gap)
      ensures pc == if due then Requesting else if fatal then Reset else Top
    {
      hide Next, Run, Model;
      fatal, due := false, false;
      var ticked := TaskCheckTick();
      Record(CheckTick);
      Interrupted(gap);
      if ticked {
        fatal, due := TaskAct();
        Record(Act);
      } else {
        Skip(Act);
      }
    }

    /** ntp_request_async, interrupted by `gap`; no request may be pending. */
    method RequestAsync(gap: seq<Event>, lookup: Lookup) returns (result: Error)
      requires Valid() && pc == Requesting && status != Pending && Interrupts(gap)
      modifies this
      ensures Valid() && trace == WithRequest(old(trace), gap, lookup)
      ensures pc == if result == Ok then Top else Reset
    {
      hide Next, Run, Model;
      RequestBegin();
      Record(Begin);
      Interrupted(gap);
      result := RequestResolve(lookup);
      Record(Resolve(lookup));
    }

    lemma NotPending()
      requires Valid() && pc == Requesting
      ensures status != Pending
    {
      hide Next, Run;
      InvInit(ntpTimeout);
      RunKeepsInv(Init(ntpTimeout), trace);
    }

    /** clock_task and the callbacks that interrupt it are one turn of the machine's loop, whatever the
        callbacks bring; true when it ends in fatal_reset. */
    method ClockTask(t: Turn) returns (fatal: bool)
      requires Valid() && pc == Top && ValidTurn(t)
      modifies this
      ensures Valid() && trace == WithTurn(old(trace), t)
      ensures pc == if fatal then Reset else Top
    {
      hide Next, Run, Model;
      Interrupted(t.before);
      Synchronise(t.gaps[..3]);
      Interrupted(t.gaps[3]);
      var due;
      fatal, due := Poll(t.gaps[4]);
      Interrupted(t.gaps[5]);
      if due {
        NotPending();
        var result := RequestAsync(t.gaps[6], t.lookup);
        fatal := result != Ok;
      } else {
        Skip(Begin);
        Interrupted(t.gaps[6]);
        Skip(Resolve(t.lookup));
      }
    }

    /** The request clock_start makes and the main loop, up to the first fatal_reset: the state is always one
        of a run of the machine. `n` turns have been made. */
    method MainLoop(boot: seq<Event>, gap: seq<Event>, lookup: Lookup, turns: seq<Turn>) returns (n: nat)
      requires Valid() && trace == [] && pc == Requesting && Interrupts(boot) && Interrupts(gap)
      requires forall i :: 0 <= i < |turns| ==> ValidTurn(turns[i])
      modifies this
      ensures n <= |turns| && trace == WithTurns(WithRequest(boot, gap, lookup), turns[..n])
      ensures Model() == StateAt(ntpTimeout, trace, |trace|) && (n < |turns| ==> pc == Reset)
      ensures forall k :: LastSet(ntpTimeout, trace, k, |trace|) ==>
                exists d: nat, t: int :: Shows(ntpTimeout, trace, d, t, k, |trace|)
    {
      hide Next, Run, Model, LastSet, Shows;
      Interrupted(boot);
      NotPending();
      var result := RequestAsync(gap, lookup);
      var fatal := result != Ok;
      n := 0;
      while n < |turns| && !fatal
        invariant n <= |turns| && Valid() && pc == if fatal then Reset else Top
        invariant trace == WithTurns(WithRequest(boot, gap, lookup), turns[..n])
      {
        fatal := ClockTask(turns[n]);
        assert turns[..n + 1][..n] == turns[..n];
        n := n + 1;
      }
      RunIsStateAt(ntpTimeout, trace, |trace|);
      assert trace[..|trace|] == trace;
      forall k: nat | LastSet(ntpTimeout, trace, k, |trace|)
        ensures exists d: nat, t: int :: Shows(ntpTimeout, trace, d, t, k, |trace|)
      {
        ClockShowsServerTime(ntpTimeout, trace, k, |trace|);
      }
    }
  }
}
