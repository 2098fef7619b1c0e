/** The NTP request machine of src/ntp.c driven by clock_task in src/clock.c. The main loop works from a
    snapshot while interrupt callbacks change the shared state, so clock_task is cut into the sections
    between which a callback can run. */
module NtpClock {
  import opened Bytes
  import opened NtpPacket

  const SYNC_INTERVAL := 86_400

  datatype Status = Idle | Kod | Success | Pending | Failed
  datatype Error = Ok | DnsError | TimeoutError | ProtocolError | MemoryError
  datatype Snapshot = Snapshot(status: Status, error: Error, startMs: nat)

  /** Where the main loop stands. */
  datatype Pc =
    | Top         // before clock_task
    | Snapped     // snapshot taken
    | Syncing     // ntp_time_updated was set and has been cleared
    | Stamping    // settimeofday done, ntp_last_sync not yet refreshed
    | Synced      // before the tick check
    | Polled      // tick seen and utc_now read
    | Requesting  // about to call ntp_request_async
    | Resolving   // request recorded, dns_gethostbyname not yet returned
    | Reset       // fatal_reset called

  datatype Send = Sent | NoMemory | SendError
  datatype Lookup = Resolved(send: Send) | InProgress | LookupError

  datatype Event =
    // the world and the interrupt callbacks, possible at any point
    | Advance(ms: nat)
    | Tick
    | DnsDone(found: bool, send: Send)
    | Datagram(addressMatches: bool, portMatches: bool, p: seq<byte>)
    // sections of the main loop, effective only where the loop stands
    | TakeSnapshot
    | CheckUpdate
    | SetClock
    | StampSync
    | CheckTick
    | Act
    | Begin
    | Resolve(lookup: Lookup)

  datatype State = State(
    // ntp_state_t
    status: Status, error: Error, startMs: nat,
    // clock_state_t
    ntpTime: int, timeUpdated: bool, tick: bool, lastSync: int, interval: nat, timeout: nat,
    // the system clock: UTC in ms is true time plus this
    offset: int,
    // the main loop
    pc: Pc, snap: Snapshot, utcNow: int,
    // true (unwrapped, monotonic) times in ms: the present, the reading behind utcNow, the last setting of
    // the clock and the start of the last request; what lastSync stands for (a setting of the clock, if
    // synced, or the decision for a request); and how many KoDs have been acted on
    now: nat, polledAt: nat, setAt: nat, begunAt: nat, anchor: nat, synced: bool, kods: nat)

  /** After clock_init and ntp_init; clock_start is about to make the first request. */
  function Init(timeout: nat): State {
    State(Idle, Ok, 0, 0, false, false, 0, SYNC_INTERVAL, timeout, 0,
          Requesting, Snapshot(Idle, Ok, 0), 0, 0, 0, 0, 0, 0, false, 0)
  }

  function Utc(s: State): int {
    (s.now + s.offset) / 1000
  }

  /** ntp_start_udp_request */
  function AfterSend(s: State, send: Send): State {
    match send
    case Sent => s
    case NoMemory => s.(status := Failed, error := MemoryError)
    case SendError => s.(status := Failed, error := ProtocolError)
  }

  function AfterDatagram(s: State, v: Verdict): State {
    match v
    case BadAddress => s.(status := Failed, error := DnsError)
    case BadPacket => s.(status := Failed, error := ProtocolError)
    case KissOfDeath => s.(status := Kod, error := Ok)
    case Unsynchronised => s.(status := Failed, error := ProtocolError)
    case Time(t) => s.(status := Success, error := Ok, ntpTime := t, timeUpdated := true)
  }

  predicate TimedOut(s: State) {
    (s.now % TWO_32 - s.snap.startMs) % TWO_32 > s.timeout
  }

  /** The end of clock_task, acting on the snapshot. */
  function AfterAct(s: State): State {
    match s.snap.status
    case Pending => if TimedOut(s) then s.(pc := Reset) else s.(pc := Top)
    case Failed => s.(pc := Reset)
    case Kod => s.(interval := s.interval * 2 % TWO_32, status := Idle, kods := s.kods + 1, pc := Top)
    case Success => s.(status := Idle, pc := Top)
    case Idle =>
      if s.utcNow - s.lastSync >= s.interval
      then s.(lastSync := s.utcNow, anchor := s.polledAt, synced := false, pc := Requesting)
      else s.(pc := Top)
  }

  function AfterBegin(s: State): State {
    var ms := s.now % TWO_32;
    s.(status := Pending, error := Ok, startMs := if ms != 0 then ms else s.startMs, begunAt := s.now, pc := Resolving)
  }

  function Next(s: State, e: Event): State {
    match e
    case Advance(ms) => s.(now := s.now + ms)
    case Tick => s.(tick := true)
    case DnsDone(found, send) => if found then AfterSend(s, send) else s.(status := Failed, error := DnsError)
    case Datagram(a, b, p) => AfterDatagram(s, Judge(a, b, p))
    case TakeSnapshot =>
      if s.pc != Top then s else s.(snap := Snapshot(s.status, s.error, s.startMs), pc := Snapped)
    case CheckUpdate =>
      if s.pc != Snapped then s else if s.timeUpdated then s.(timeUpdated := false, pc := Syncing) else s.(pc := Synced)
    case SetClock =>
      if s.pc != Syncing then s else s.(offset := s.ntpTime * 1000 - s.now, setAt := s.now, pc := Stamping)
    case StampSync =>
      if s.pc != Stamping then s else s.(lastSync := Utc(s), anchor := s.setAt, synced := true, pc := Synced)
    case CheckTick =>
      if s.pc != Synced then s
      else if s.tick then s.(tick := false, utcNow := Utc(s), polledAt := s.now, pc := Polled)
      else s.(pc := Top)
    case Act => if s.pc != Polled then s else AfterAct(s)
    case Begin => if s.pc != Requesting then s else AfterBegin(s)
    case Resolve(lookup) =>
      if s.pc != Resolving then s
      else if lookup.Resolved? then AfterSend(s, lookup.send).(pc := Top)
      else s.(pc := if lookup.LookupError? then Reset else Top)
  }

  ghost function StateAt(timeout: nat, events: seq<Event>, n: nat): State
    requires n <= |events|
  {
    if n == 0 then Init(timeout) else Next(StateAt(timeout, events, n - 1), events[n - 1])
  }

  ghost function Run(s: State, events: seq<Event>): State
    decreases |events|
  {
    if events == [] then s else Run(Next(s, events[0]), events[1..])
  }

  lemma {:induction false} RunAppend(s: State, a: seq<Event>, b: seq<Event>)
    ensures Run(s, a + b) == Run(Run(s, a), b)
    decreases |a|
  {
    hide Next;
    if a == [] {
      assert a + b == b;
    } else {
      assert (a + b)[1..] == a[1..] + b;
      RunAppend(Next(s, a[0]), a[1..], b);
    }
  }

  lemma RunOne(s: State, e: Event)
    ensures Run(s, [e]) == Next(s, e)
  {
    hide Next;
    assert [e][1..] == [];
  }

  lemma {:induction false} RunIsStateAt(timeout: nat, events: seq<Event>, n: nat)
    requires n <= |events|
    ensures StateAt(timeout, events, n) == Run(Init(timeout), events[..n])
  {
    hide Next;
    if n > 0 {
      RunIsStateAt(timeout, events, n - 1);
      RunAppend(Init(timeout), events[..n - 1], [events[n - 1]]);
      RunOne(Run(Init(timeout), events[..n - 1]), events[n - 1]);
      assert events[..n] == events[..n - 1] + [events[n - 1]];
    }
  }

  // ----- what every step keeps -----

  ghost function Pow2(k: nat): nat {
    if k == 0 then 1 else 2 * Pow2(k - 1)
  }

  /** Only the request itself makes the status Pending, so a snapshot that is not Pending stays right
      about that until the loop acts on it. */
  ghost predicate StatusInv(s: State) {
    && (s.status == Pending ==> s.pc in {Top, Resolving, Reset} || s.snap.status == Pending)
    && (s.pc == Requesting ==> s.status != Pending)
  }

  /** The clock is stepped only just before lastSync is read from it again. */
  ghost predicate ClockInv(s: State) {
    && (s.pc != Stamping && !s.synced ==> s.lastSync == (s.anchor + s.offset) / 1000)
    && (s.pc != Stamping && s.synced ==>
          (s.anchor + s.offset) % 1000 == 0 && s.lastSync >= (s.anchor + s.offset) / 1000)
    && (s.pc == Stamping ==> (s.setAt + s.offset) % 1000 == 0 && s.anchor <= s.setAt)
    && (s.pc == Polled ==> s.utcNow == (s.polledAt + s.offset) / 1000 && s.anchor <= s.polledAt)
    && s.anchor <= s.now && s.setAt <= s.now && s.polledAt <= s.now
  }

  /** The stored start is the true one, except that a start at counter value 0 is never stored. */
  ghost predicate StartInv(s: State) {
    && s.begunAt <= s.now
    && (s.begunAt % TWO_32 != 0 ==> s.startMs == s.begunAt % TWO_32)
    && (s.pc in {Snapped, Syncing, Stamping, Synced, Polled} ==> s.snap.startMs == s.startMs)
  }

  ghost predicate IntervalInv(s: State) {
    s.interval == SYNC_INTERVAL * Pow2(s.kods) % TWO_32
  }

  ghost predicate Inv(s: State) {
    StatusInv(s) && ClockInv(s) && StartInv(s) && IntervalInv(s)
  }

  lemma StatusStep(s: State, e: Event)
    requires StatusInv(s)
    ensures StatusInv(Next(s, e))
  {
  }

  lemma ClockStep(s: State, e: Event)
    requires ClockInv(s)
    ensures ClockInv(Next(s, e)) && s.anchor <= Next(s, e).anchor
  {
    match e
    case SetClock => ClockSet(s);
    case StampSync => ClockStamped(s);
    case CheckTick => ClockRead(s);
    case Act => ClockActed(s);
    case _ => QuietEvent(s, e);
  }

  /** A step that leaves the clock, its readings and what they stand for alone. */
  ghost predicate Quiet(s: State, t: State) {
    && t.lastSync == s.lastSync && t.offset == s.offset && t.utcNow == s.utcNow
    && t.polledAt == s.polledAt && t.setAt == s.setAt && t.anchor == s.anchor && t.synced == s.synced
    && s.now <= t.now && (t.pc == s.pc || (s.pc != Stamping && t.pc != Stamping && t.pc != Polled))
  }

  lemma QuietEvent(s: State, e: Event)
    requires ClockInv(s) && !e.SetClock? && !e.StampSync? && !e.CheckTick? && !e.Act?
    ensures ClockInv(Next(s, e)) && s.anchor <= Next(s, e).anchor
  {
    hide ClockInv;
    IsQuiet(s, e);
    QuietKeeps(s, Next(s, e));
  }

  lemma QuietKeeps(s: State, t: State)
    requires ClockInv(s) && Quiet(s, t)
    ensures ClockInv(t) && s.anchor <= t.anchor
  {
  }

  lemma IsQuiet(s: State, e: Event)
    requires !e.SetClock? && !e.StampSync? && !e.CheckTick? && !e.Act?
    ensures Quiet(s, Next(s, e))
  {
    hide Judge;
  }

  lemma ClockActed(s: State)
    requires ClockInv(s)
    ensures ClockInv(Next(s, Act)) && s.anchor <= Next(s, Act).anchor
  {
    if s.snap.status == Idle && Next(s, Act).pc == Requesting {
      assert s.pc == Polled || Next(s, Act) == s;
    } else {
      assert Quiet(s, Next(s, Act));
      QuietKeeps(s, Next(s, Act));
    }
  }

  lemma ClockSet(s: State)
    requires ClockInv(s)
    ensures ClockInv(Next(s, SetClock)) && s.anchor <= Next(s, SetClock).anchor
  {
  }

  lemma ClockStamped(s: State)
    requires ClockInv(s)
    ensures ClockInv(Next(s, StampSync)) && s.anchor <= Next(s, StampSync).anchor
  {
    LaterReading(s.setAt + s.offset, s.now + s.offset);
  }

  lemma ClockRead(s: State)
    requires ClockInv(s)
    ensures ClockInv(Next(s, CheckTick)) && s.anchor <= Next(s, CheckTick).anchor
  {
  }

  lemma LaterReading(a: int, b: int)
    ensures a <= b ==> a / 1000 <= b / 1000
  {
  }

  /** A step that starts no request and takes no snapshot. */
  ghost predicate Unstarted(s: State, t: State) {
    && s.now <= t.now && t.begunAt == s.begunAt && t.startMs == s.startMs
    && t.snap == s.snap && (t.pc in {Snapped, Syncing, Stamping, Synced, Polled} ==>
                              s.pc in {Snapped, Syncing, Stamping, Synced, Polled})
  }

  lemma IsUnstarted(s: State, e: Event)
    requires !e.Begin? && !e.TakeSnapshot?
    ensures Unstarted(s, Next(s, e))
  {
    hide Judge;
  }

  lemma StartStep(s: State, e: Event)
    requires StartInv(s)
    ensures StartInv(Next(s, e))
  {
    if !e.Begin? && !e.TakeSnapshot? {
      hide Next;
      IsUnstarted(s, e);
    }
  }

  lemma ModIs(x: int, q: int, r: int)
    requires x == TWO_32 * q + r && 0 <= r < TWO_32
    ensures x % TWO_32 == r
  {
  }

  lemma DoubleMod(a: nat)
    ensures (a % TWO_32) * 2 % TWO_32 == (a * 2) % TWO_32
  {
    var q, r := a / TWO_32, a % TWO_32;
    var carry := if 2 * r < TWO_32 then 0 else 1;
    ModIs(2 * r, carry, 2 * r - carry * TWO_32);
    ModIs(a * 2, 2 * q + carry, 2 * r - carry * TWO_32);
  }

  lemma IntervalStep(s: State, e: Event)
    requires IntervalInv(s)
    ensures IntervalInv(Next(s, e))
  {
    IntervalKept(s, e);
    hide Next;
    DoubleMod(SYNC_INTERVAL * Pow2(s.kods));
    assert SYNC_INTERVAL * Pow2(s.kods) * 2 == SYNC_INTERVAL * Pow2(s.kods + 1);
  }

  lemma IntervalKept(s: State, e: Event)
    ensures var t := Next(s, e);
            || (t.interval == s.interval && t.kods == s.kods)
            || (t.interval == s.interval * 2 % TWO_32 && t.kods == s.kods + 1)
  {
    hide Judge;
  }

  lemma InvStep(s: State, e: Event)
    requires Inv(s)
    ensures Inv(Next(s, e)) && Next(s, e).timeout == s.timeout
  {
    hide Next, StatusInv, ClockInv, StartInv, IntervalInv;
    StatusStep(s, e);
    ClockStep(s, e);
    StartStep(s, e);
    IntervalStep(s, e);
    TimeoutStays(s, e);
  }

  lemma TimeoutStays(s: State, e: Event)
    ensures Next(s, e).timeout == s.timeout
  {
    hide Judge;
  }

  lemma InvInit(timeout: nat)
    ensures Inv(Init(timeout))
  {
    assert Pow2(0) == 1;
  }

  lemma {:induction false} InvAlways(timeout: nat, events: seq<Event>, n: nat)
    requires n <= |events|
    ensures Inv(StateAt(timeout, events, n))
    ensures StateAt(timeout, events, n).timeout == timeout
  {
    hide Next, Inv;
    if n > 0 {
      InvAlways(timeout, events, n - 1);
      InvStep(StateAt(timeout, events, n - 1), events[n - 1]);
    } else {
      InvInit(timeout);
    }
  }

  lemma {:induction false} RunKeepsInv(s: State, events: seq<Event>)
    requires Inv(s)
    ensures Inv(Run(s, events))
    decreases |events|
  {
    hide Next, Inv;
    if events != [] {
      InvStep(s, events[0]);
      RunKeepsInv(Next(s, events[0]), events[1..]);
    }
  }

  // ----- main results, over every interleaving -----

  /** No request starts while one is pending. */
  lemma NoOverlappingRequests(timeout: nat, events: seq<Event>, n: nat)
    requires n < |events| && StateAt(timeout, events, n).pc == Requesting
    ensures StateAt(timeout, events, n).status != Pending
  {
    InvAlways(timeout, events, n);
  }

  lemma {:induction false} AnchorAdvances(timeout: nat, events: seq<Event>, i: nat, j: nat)
    requires i <= j <= |events|
    ensures StateAt(timeout, events, i).anchor <= StateAt(timeout, events, j).anchor
    decreases j
  {
    if i < j {
      AnchorAdvances(timeout, events, i, j - 1);
      InvAlways(timeout, events, j - 1);
      ClockStep(StateAt(timeout, events, j - 1), events[j - 1]);
    }
  }

  /** clock_task decides at step `n` to make a request. */
  ghost predicate Decides(timeout: nat, events: seq<Event>, n: nat)
    requires n < |events|
  {
    StateAt(timeout, events, n).pc == Polled && events[n] == Act && StateAt(timeout, events, n + 1).pc == Requesting
  }

  /** Two readings of a clock in whole seconds that differ by at least `k` are more than `k - 1` seconds
      of true time apart; they are the full `k` seconds apart unless the difference is exactly `k` and the
      second reading came earlier within its second than the first. */
  lemma WholeSeconds(a: int, b: int, offset: int, k: int)
    requires (b + offset) / 1000 - (a + offset) / 1000 >= k
    ensures b - a > 1000 * k - 1000
    ensures b - a >= 1000 * k <==> (b + offset) / 1000 - (a + offset) / 1000 > k
                                   || (b + offset) % 1000 >= (a + offset) % 1000
  {
  }

  /** When clock_task decides to make a request, the true time since the last request, or since the last
      setting of the clock if that came later, exceeds the interval less one second; it is the full interval
      exactly when the clock was set since, or the decision is not taken in the very first second at an
      earlier fraction of it. */
  lemma IntervalHasPassed(timeout: nat, events: seq<Event>, n: nat)
    requires n < |events| && Decides(timeout, events, n)
    ensures var s := StateAt(timeout, events, n);
            && s.polledAt - s.anchor > 1000 * s.interval - 1000
            && (s.polledAt - s.anchor >= 1000 * s.interval
                <==> s.synced || s.utcNow - s.lastSync > s.interval
                     || (s.polledAt + s.offset) % 1000 >= (s.anchor + s.offset) % 1000)
  {
    hide StateAt, Next;
    InvAlways(timeout, events, n);
    DecidesByNext(timeout, events, n);
    DecidedState(StateAt(timeout, events, n));
  }

  lemma DecidesByNext(timeout: nat, events: seq<Event>, n: nat)
    requires n < |events| && Decides(timeout, events, n)
    ensures Next(StateAt(timeout, events, n), Act).pc == Requesting
  {
    hide Next;
  }

  lemma DecidedState(s: State)
    requires ClockInv(s) && s.pc == Polled && Next(s, Act).pc == Requesting
    ensures s.polledAt - s.anchor > 1000 * s.interval - 1000
    ensures s.polledAt - s.anchor >= 1000 * s.interval
            <==> s.synced || s.utcNow - s.lastSync > s.interval
                 || (s.polledAt + s.offset) % 1000 >= (s.anchor + s.offset) % 1000
  {
    WholeSeconds(s.anchor, s.polledAt, s.offset, s.interval);
  }

  lemma DecisionIsAnchor(timeout: nat, events: seq<Event>, n: nat)
    requires n < |events| && Decides(timeout, events, n)
    ensures StateAt(timeout, events, n + 1).anchor == StateAt(timeout, events, n).polledAt
  {
  }

  /** Whatever the clock was stepped by in between, the readings on which two requests of clock_task are
      decided lie at least the current interval apart in true time if the clock was set since the earlier
      request, and otherwise less than one second short of it. */
  lemma RequestsApart(timeout: nat, events: seq<Event>, i: nat, j: nat)
    requires i < j < |events| && Decides(timeout, events, i) && Decides(timeout, events, j)
    ensures var s, t := StateAt(timeout, events, i), StateAt(timeout, events, j);
            && t.polledAt - s.polledAt > 1000 * t.interval - 1000
            && (t.synced ==> t.polledAt - s.polledAt >= 1000 * t.interval)
  {
    DecisionIsAnchor(timeout, events, i);
    AnchorAdvances(timeout, events, i + 1, j);
    IntervalHasPassed(timeout, events, j);
  }

  /** At step `n` a request starts. */
  ghost predicate Starts(timeout: nat, events: seq<Event>, n: nat)
    requires n < |events|
  {
    StateAt(timeout, events, n).pc == Requesting && events[n] == Begin
  }

  lemma StartStepState(s: State)
    requires s.pc == Requesting
    ensures var t := Next(s, Begin);
            && t.begunAt == s.now && t.pc != Requesting && t.interval == s.interval
            && t.anchor == s.anchor && t.polledAt == s.polledAt
  {
  }

  /** While a request is due the loop stays with the reading it was decided on. */
  lemma DueStep(s: State, e: Event)
    requires Next(s, e).pc == Requesting
    ensures s.pc == Requesting || (s.pc == Polled && e == Act)
    ensures var t := Next(s, e); t.polledAt == s.polledAt && t.interval == s.interval
    ensures (s.pc == Requesting ==> s.anchor == s.polledAt) ==> Next(s, e).anchor == Next(s, e).polledAt
  {
    hide Judge;
  }

  /** Between a point where no request is due and one where it is, it was decided. */
  lemma {:induction false} DecisionBehind(timeout: nat, events: seq<Event>, i: nat, j: nat) returns (d: nat)
    requires i < j <= |events|
    requires StateAt(timeout, events, i).pc != Requesting && StateAt(timeout, events, j).pc == Requesting
    ensures i <= d < j && Decides(timeout, events, d)
    ensures var s, t := StateAt(timeout, events, d), StateAt(timeout, events, j);
            s.polledAt == t.polledAt && s.interval == t.interval
    decreases j
  {
    hide Next;
    DueStep(StateAt(timeout, events, j - 1), events[j - 1]);
    if StateAt(timeout, events, j - 1).pc == Requesting {
      d := DecisionBehind(timeout, events, i, j - 1);
    } else {
      d := j - 1;
    }
  }

  lemma {:induction false} DueAnchor(timeout: nat, events: seq<Event>, n: nat)
    requires n <= |events| && StateAt(timeout, events, n).pc == Requesting
    ensures StateAt(timeout, events, n).anchor == StateAt(timeout, events, n).polledAt
  {
    hide Next;
    if n > 0 {
      DueStep(StateAt(timeout, events, n - 1), events[n - 1]);
      if StateAt(timeout, events, n - 1).pc == Requesting {
        DueAnchor(timeout, events, n - 1);
      }
    }
  }

  /** Two requests start at least the interval less one second apart, less the delay between the reading
      that decided the first and its start; and less that delay only, if the clock was set in between. (For
      the request at boot the delay counts from the counter's 0.) `d` is where the second one was decided. */
  lemma StartsApart(timeout: nat, events: seq<Event>, i: nat, j: nat) returns (d: nat)
    requires i < j < |events| && Starts(timeout, events, i) && Starts(timeout, events, j)
    ensures i < d < j && Decides(timeout, events, d)
    ensures var s, t := StateAt(timeout, events, i), StateAt(timeout, events, j);
            var first, second := StateAt(timeout, events, i + 1).begunAt, StateAt(timeout, events, j + 1).begunAt;
            var delay := first - s.polledAt;
            && delay >= 0 && StateAt(timeout, events, d).polledAt <= second
            && second - first > 1000 * t.interval - 1000 - delay
            && (StateAt(timeout, events, d).synced ==> second - first >= 1000 * t.interval - delay)
  {
    hide Next, Decides;
    InvAlways(timeout, events, i);
    InvAlways(timeout, events, j);
    StartStepState(StateAt(timeout, events, i));
    StartStepState(StateAt(timeout, events, j));
    d := DecisionBehind(timeout, events, i + 1, j);
    DueAnchor(timeout, events, i);
    AnchorAdvances(timeout, events, i + 1, d);
    IntervalHasPassed(timeout, events, d);
  }

  /** A pending snapshot leads to the timeout reset exactly when more than the timeout has truly elapsed,
      across the wrap of the 32-bit counter, for a request not started at counter value 0. */
  lemma TimeoutIsTrueTime(timeout: nat, events: seq<Event>, n: nat)
    requires n < |events| && events[n] == Act
    requires var s := StateAt(timeout, events, n);
             && s.pc == Polled && s.snap.status == Pending
             && s.begunAt % TWO_32 != 0 && s.now - s.begunAt < TWO_32
    ensures StateAt(timeout, events, n + 1).pc == Reset
            <==> StateAt(timeout, events, n).now - StateAt(timeout, events, n).begunAt > timeout
  {
    var s := StateAt(timeout, events, n);
    InvAlways(timeout, events, n);
    ElapsedMod(s.begunAt, s.now);
  }

  lemma ElapsedMod(a: int, b: int)
    requires a <= b < a + TWO_32
    ensures (b % TWO_32 - a % TWO_32) % TWO_32 == b - a
  {
    var qa, qb := a / TWO_32, b / TWO_32;
    assert b - a == (b % TWO_32 - a % TWO_32) + TWO_32 * (qb - qa);
  }

  /** A request begun at counter value 0 keeps the start of the request before: the elapsed time is then
      measured from there, and is right exactly when that stored start was itself 0. */
  lemma StartAtZero(s: State)
    requires s.pc == Requesting && s.now % TWO_32 == 0 && s.startMs < TWO_32
    ensures Next(s, Begin).startMs == s.startMs
    ensures (forall t: nat :: s.now <= t < s.now + TWO_32 ==> (t % TWO_32 - s.startMs) % TWO_32 == t - s.now)
            <==> s.startMs == 0
  {
    if s.startMs == 0 {
      forall t: nat | s.now <= t < s.now + TWO_32 ensures (t % TWO_32 - s.startMs) % TWO_32 == t - s.now {
        ElapsedMod(s.now, t);
      }
    } else {
      var t := s.now;
      assert (t % TWO_32 - s.startMs) % TWO_32 == TWO_32 - s.startMs;
    }
  }

  // ----- what the callbacks and the request report -----

  /** A datagram makes the status Kod, Success with a new time, or Failed, by its bytes alone. */
  lemma DatagramReports(s: State, addressMatches: bool, portMatches: bool, p: seq<byte>)
    ensures var t := Next(s, Datagram(addressMatches, portMatches, p));
            if KodBytes(addressMatches, portMatches, p) then t == s.(status := Kod, error := Ok)
            else if TimeBytes(addressMatches, portMatches, p) then
              t == s.(status := Success, error := Ok, timeUpdated := true, ntpTime := t.ntpTime) && Tells(p, t.ntpTime)
            else t == s.(status := Failed, error := if addressMatches then ProtocolError else DnsError)
  {
    hide Judge;
    DatagramMeaning(addressMatches, portMatches, p);
  }

  /** A request is recorded as pending; an unknown server, and a request that cannot be sent, are reported as
      failures with their own errors; a lookup that cannot even start resets the clock. */
  lemma RequestReports(s: State, lookup: Lookup, found: bool, send: Send)
    ensures s.pc == Requesting ==>
              var t := Next(s, Begin);
              t.status == Pending && t.error == Ok && t.begunAt == s.now && t.pc == Resolving
    ensures s.pc == Resolving && lookup == LookupError ==> Next(s, Resolve(lookup)) == s.(pc := Reset)
    ensures s.pc == Resolving && lookup == InProgress ==> Next(s, Resolve(lookup)) == s.(pc := Top)
    ensures s.pc == Resolving ==> Next(s, Resolve(Resolved(send))) == Next(s, DnsDone(true, send)).(pc := Top)
    ensures Next(s, DnsDone(false, send)) == s.(status := Failed, error := DnsError)
    ensures Next(s, DnsDone(true, Sent)) == s
    ensures Next(s, DnsDone(true, NoMemory)) == s.(status := Failed, error := MemoryError)
    ensures Next(s, DnsDone(true, SendError)) == s.(status := Failed, error := ProtocolError)
  {
  }

  /** With an idle snapshot the loop decides to make a request exactly when the clock shows the interval to
      have passed since the last synchronisation; so it does whenever the interval has truly passed since the
      last request, unless the clock was set since. */
  lemma DecidesWhenDue(timeout: nat, events: seq<Event>, n: nat)
    requires n < |events|
    ensures var s := StateAt(timeout, events, n);
            s.pc == Polled && events[n] == Act && s.snap.status == Idle ==>
              && (Decides(timeout, events, n) <==> s.utcNow - s.lastSync >= s.interval)
              && (!s.synced && s.polledAt - s.anchor >= 1000 * s.interval ==> Decides(timeout, events, n))
  {
    hide Inv;
    InvAlways(timeout, events, n);
    var s := StateAt(timeout, events, n);
    if s.pc == Polled && !s.synced && s.polledAt - s.anchor >= 1000 * s.interval {
      ReadingsOf(s);
      SecondsPass(s.anchor + s.offset, s.polledAt + s.offset, s.interval);
    }
  }

  /** The last synchronisation is stamped at step `j`, and up to `n` neither set or stamped again nor replaced by
      a request. */
  ghost predicate LastStamp(timeout: nat, events: seq<Event>, j: nat, n: nat)
    requires n <= |events|
  {
    && j < n && StateAt(timeout, events, j).pc == Stamping && events[j] == StampSync
    && forall l :: j < l < n ==> !Restamps(StateAt(timeout, events, l), events[l])
  }

  ghost predicate Restamps(s: State, e: Event) {
    || (s.pc == Syncing && e == SetClock) || (s.pc == Stamping && e == StampSync)
    || (s.pc == Polled && e == Act && Next(s, Act).pc == Requesting)
  }

  lemma StampStep(s: State, e: Event)
    ensures s.pc == Stamping && e == StampSync ==>
              Next(s, e).offset == s.offset && Next(s, e).lastSync == (s.now + s.offset) / 1000
    ensures !Restamps(s, e) ==> Next(s, e).offset == s.offset && Next(s, e).lastSync == s.lastSync
  {
    hide Judge;
  }

  lemma {:induction false} StampKept(timeout: nat, events: seq<Event>, j: nat, n: nat)
    requires n <= |events| && LastStamp(timeout, events, j, n)
    ensures var s, t := StateAt(timeout, events, j), StateAt(timeout, events, n);
            t.offset == s.offset && t.lastSync == (s.now + s.offset) / 1000
    decreases n
  {
    hide Next, Restamps;
    StampStep(StateAt(timeout, events, n - 1), events[n - 1]);
    if j < n - 1 {
      assert !Restamps(StateAt(timeout, events, n - 1), events[n - 1]);
      StampKept(timeout, events, j, n - 1);
    }
  }

  /** After a synchronisation the next request is decided on the first reading with an idle snapshot that comes a
      full interval after the stamp. */
  lemma SyncedRequestIsMade(timeout: nat, events: seq<Event>, j: nat, n: nat)
    requires j < n < |events|
    ensures var s := StateAt(timeout, events, n);
            LastStamp(timeout, events, j, n) && s.pc == Polled && events[n] == Act && s.snap.status == Idle
            && s.polledAt - StateAt(timeout, events, j).now >= 1000 * s.interval
            ==> Decides(timeout, events, n)
  {
    var s := StateAt(timeout, events, n);
    if LastStamp(timeout, events, j, n) && s.pc == Polled && events[n] == Act && s.snap.status == Idle
       && s.polledAt - StateAt(timeout, events, j).now >= 1000 * s.interval
    {
      hide Inv, Next, LastStamp;
      StampKept(timeout, events, j, n);
      DecidesWhenDue(timeout, events, n);
      InvAlways(timeout, events, n);
      PolledReading(s);
      SecondsPass(StateAt(timeout, events, j).now + s.offset, s.polledAt + s.offset, s.interval);
    }
  }

  lemma PolledReading(s: State)
    requires Inv(s) && s.pc == Polled
    ensures s.utcNow == (s.polledAt + s.offset) / 1000
  {
  }

  // ----- acting on ticks -----

  ghost function Ticks(events: seq<Event>, n: nat): nat
    requires n <= |events|
  {
    if n == 0 then 0 else Ticks(events, n - 1) + (if events[n - 1] == Tick then 1 else 0)
  }

  ghost function Actions(timeout: nat, events: seq<Event>, n: nat): nat
    requires n <= |events|
  {
    if n == 0 then 0
    else Actions(timeout, events, n - 1)
         + (if StateAt(timeout, events, n - 1).pc == Polled && events[n - 1] == Act then 1 else 0)
  }

  lemma TickStep(s: State, e: Event)
    ensures var t := Next(s, e);
            && (t.pc == Polled ==> s.pc == Polled || (s.pc == Synced && e == CheckTick && s.tick && !t.tick))
            && (s.pc == Polled && e == Act ==> t.pc != Polled)
            && (t.tick ==> s.tick || e == Tick) && (e == Tick ==> t.tick)
            && (s.pc == Synced && e == CheckTick ==> (t.pc == Polled <==> s.tick))
  {
    hide Judge;
  }

  /** The loop acts at most once for every tick of the timer. */
  lemma {:induction false} ActsOnTicks(timeout: nat, events: seq<Event>, n: nat)
    requires n <= |events|
    ensures var s := StateAt(timeout, events, n);
            Actions(timeout, events, n) + (if s.tick then 1 else 0) + (if s.pc == Polled then 1 else 0)
            <= Ticks(events, n)
  {
    hide Next;
    if n > 0 {
      ActsOnTicks(timeout, events, n - 1);
      TickStep(StateAt(timeout, events, n - 1), events[n - 1]);
    }
  }

  /** And it does act on a tick that it finds. */
  lemma TickIsSeen(s: State)
    requires s.pc == Synced
    ensures Next(s, CheckTick).pc == if s.tick then Polled else Top
  {
  }

  lemma ReadingsOf(s: State)
    requires Inv(s) && s.pc == Polled && !s.synced
    ensures s.utcNow == (s.polledAt + s.offset) / 1000 && s.lastSync == (s.anchor + s.offset) / 1000
  {
  }

  lemma SecondsPass(a: int, b: int, k: int)
    requires b - a >= 1000 * k
    ensures b / 1000 - a / 1000 >= k
  {
  }

  lemma {:induction false} Pow2AtLeast(k: nat, p: nat)
    requires k <= p
    ensures Pow2(p) >= Pow2(k)
    decreases p
  {
    if k < p {
      Pow2AtLeast(k, p - 1);
    }
  }

  lemma {:induction false} WrappedToZero(k: nat)
    requires k >= 25
    ensures SYNC_INTERVAL * Pow2(k) % TWO_32 == 0
  {
    if k == 25 {
      PowersTo24();
      assert Pow2(25) == 2 * Pow2(24);
    } else {
      WrappedToZero(k - 1);
      DoubleMod(SYNC_INTERVAL * Pow2(k - 1));
      assert SYNC_INTERVAL * Pow2(k) == SYNC_INTERVAL * Pow2(k - 1) * 2;
    }
  }

  lemma PowersTo24()
    ensures Pow2(15) == 32_768 && Pow2(16) == 65_536 && Pow2(17) == 131_072 && Pow2(18) == 262_144
    ensures Pow2(19) == 524_288 && Pow2(20) == 1_048_576 && Pow2(21) == 2_097_152 && Pow2(22) == 4_194_304
    ensures Pow2(23) == 8_388_608 && Pow2(24) == 16_777_216
  {
    assert Pow2(1) == 2 * Pow2(0) && Pow2(2) == 2 * Pow2(1) && Pow2(3) == 2 * Pow2(2) && Pow2(4) == 2 * Pow2(3);
    assert Pow2(5) == 2 * Pow2(4) && Pow2(6) == 2 * Pow2(5) && Pow2(7) == 2 * Pow2(6) && Pow2(8) == 2 * Pow2(7);
    assert Pow2(9) == 2 * Pow2(8) && Pow2(10) == 2 * Pow2(9) && Pow2(11) == 2 * Pow2(10) && Pow2(12) == 2 * Pow2(11);
    assert Pow2(13) == 2 * Pow2(12) && Pow2(14) == 2 * Pow2(13) && Pow2(15) == 2 * Pow2(14) && Pow2(16) == 2 * Pow2(15);
    assert Pow2(17) == 2 * Pow2(16) && Pow2(18) == 2 * Pow2(17) && Pow2(19) == 2 * Pow2(18) && Pow2(20) == 2 * Pow2(19);
    assert Pow2(21) == 2 * Pow2(20) && Pow2(22) == 2 * Pow2(21) && Pow2(23) == 2 * Pow2(22) && Pow2(24) == 2 * Pow2(23);
  }

  lemma IntervalMod(k: nat)
    ensures var exact := SYNC_INTERVAL * Pow2(k);
            (exact % TWO_32 == exact <==> k <= 15) && (exact % TWO_32 == 0 <==> k >= 25)
  {
    PowersTo24();
    if k <= 15 {
      Pow2AtLeast(k, 15);
      Pow2AtLeast(0, k);
    } else {
      Pow2AtLeast(16, k);
      if k >= 25 {
        WrappedToZero(k);
      }
    }
  }

  /** After `k` KoDs have been acted on the interval is 86,400 * 2^k seconds exactly as long as k <= 15;
      it wraps from the sixteenth on, and from the twenty-fifth on it is zero. */
  lemma BackOff(timeout: nat, events: seq<Event>, n: nat)
    requires n <= |events|
    ensures var s := StateAt(timeout, events, n);
            && (s.interval == 86_400 * Pow2(s.kods) <==> s.kods <= 15)
            && (s.interval == 0 <==> s.kods >= 25)
  {
    InvAlways(timeout, events, n);
    var s := StateAt(timeout, events, n);
    IntervalMod(s.kods);
  }
}
