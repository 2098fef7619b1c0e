/** Runs within the clock's own timers in which the time between two requests falls short of the interval,
    by every number of milliseconds below 1000: time(NULL) counts whole seconds, and the main loop may be late
    for a tick. */
module NtpShortGap {
  import opened Bytes
  import opened NtpPacket
  import opened NtpClock
  import opened NtpTimers

  // ----- one turn of the loop -----

  const TURN: seq<Event> := [TakeSnapshot, CheckUpdate, CheckTick, Act]

  /** The loop is about to notice a tick, on a clock that has never been set. */
  predicate Ticked(d: Timed) {
    d.s.pc == Top && d.s.tick && !d.s.timeUpdated && d.s.offset == 0
  }

  function AfterTurn(d: Timed): Timed {
    d.(s := Next(Next(Next(Next(d.s, TakeSnapshot), CheckUpdate), CheckTick), Act), sinceFed := 0)
  }

  lemma Turn(d: Timed)
    requires Ticked(d)
    ensures Leads(d, TURN, AfterTurn(d))
  {
    var d1 := After(d, TakeSnapshot);
    var d2 := After(d1, CheckUpdate);
    var d3 := After(d2, CheckTick);
    One(d, TakeSnapshot);
    One(d1, CheckUpdate);
    One(d2, CheckTick);
    One(d3, Act);
    Then(d, [TakeSnapshot], d1, [CheckUpdate], d2);
    Then(d, [TakeSnapshot] + [CheckUpdate], d2, [CheckTick], d3);
    Then(d, [TakeSnapshot] + [CheckUpdate] + [CheckTick], d3, [Act], After(d3, Act));
    assert TURN == [TakeSnapshot] + [CheckUpdate] + [CheckTick] + [Act];
  }

  lemma TurnOnIdle(d: Timed)
    requires Ticked(d) && d.s.status == Idle
    ensures var t, utc := AfterTurn(d).s, d.s.now / 1000;
            t == d.s.(snap := t.snap, utcNow := utc, polledAt := d.s.now, tick := false, pc := Top)
            || t == d.s.(snap := t.snap, utcNow := utc, polledAt := d.s.now, tick := false, pc := Requesting,
                         lastSync := utc, anchor := d.s.now, synced := false)
    ensures AfterTurn(d).s.pc == Requesting <==> d.s.now / 1000 - d.s.lastSync >= d.s.interval
  {
  }

  lemma TurnOnKod(d: Timed)
    requires Ticked(d) && d.s.status == Kod
    ensures var t := AfterTurn(d).s;
            t == d.s.(snap := t.snap, utcNow := d.s.now / 1000, polledAt := d.s.now, tick := false, pc := Top,
                      status := Idle, interval := d.s.interval * 2 % TWO_32, kods := d.s.kods + 1)
  {
  }

  // ----- waiting, one second after another -----

  /** One tick, which the loop gets to `late` ms afterwards. */
  function Second(late: nat): seq<Event> {
    [Advance(TICK_MS)] + [Tick] + [Advance(late)] + TURN
  }

  function Seconds(n: nat): seq<Event> {
    if n == 0 then [] else Seconds(n - 1) + Second(0)
  }

  /** No request under way, and the loop has just kept up with a tick. */
  predicate Waiting(d: Timed, lastSync: int, interval: nat, now: nat, begunAt: nat) {
    && d.s.pc == Top && d.s.status == Idle && !d.s.tick && !d.s.timeUpdated && d.s.offset == 0
    && d.s.lastSync == lastSync && d.s.interval == interval && d.s.now == now && d.s.begunAt == begunAt
    && d.armed && d.untilTick == TICK_MS && d.sinceFed == 0
  }

  function AtTick(d: Timed, late: nat): Timed
    requires late < TICK_MS
  {
    d.(s := d.s.(now := d.s.now + TICK_MS + late, tick := true),
       untilTick := TICK_MS - late, sinceFed := TICK_MS + late)
  }

  lemma OneSecond(d: Timed, late: nat)
    requires d.armed && d.untilTick == TICK_MS && d.sinceFed == 0 && late < TICK_MS && Ticked(AtTick(d, late))
    ensures Leads(d, Second(late), AfterTurn(AtTick(d, late)))
  {
    var d1 := After(d, Advance(TICK_MS));
    var d2 := After(d1, Tick);
    One(d, Advance(TICK_MS));
    One(d1, Tick);
    One(d2, Advance(late));
    Turn(AtTick(d, late));
    Then(d, [Advance(TICK_MS)], d1, [Tick], d2);
    Then(d, [Advance(TICK_MS)] + [Tick], d2, [Advance(late)], AtTick(d, late));
    Then(d, [Advance(TICK_MS)] + [Tick] + [Advance(late)], AtTick(d, late), TURN, AfterTurn(AtTick(d, late)));
  }

  /** A second in which nothing is due leaves the clock waiting. */
  lemma {:induction false} IdleSeconds(d: Timed, n: nat, lastSync: int, interval: nat, now: nat, begunAt: nat)
      returns (t: Timed)
    requires Waiting(d, lastSync, interval, now, begunAt) && (now + TICK_MS * n) / 1000 - lastSync < interval
    ensures Leads(d, Seconds(n), t) && Waiting(t, lastSync, interval, now + TICK_MS * n, begunAt)
  {
    if n == 0 {
      t := d;
    } else {
      t := IdleSeconds(d, n - 1, lastSync, interval, now, begunAt);
      var before := t;
      TurnOnIdle(AtTick(before, 0));
      OneSecond(before, 0);
      t := AfterTurn(AtTick(before, 0));
      Then(d, Seconds(n - 1), before, Second(0), t);
    }
  }

  // ----- a short gap -----

  /** The request is sent and refused, and the refusal noticed on the next tick. */
  function Refused(wait: nat): seq<Event> {
    [Resolve(Resolved(Sent))] + [Datagram(true, true, Kiss())] + [Advance(wait)] + [Tick] + TURN
  }

  /** The request made at boot is refused; the next one is decided `late` ms behind the tick on which it
      is due. */
  function ToFirst(late: nat): seq<Event> {
    [Advance(2_500)] + [Begin] + Refused(1_500) + Seconds(172_795) + Second(late)
  }

  /** It is refused as well; the one after is decided right on its tick. */
  function ToSecond(late: nat): seq<Event>
    requires late < TICK_MS
  {
    [Begin] + Refused(TICK_MS - late) + Seconds(345_598) + Second(0)
  }

  predicate Due(d: Timed, lastSync: int, interval: nat, now: nat, begunAt: nat) {
    && d.s.pc == Requesting && d.s.status == Idle && !d.s.tick && !d.s.timeUpdated && d.s.offset == 0
    && d.s.lastSync == lastSync && d.s.interval == interval && d.s.now == now && d.s.begunAt == begunAt
  }

  /** From a request that starts, to the noticing of its refusal on the next tick. */
  lemma RefusedRound(d: Timed, wait: nat) returns (t: Timed)
    requires d.s.pc == Resolving && d.s.status == Pending && !d.s.tick && !d.s.timeUpdated && d.s.offset == 0
    requires d.untilTick == wait && d.sinceFed + wait < WATCHDOG_MS
    ensures Leads(d, Refused(wait), t)
    ensures Waiting(t, d.s.lastSync, d.s.interval * 2 % TWO_32, d.s.now + wait, d.s.begunAt)
  {
    var sent, kiss := Resolve(Resolved(Sent)), Datagram(true, true, Kiss());
    var d1 := After(d, sent);
    var d2 := After(d1, kiss);
    var d3 := After(d2, Advance(wait));
    var d4 := After(d3, Tick);
    assert Judge(true, true, Kiss()) == KissOfDeath;
    One(d, sent);
    One(d1, kiss);
    One(d2, Advance(wait));
    One(d3, Tick);
    Turn(d4);
    TurnOnKod(d4);
    t := AfterTurn(d4);
    Then(d, [sent], d1, [kiss], d2);
    Then(d, [sent] + [kiss], d2, [Advance(wait)], d3);
    Then(d, [sent] + [kiss] + [Advance(wait)], d3, [Tick], d4);
    Then(d, [sent] + [kiss] + [Advance(wait)] + [Tick], d4, TURN, t);
  }

  /** Waiting out the rest of an interval; the last tick is noticed `late` ms behind. */
  lemma LateDecision(d: Timed, late: nat, lastSync: int, interval: nat, now: nat, begunAt: nat) returns (t: Timed)
    requires Waiting(d, lastSync, interval, now, begunAt) && late < TICK_MS
    requires (now + TICK_MS + late) / 1000 - lastSync >= interval
    ensures Leads(d, Second(late), t)
    ensures Due(t, (now + TICK_MS + late) / 1000, interval, now + TICK_MS + late, begunAt)
    ensures t.armed && t.untilTick == TICK_MS - late && t.sinceFed == 0
  {
    OneSecond(d, late);
    TurnOnIdle(AtTick(d, late));
    t := AfterTurn(AtTick(d, late));
  }

  lemma FirstDue(late: nat) returns (d: Timed)
    requires late < TICK_MS
    ensures Leads(Booted(10_000), ToFirst(late), d)
    ensures Due(d, 172_800, 172_800, 172_800_000 + late, 2_500)
    ensures d.armed && d.untilTick == TICK_MS - late && d.sinceFed == 0
  {
    hide Live;
    var d0 := Booted(10_000);
    var d1 := After(d0, Advance(2_500));
    var d2 := After(d1, Begin);
    One(d0, Advance(2_500));
    One(d1, Begin);
    var d3 := RefusedRound(d2, 1_500);
    var d4 := IdleSeconds(d3, 172_795, 0, 172_800, 4_000, 2_500);
    d := LateDecision(d4, late, 0, 172_800, 172_799_000, 2_500);
    Then(d0, [Advance(2_500)], d1, [Begin], d2);
    Then(d0, [Advance(2_500)] + [Begin], d2, Refused(1_500), d3);
    Then(d0, [Advance(2_500)] + [Begin] + Refused(1_500), d3, Seconds(172_795), d4);
    Then(d0, [Advance(2_500)] + [Begin] + Refused(1_500) + Seconds(172_795), d4, Second(late), d);
  }

  lemma SecondDue(d: Timed, late: nat) returns (t: Timed)
    requires late < TICK_MS && Due(d, 172_800, 172_800, 172_800_000 + late, 2_500)
    requires d.armed && d.untilTick == TICK_MS - late && d.sinceFed == 0
    ensures Leads(d, ToSecond(late), t)
    ensures Due(t, 518_400, 345_600, 518_400_000, 172_800_000 + late)
  {
    hide Live;
    var start := 172_800_000 + late;
    var d1 := After(d, Begin);
    One(d, Begin);
    var d2 := RefusedRound(d1, TICK_MS - late);
    var d3 := IdleSeconds(d2, 345_598, 172_800, 345_600, 172_801_000, start);
    t := LateDecision(d3, 0, 172_800, 345_600, 518_399_000, start);
    Then(d, [Begin], d1, Refused(TICK_MS - late), d2);
    Then(d, [Begin] + Refused(TICK_MS - late), d2, Seconds(345_598), d3);
    Then(d, [Begin] + Refused(TICK_MS - late) + Seconds(345_598), d3, Second(0), t);
  }

  function ShortRun(late: nat): seq<Event>
    requires late < TICK_MS
  {
    ToFirst(late) + ToSecond(late) + [Begin]
  }

  lemma BeginsWithBegin(late: nat)
    requires late < TICK_MS
    ensures ToSecond(late) != [] && ToSecond(late)[0] == Begin
  {
  }

  /** Two requests can start any number of milliseconds below 1000 short of the interval in force, while
      the timer ticks every second and no tick is noticed as much as a second late. */
  lemma ShortGapIsPossible(late: nat)
    requires late < TICK_MS
    ensures Realisable(10_000, ShortRun(late))
    ensures var events, i := ShortRun(late), |ToFirst(late)|; var j := i + |ToSecond(late)|;
            && i < j < |events| && Starts(10_000, events, i) && Starts(10_000, events, j)
            && var t := StateAt(10_000, events, j + 1);
               && t.interval == 345_600
               && t.begunAt - StateAt(10_000, events, i + 1).begunAt == 1000 * t.interval - late
  {
    hide Live, Next, Inv, Decides, ToFirst, ToSecond;
    var events, a, b := ShortRun(late), ToFirst(late), ToSecond(late);
    var d := FirstDue(late);
    var t := SecondDue(d, late);
    Then(Booted(10_000), a, d, b, t);
    One(t, Begin);
    Then(Booted(10_000), a + b, t, [Begin], After(t, Begin));
    assert events[..|a|] == a && events[..|a| + |b|] == a + b;
    StateBehind(10_000, events, |a|, d);
    StateBehind(10_000, events, |a| + |b|, t);
    BeginsWithBegin(late);
    assert events[|a|] == b[0];
    StartStepState(d.s);
    StartStepState(t.s);
  }
}
