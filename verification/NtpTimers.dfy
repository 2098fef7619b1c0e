/** Runs of the NTP machine that keep to the clock's own timers: the 1 Hz tick and the watchdog, which only a
    consumed tick feeds (clock_start and clock_task in src/clock.c). */
module NtpTimers {
  import opened Bytes
  import opened NtpClock

  const TICK_MS := 1_000
  const FIRST_TICK_MS := 1_500   // sleep_ms(500), then the repeating timer
  const WATCHDOG_MS := 5_000     // WATCHDOG_TIMEOUT_MS

  /** The clock and its timers; they are armed when the first request has been made. */
  datatype Timed = Timed(s: State, armed: bool, untilTick: nat, sinceFed: nat)

  function Booted(timeout: nat): Timed {
    Timed(Init(timeout), false, FIRST_TICK_MS, 0)
  }

  /** No tick is skipped or made up, and the watchdog does not bite. */
  predicate Permitted(d: Timed, e: Event) {
    match e
    case Advance(ms) => d.armed ==> ms <= d.untilTick && d.sinceFed + ms < WATCHDOG_MS
    case Tick => d.armed && d.untilTick == 0
    case _ => true
  }

  function After(d: Timed, e: Event): Timed
    requires Permitted(d, e)
  {
    Timed(Next(d.s, e),
          d.armed || (e.Resolve? && d.s.pc == Resolving),
          if e.Tick? then TICK_MS else if e.Advance? && d.armed then d.untilTick - e.ms else d.untilTick,
          if e == CheckTick && d.s.pc == Synced && d.s.tick then 0
          else if e.Advance? && d.armed then d.sinceFed + e.ms else d.sinceFed)
  }

  /** The device after the events, if it can go through them. */
  function Live(d: Timed, events: seq<Event>): Option<Timed>
    decreases |events|
  {
    if events == [] then Some(d)
    else if !Permitted(d, events[0]) then None
    else Live(After(d, events[0]), events[1..])
  }

  ghost predicate Realisable(timeout: nat, events: seq<Event>) {
    Live(Booted(timeout), events).Some?
  }

  lemma {:induction false} LiveIsRun(d: Timed, events: seq<Event>)
    ensures Live(d, events).Some? ==> Live(d, events).value.s == Run(d.s, events)
    decreases |events|
  {
    if events != [] && Permitted(d, events[0]) {
      LiveIsRun(After(d, events[0]), events[1..]);
    }
  }

  lemma {:induction false} LiveAppend(d: Timed, a: seq<Event>, b: seq<Event>)
    ensures Live(d, a + b) == if Live(d, a).None? then None else Live(Live(d, a).value, b)
    decreases |a|
  {
    hide Permitted, After;
    if a == [] {
      assert a + b == b;
    } else {
      assert (a + b)[1..] == a[1..] + b;
      if Permitted(d, a[0]) {
        LiveAppend(After(d, a[0]), a[1..], b);
      }
    }
  }

  /** `events` takes the device from `d` to `t`. */
  ghost predicate Leads(d: Timed, events: seq<Event>, t: Timed) {
    Live(d, events) == Some(t)
  }

  lemma Then(d: Timed, a: seq<Event>, t: Timed, b: seq<Event>, u: Timed)
    requires Leads(d, a, t) && Leads(t, b, u)
    ensures Leads(d, a + b, u)
  {
    LiveAppend(d, a, b);
  }

  lemma One(d: Timed, e: Event)
    requires Permitted(d, e)
    ensures Leads(d, [e], After(d, e))
  {
    assert [e][1..] == [];
  }

  /** Where a prefix leads is the state of the run there. */
  lemma StateBehind(timeout: nat, events: seq<Event>, n: nat, d: Timed)
    requires n <= |events| && Leads(Booted(timeout), events[..n], d)
    ensures StateAt(timeout, events, n) == d.s
  {
    LiveIsRun(Booted(timeout), events[..n]);
    RunIsStateAt(timeout, events, n);
  }
}
