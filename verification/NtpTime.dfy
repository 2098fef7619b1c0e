/** What time the clock shows: the time that the last server's answer brought, carried on in true time. */
module NtpTime {
  import opened NtpPacket
  import opened NtpClock

  /** A datagram that is a time, by its bytes. */
  predicate IsTime(e: Event) {
    e.Datagram? && TimeBytes(e.addressMatches, e.portMatches, e.p)
  }

  predicate Brings(e: Event, t: int) {
    IsTime(e) && Tells(e.p, t)
  }

  /** `d` is the last datagram before `n` that brings a time, and `t` is the time. */
  ghost predicate LastTime(events: seq<Event>, d: nat, n: nat, t: int)
    requires n <= |events|
  {
    d < n && Brings(events[d], t) && forall l :: d < l < n ==> !IsTime(events[l])
  }

  /** The clock is set at step `k`. */
  ghost predicate Sets(timeout: nat, events: seq<Event>, k: nat)
    requires k < |events|
  {
    StateAt(timeout, events, k).pc == Syncing && events[k] == SetClock
  }

  /** Step `k` is the last before `n` at which it is set. */
  ghost predicate LastSet(timeout: nat, events: seq<Event>, k: nat, n: nat)
    requires n <= |events|
  {
    k < n && Sets(timeout, events, k) && forall l :: k < l < n ==> !Sets(timeout, events, l)
  }

  lemma TimeStep(s: State, e: Event)
    ensures var t := Next(s, e);
            && (IsTime(e) ==> t.timeUpdated && Brings(e, t.ntpTime))
            && (!IsTime(e) ==> t.ntpTime == s.ntpTime && (t.timeUpdated ==> s.timeUpdated)
                               && (t.pc == Syncing ==> s.pc == Syncing || s.timeUpdated))
  {
    if e.Datagram? {
      hide Next;
      DatagramReports(s, e.addressMatches, e.portMatches, e.p);
    }
  }

  /** A time that waits to be taken, or is being taken, is the last one that was brought. */
  lemma {:induction false} TimeHeld(timeout: nat, events: seq<Event>, n: nat) returns (d: nat)
    requires n <= |events|
    requires StateAt(timeout, events, n).timeUpdated || StateAt(timeout, events, n).pc == Syncing
    ensures LastTime(events, d, n, StateAt(timeout, events, n).ntpTime)
  {
    hide Next, IsTime;
    if n > 0 {
      TimeStep(StateAt(timeout, events, n - 1), events[n - 1]);
      if IsTime(events[n - 1]) {
        d := n - 1;
      } else {
        d := TimeHeld(timeout, events, n - 1);
      }
    }
  }

  lemma OffsetStep(s: State, e: Event)
    ensures var t := Next(s, e);
            if s.pc == Syncing && e == SetClock then t.offset == 1000 * s.ntpTime - s.now
            else t.offset == s.offset
  {
    hide Judge;
  }

  lemma {:induction false} OffsetKept(timeout: nat, events: seq<Event>, k: nat, n: nat)
    requires n <= |events| && LastSet(timeout, events, k, n)
    ensures StateAt(timeout, events, n).offset
            == 1000 * StateAt(timeout, events, k).ntpTime - StateAt(timeout, events, k).now
    decreases n
  {
    hide Next;
    OffsetStep(StateAt(timeout, events, n - 1), events[n - 1]);
    if k < n - 1 {
      assert !Sets(timeout, events, n - 1);
      OffsetKept(timeout, events, k, n - 1);
    }
  }

  /** The clock shows at `n` the time that datagram `d` brought, carried on since step `k`. */
  ghost predicate Shows(timeout: nat, events: seq<Event>, d: nat, t: int, k: nat, n: nat)
    requires n <= |events|
  {
    && k < n && LastTime(events, d, k, t)
    && var s := StateAt(timeout, events, n);
       && s.now + s.offset == 1000 * t + (s.now - StateAt(timeout, events, k).now)
       && Utc(s) == t + (s.now - StateAt(timeout, events, k).now) / 1000
       && (s.pc == Polled ==> s.utcNow == t + (s.polledAt - StateAt(timeout, events, k).now) / 1000)
  }

  /** In every interleaving: from when the clock is set until it is set again, it shows the time that the last
      genuine answer before had brought, plus the true time since, and the loop reads that. */
  lemma ClockShowsServerTime(timeout: nat, events: seq<Event>, k: nat, n: nat)
    requires n <= |events| && LastSet(timeout, events, k, n)
    ensures exists d: nat, t: int :: Shows(timeout, events, d, t, k, n)
  {
    hide Next, Inv, LastTime;
    var d := TimeHeld(timeout, events, k);
    OffsetKept(timeout, events, k, n);
    InvAlways(timeout, events, n);
    var s, t := StateAt(timeout, events, n), StateAt(timeout, events, k).ntpTime;
    ReadingNow(s);
    WholeTime(t, s.now - StateAt(timeout, events, k).now);
    WholeTime(t, s.polledAt - StateAt(timeout, events, k).now);
    assert Shows(timeout, events, d, t, k, n);
  }

  lemma ReadingNow(s: State)
    requires Inv(s)
    ensures s.pc == Polled ==> s.utcNow == (s.polledAt + s.offset) / 1000
  {
  }

  lemma WholeTime(t: int, ms: int)
    ensures (1000 * t + ms) / 1000 == t + ms / 1000
  {
  }

  /** A time that has been brought is taken: the next turn of the loop that looks sets the clock. */
  lemma {:induction false} TimeIsTaken(timeout: nat, events: seq<Event>, d: nat, k: nat)
    requires d < k < |events| && IsTime(events[d])
    requires StateAt(timeout, events, k).pc == Snapped && events[k] == CheckUpdate
    requires forall l :: d < l < k ==> !(StateAt(timeout, events, l).pc == Snapped && events[l] == CheckUpdate)
    ensures StateAt(timeout, events, k + 1).pc == Syncing && !StateAt(timeout, events, k + 1).timeUpdated
  {
    hide Next, IsTime;
    StillUpdated(timeout, events, d, k);
    Looks(StateAt(timeout, events, k));
  }

  lemma {:induction false} StillUpdated(timeout: nat, events: seq<Event>, d: nat, n: nat)
    requires d < n <= |events| && IsTime(events[d])
    requires forall l :: d < l < n ==> !(StateAt(timeout, events, l).pc == Snapped && events[l] == CheckUpdate)
    ensures StateAt(timeout, events, n).timeUpdated
    decreases n
  {
    hide Next, IsTime;
    TimeStep(StateAt(timeout, events, n - 1), events[n - 1]);
    if d < n - 1 {
      StillUpdated(timeout, events, d, n - 1);
      UpdateStays(StateAt(timeout, events, n - 1), events[n - 1]);
    }
  }

  lemma UpdateStays(s: State, e: Event)
    requires s.timeUpdated && !(s.pc == Snapped && e == CheckUpdate)
    ensures Next(s, e).timeUpdated
  {
    hide Judge;
  }

  lemma Looks(s: State)
    requires s.pc == Snapped && s.timeUpdated
    ensures Next(s, CheckUpdate).pc == Syncing && !Next(s, CheckUpdate).timeUpdated
  {
  }
}
