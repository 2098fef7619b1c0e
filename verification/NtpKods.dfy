/** What becomes of the KoDs and failures that arrive at the NTP machine: the callbacks only write the shared
    status, and the main loop acts on a snapshot of it. */
module NtpKods {
  import opened Bytes
  import opened NtpPacket
  import opened NtpClock
  import opened NtpTimers

  // ----- one step -----

  /** A kiss-o'-death, by its bytes. */
  ghost predicate IsKod(e: Event) {
    e.Datagram? && e.addressMatches && e.portMatches && |e.p| == 48 && e.p[0] % 8 == 4 && e.p[1] == 0
  }

  /** The loop is working from a snapshot. */
  predicate Working(pc: Pc) {
    pc in {Snapped, Syncing, Stamping, Synced, Polled}
  }

  /** The step assigns the shared status, perhaps the value it had. */
  predicate Writes(s: State, e: Event) {
    match e
    case DnsDone(found, send) => !found || send != Sent
    case Datagram(_, _, _) => true
    case Act => s.pc == Polled && s.snap.status in {Kod, Success}
    case Begin => s.pc == Requesting
    case Resolve(lookup) => s.pc == Resolving && lookup.Resolved? && lookup.send != Sent
    case _ => false
  }

  lemma DatagramStatus(s: State, v: Verdict)
    ensures var t := AfterDatagram(s, v);
            t.pc == s.pc && t.snap == s.snap && t.kods == s.kods && (t.status == Kod <==> v == KissOfDeath)
  {
  }

  lemma StatusAfter(s: State, e: Event)
    ensures !Writes(s, e) ==> Next(s, e).status == s.status
    ensures Writes(s, e) ==> (Next(s, e).status == Kod <==> IsKod(e))
  {
    match e
    case Datagram(a, b, p) =>
      hide Judge;
      DatagramMeaning(a, b, p);
      DatagramStatus(s, Judge(a, b, p));
    case _ =>
  }

  lemma LoopStep(s: State, e: Event)
    ensures var t := Next(s, e);
            && (s.pc == Top && e == TakeSnapshot ==> t.snap.status == s.status && Working(t.pc))
            && (!(s.pc == Top && e == TakeSnapshot) ==> t.snap == s.snap && (Working(t.pc) ==> Working(s.pc)))
            && t.kods == s.kods + (if s.pc == Polled && e == Act && s.snap.status == Kod then 1 else 0)
            && (s.pc == Polled && e == Act ==> !Working(t.pc))
  {
    if e.Datagram? || e.DnsDone? {
      hide Next;
      AnswerWrites(s, e);
    }
  }

  // ----- no KoD counts twice -----

  /** A KoD that has arrived and not yet been acted on. */
  ghost predicate KodWaiting(s: State) {
    s.status == Kod || (Working(s.pc) && s.snap.status == Kod)
  }

  ghost function KodsReceived(events: seq<Event>, n: nat): nat
    requires n <= |events|
  {
    if n == 0 then 0 else KodsReceived(events, n - 1) + (if IsKod(events[n - 1]) then 1 else 0)
  }

  lemma KodStep(s: State, e: Event)
    ensures var t := Next(s, e);
            t.kods + (if KodWaiting(t) then 1 else 0)
            <= s.kods + (if KodWaiting(s) then 1 else 0) + (if IsKod(e) then 1 else 0)
  {
    hide Next, IsKod;
    StatusAfter(s, e);
    LoopStep(s, e);
  }

  /** No KoD counts twice: the interval is doubled at most once for every KoD the server sent. */
  lemma {:induction false} DoublingsAreCaused(timeout: nat, events: seq<Event>, n: nat)
    requires n <= |events|
    ensures var s := StateAt(timeout, events, n);
            s.kods + (if KodWaiting(s) then 1 else 0) <= KodsReceived(events, n)
  {
    if n > 0 {
      DoublingsAreCaused(timeout, events, n - 1);
      KodStep(StateAt(timeout, events, n - 1), events[n - 1]);
    }
  }

  // ----- exactly what the loop acts on -----

  ghost predicate NoWrites(timeout: nat, events: seq<Event>, from: nat, to: nat)
    requires to <= |events|
  {
    forall l :: from <= l < to ==> !Writes(StateAt(timeout, events, l), events[l])
  }

  ghost predicate TakesSnapshot(timeout: nat, events: seq<Event>, k: nat)
    requires k < |events|
  {
    StateAt(timeout, events, k).pc == Top && events[k] == TakeSnapshot
  }

  /** The snapshot taken at `k` is the last one before `m`. */
  ghost predicate LastSnapshot(timeout: nat, events: seq<Event>, k: nat, m: nat)
    requires m <= |events|
  {
    k < m && TakesSnapshot(timeout, events, k) && forall l :: k < l < m ==> !TakesSnapshot(timeout, events, l)
  }

  /** The loop acts at step `m`. */
  ghost predicate Acts(timeout: nat, events: seq<Event>, m: nat)
    requires m < |events|
  {
    StateAt(timeout, events, m).pc == Polled && events[m] == Act
  }

  /** What step `n` wrote into the status is still there when the snapshot is taken that the loop acts on at
      step `m`. */
  ghost predicate ActedOn(timeout: nat, events: seq<Event>, n: nat, m: nat)
    requires m < |events|
  {
    && n < m && Writes(StateAt(timeout, events, n), events[n]) && Acts(timeout, events, m)
    && exists k :: n < k < m && LastSnapshot(timeout, events, k, m) && NoWrites(timeout, events, n + 1, k)
  }

  ghost predicate KodActedOn(timeout: nat, events: seq<Event>, n: nat, m: nat)
    requires m < |events|
  {
    ActedOn(timeout, events, n, m) && IsKod(events[n])
  }

  ghost predicate FailureActedOn(timeout: nat, events: seq<Event>, n: nat, m: nat)
    requires m < |events|
  {
    ActedOn(timeout, events, n, m) && StateAt(timeout, events, n + 1).status == Failed
  }

  ghost predicate Doubles(timeout: nat, events: seq<Event>, m: nat)
    requires m < |events|
  {
    StateAt(timeout, events, m + 1).kods != StateAt(timeout, events, m).kods
  }

  /** The loop resets at step `m`, and not for a timeout. */
  ghost predicate ResetsForFailure(timeout: nat, events: seq<Event>, m: nat)
    requires m < |events|
  {
    && Acts(timeout, events, m) && StateAt(timeout, events, m + 1).pc == Reset
    && StateAt(timeout, events, m).snap.status != Pending
  }

  lemma {:induction false} SnapshotOf(timeout: nat, events: seq<Event>, m: nat) returns (k: nat)
    requires m <= |events| && Working(StateAt(timeout, events, m).pc)
    ensures LastSnapshot(timeout, events, k, m)
    ensures StateAt(timeout, events, m).snap.status == StateAt(timeout, events, k).status
  {
    hide Next;
    if m > 0 {
      LoopStep(StateAt(timeout, events, m - 1), events[m - 1]);
      if TakesSnapshot(timeout, events, m - 1) {
        k := m - 1;
      } else {
        k := SnapshotOf(timeout, events, m - 1);
      }
    }
  }

  lemma {:induction false} WroteStatus(timeout: nat, events: seq<Event>, k: nat) returns (n: nat)
    requires k <= |events| && StateAt(timeout, events, k).status != Idle
    ensures n < k && Writes(StateAt(timeout, events, n), events[n]) && NoWrites(timeout, events, n + 1, k)
    ensures StateAt(timeout, events, n + 1).status == StateAt(timeout, events, k).status
  {
    hide Next, Writes;
    if k > 0 {
      StatusAfter(StateAt(timeout, events, k - 1), events[k - 1]);
      if Writes(StateAt(timeout, events, k - 1), events[k - 1]) {
        n := k - 1;
      } else {
        n := WroteStatus(timeout, events, k - 1);
      }
    }
  }

  lemma {:induction false} StatusStays(timeout: nat, events: seq<Event>, n: nat, k: nat)
    requires n < k <= |events| && NoWrites(timeout, events, n + 1, k)
    ensures StateAt(timeout, events, k).status == StateAt(timeout, events, n + 1).status
    decreases k
  {
    hide Next, Writes;
    if k > n + 1 {
      StatusAfter(StateAt(timeout, events, k - 1), events[k - 1]);
      StatusStays(timeout, events, n, k - 1);
    }
  }

  /** What the loop acts on is the status that the step it acts on had written. */
  lemma SeenStatus(timeout: nat, events: seq<Event>, n: nat, m: nat)
    requires m < |events|
    ensures ActedOn(timeout, events, n, m) ==>
              StateAt(timeout, events, m).snap.status == StateAt(timeout, events, n + 1).status
  {
    hide Next, Writes;
    if ActedOn(timeout, events, n, m) {
      var k := SnapshotOf(timeout, events, m);
      var l :| n < l < m && LastSnapshot(timeout, events, l, m) && NoWrites(timeout, events, n + 1, l);
      assert l == k;
      StatusStays(timeout, events, n, k);
    }
  }

  /** It acts on some step, unless the snapshot shows it idle. */
  lemma SomeStepSeen(timeout: nat, events: seq<Event>, m: nat) returns (n: nat)
    requires m < |events| && Acts(timeout, events, m) && StateAt(timeout, events, m).snap.status != Idle
    ensures ActedOn(timeout, events, n, m)
  {
    hide Next, Writes;
    var k := SnapshotOf(timeout, events, m);
    n := WroteStatus(timeout, events, k);
  }

  lemma KodWrites(timeout: nat, events: seq<Event>, n: nat)
    requires n < |events|
    ensures IsKod(events[n]) <==> Writes(StateAt(timeout, events, n), events[n])
                                  && StateAt(timeout, events, n + 1).status == Kod
  {
    hide Next;
    StatusAfter(StateAt(timeout, events, n), events[n]);
  }

  /** The interval is doubled at a step exactly if the loop acts there on a KoD: one that had not been
      overwritten when the snapshot was taken. */
  lemma WhenIntervalDoubles(timeout: nat, events: seq<Event>, m: nat)
    requires m < |events|
    ensures Doubles(timeout, events, m) <==> exists n :: KodActedOn(timeout, events, n, m)
  {
    hide Next, Writes, IsKod, ActedOn;
    LoopStep(StateAt(timeout, events, m), events[m]);
    if Doubles(timeout, events, m) {
      var n := SomeStepSeen(timeout, events, m);
      SeenStatus(timeout, events, n, m);
      WroteBefore(timeout, events, n, m);
      KodWrites(timeout, events, n);
      assert KodActedOn(timeout, events, n, m);
    }
    forall n: nat | KodActedOn(timeout, events, n, m) ensures Doubles(timeout, events, m) {
      WroteBefore(timeout, events, n, m);
      SeenStatus(timeout, events, n, m);
      KodWrites(timeout, events, n);
    }
  }

  lemma WroteBefore(timeout: nat, events: seq<Event>, n: nat, m: nat)
    requires m < |events|
    ensures ActedOn(timeout, events, n, m) ==>
              n < m && Acts(timeout, events, m) && Writes(StateAt(timeout, events, n), events[n])
  {
  }

  /** Apart from timeouts, the loop resets at a step exactly if it acts there on a failure: one that had not
      been overwritten when the snapshot was taken. */
  lemma WhenFailureResets(timeout: nat, events: seq<Event>, m: nat)
    requires m < |events|
    ensures ResetsForFailure(timeout, events, m) <==> exists n :: FailureActedOn(timeout, events, n, m)
  {
    hide Next, Writes, ActedOn;
    ResetStep(StateAt(timeout, events, m));
    if ResetsForFailure(timeout, events, m) {
      var n := SomeStepSeen(timeout, events, m);
      WroteBefore(timeout, events, n, m);
      SeenStatus(timeout, events, n, m);
      assert FailureActedOn(timeout, events, n, m);
    }
    forall n: nat | FailureActedOn(timeout, events, n, m) ensures ResetsForFailure(timeout, events, m) {
      WroteBefore(timeout, events, n, m);
      SeenStatus(timeout, events, n, m);
    }
  }

  lemma ResetStep(s: State)
    ensures s.pc == Polled && s.snap.status != Pending ==> (Next(s, Act).pc == Reset <==> s.snap.status == Failed)
  {
  }

  /** Out of the loop's body it takes a snapshot to get back in. */
  lemma {:induction false} SnapshotBetween(timeout: nat, events: seq<Event>, i: nat, j: nat) returns (k: nat)
    requires i <= j <= |events|
    requires !Working(StateAt(timeout, events, i).pc) && Working(StateAt(timeout, events, j).pc)
    ensures i <= k < j && TakesSnapshot(timeout, events, k)
    decreases j
  {
    hide Next;
    LoopStep(StateAt(timeout, events, j - 1), events[j - 1]);
    if TakesSnapshot(timeout, events, j - 1) {
      k := j - 1;
    } else {
      k := SnapshotBetween(timeout, events, i, j - 1);
    }
  }

  /** Every doubling answers one KoD, and no KoD is answered twice. */
  lemma OneDoublingForOneKod(timeout: nat, events: seq<Event>, n: nat, m: nat, n': nat, m': nat)
    requires m < |events| && m' < |events|
    ensures KodActedOn(timeout, events, n, m) && KodActedOn(timeout, events, n', m') ==> (n == n' <==> m == m')
  {
    hide Next, ActedOn;
    if m == m' {
      SameSnapshot(timeout, events, n, n', m);
      SameSnapshot(timeout, events, n', n, m);
    } else if m < m' {
      LaterDoubling(timeout, events, n, n', m, m');
    } else {
      LaterDoubling(timeout, events, n', n, m', m);
    }
  }

  lemma SameSnapshot(timeout: nat, events: seq<Event>, n: nat, n': nat, m: nat)
    requires m < |events|
    ensures ActedOn(timeout, events, n, m) && ActedOn(timeout, events, n', m) ==> n >= n'
  {
    hide Next, StateAt;
    if ActedOn(timeout, events, n, m) && ActedOn(timeout, events, n', m) {
      var k :| n < k < m && LastSnapshot(timeout, events, k, m) && NoWrites(timeout, events, n + 1, k);
      var k' :| n' < k' < m && LastSnapshot(timeout, events, k', m) && NoWrites(timeout, events, n' + 1, k');
      assert k == k';
    }
  }

  lemma LaterDoubling(timeout: nat, events: seq<Event>, n: nat, n': nat, m: nat, m': nat)
    requires m < m' < |events|
    ensures KodActedOn(timeout, events, n, m) && ActedOn(timeout, events, n', m') ==> n < m <= n'
  {
    hide Next;
    if KodActedOn(timeout, events, n, m) && ActedOn(timeout, events, n', m') {
      WhenIntervalDoubles(timeout, events, m);
      LoopStep(StateAt(timeout, events, m), events[m]);
      var between := SnapshotBetween(timeout, events, m + 1, m');
      var k' :| n' < k' < m' && LastSnapshot(timeout, events, k', m') && NoWrites(timeout, events, n' + 1, k');
      assert m < between <= k';
      assert Writes(StateAt(timeout, events, m), events[m]);
    }
  }

  // ----- what is lost -----

  /** Whatever is written between the snapshot of a success or a KoD and the loop's acting on it is never acted
      on: not a KoD, not a failure. */
  lemma LostInWindow(timeout: nat, events: seq<Event>, k: nat, n: nat, m: nat, m': nat)
    requires k < n < m < |events| && m' < |events|
    ensures LastSnapshot(timeout, events, k, m) && Acts(timeout, events, m)
            && StateAt(timeout, events, k).status in {Kod, Success}
            ==> !ActedOn(timeout, events, n, m')
  {
    hide Next;
    if LastSnapshot(timeout, events, k, m) && Acts(timeout, events, m)
       && StateAt(timeout, events, k).status in {Kod, Success}
    {
      var l := SnapshotOf(timeout, events, m);
      assert l == k;
      assert Writes(StateAt(timeout, events, m), events[m]);
      forall k': nat | n < k' < m' && LastSnapshot(timeout, events, k', m')
        ensures !NoWrites(timeout, events, n + 1, k')
      {
        assert TakesSnapshot(timeout, events, k') && k < k';
        assert k' > m;
      }
    }
  }

  /** `t` is `s` but for what the callbacks share with the loop. */
  predicate Answered(s: State, t: State) {
    t == s.(status := t.status, error := t.error, ntpTime := t.ntpTime, timeUpdated := t.timeUpdated)
  }

  lemma AnswerWrites(s: State, e: Event)
    requires e.Datagram? || e.DnsDone?
    ensures Answered(s, Next(s, e))
  {
    hide Judge;
  }

  lemma ActForgets(s: State, t: State)
    requires s.pc == Polled && s.snap.status in {Kod, Success} && Answered(s, t)
    ensures Next(t, Act) == Next(s, Act).(error := t.error, ntpTime := t.ntpTime, timeUpdated := t.timeUpdated)
  {
  }

  /** An answer that arrives between the loop's snapshot of a success or a KoD and its return to idle leaves
      the status as if it had never arrived: a KoD does not double the interval, a failure does not reset.
      Only the error it reports and the time it brings stay behind. */
  lemma ArrivesTooLate(s: State, e: Event)
    requires s.pc == Polled && s.snap.status in {Kod, Success} && (e.Datagram? || e.DnsDone?)
    ensures var late := Next(s, e);
            Next(late, Act)
            == Next(s, Act).(error := late.error, ntpTime := late.ntpTime, timeUpdated := late.timeUpdated)
  {
    hide Next;
    AnswerWrites(s, e);
    ActForgets(s, Next(s, e));
  }

  /** A server's time. */
  function Genuine(): seq<byte> {
    seq(NTP_MSG_LEN, i => if i == 0 then 0x24 else if i == 1 then 1 else 0)
  }

  /** The first request is answered with a time; then comes the first tick. */
  function ToTick(): seq<Event> {
    [Begin] + [Resolve(Resolved(Sent))] + [Datagram(true, true, Genuine())] + [Advance(FIRST_TICK_MS)] + [Tick]
  }

  /** The turn on that tick; `late` comes right behind the snapshot. */
  function LateTurn(late: Event): seq<Event> {
    [TakeSnapshot] + [late] + [CheckUpdate] + [SetClock] + [StampSync] + [CheckTick] + [Act]
  }

  lemma More(d: Timed, a: seq<Event>, t: Timed, e: Event)
    requires Leads(d, a, t) && Permitted(t, e)
    ensures Leads(d, a + [e], After(t, e))
  {
    One(t, e);
    Then(d, a, t, [e], After(t, e));
  }

  predicate Fresh(s: State) {
    s.tick && s.kods == 0 && s.interval == SYNC_INTERVAL
  }

  lemma GenuineIsTime()
    ensures Judge(true, true, Genuine()).Time?
  {
  }

  lemma TickAfterAnswer() returns (t: Timed)
    ensures Leads(Booted(10_000), ToTick(), t)
    ensures t.s.pc == Top && t.s.status == Success && t.s.timeUpdated && Fresh(t.s)
  {
    hide Live, Judge, Genuine;
    var sent, answer := Resolve(Resolved(Sent)), Datagram(true, true, Genuine());
    GenuineIsTime();
    var d0 := Booted(10_000);
    var d1 := After(d0, Begin);
    var d2 := After(d1, sent);
    var d3 := After(d2, answer);
    var d4 := After(d3, Advance(FIRST_TICK_MS));
    t := After(d4, Tick);
    One(d0, Begin);
    More(d0, [Begin], d1, sent);
    More(d0, [Begin] + [sent], d2, answer);
    More(d0, [Begin] + [sent] + [answer], d3, Advance(FIRST_TICK_MS));
    More(d0, [Begin] + [sent] + [answer] + [Advance(FIRST_TICK_MS)], d4, Tick);
  }

  lemma LateInTurn(d: Timed, late: Event) returns (t: Timed)
    requires d.s.pc == Top && d.s.status == Success && d.s.timeUpdated && Fresh(d.s)
    requires late.Datagram?
    ensures Leads(d, [TakeSnapshot] + [late] + [CheckUpdate] + [SetClock], t)
    ensures t.s.pc == Stamping && t.s.snap.status == Success && Fresh(t.s)
  {
    hide Live, Judge;
    var d1 := After(d, TakeSnapshot);
    var d2 := After(d1, late);
    var d3 := After(d2, CheckUpdate);
    t := After(d3, SetClock);
    One(d, TakeSnapshot);
    More(d, [TakeSnapshot], d1, late);
    More(d, [TakeSnapshot] + [late], d2, CheckUpdate);
    More(d, [TakeSnapshot] + [late] + [CheckUpdate], d3, SetClock);
  }

  lemma EndOfTurn(d0: Timed, a: seq<Event>, d: Timed) returns (t: Timed)
    requires Leads(d0, a, d) && d.s.pc == Stamping && d.s.snap.status == Success && Fresh(d.s)
    ensures Leads(d0, a + [StampSync] + [CheckTick] + [Act], t)
    ensures t.s.pc == Top && t.s.status == Idle && t.s.kods == 0 && t.s.interval == SYNC_INTERVAL
  {
    hide Live;
    var d1 := After(d, StampSync);
    var d2 := After(d1, CheckTick);
    t := After(d2, Act);
    More(d0, a, d, StampSync);
    More(d0, a + [StampSync], d1, CheckTick);
    More(d0, a + [StampSync] + [CheckTick], d2, Act);
  }

  /** It does happen: in a run the device can make, any datagram (a KoD, or one that reports a failure) can
      arrive there, and leaves the clock up and idle, its interval as before. */
  lemma LateAnswerIsLost(late: Event)
    requires late.Datagram?
    ensures Realisable(10_000, ToTick() + LateTurn(late))
    ensures var run := ToTick() + LateTurn(late); var s := StateAt(10_000, run, |run|);
            s.pc == Top && s.status == Idle && s.kods == 0 && s.interval == SYNC_INTERVAL
  {
    hide Live, ToTick, StateAt;
    var d := TickAfterAnswer();
    var t := LateInTurn(d, late);
    var u := EndOfTurn(d, [TakeSnapshot] + [late] + [CheckUpdate] + [SetClock], t);
    var run := ToTick() + LateTurn(late);
    Then(Booted(10_000), ToTick(), d, LateTurn(late), u);
    assert run[..|run|] == run;
    StateBehind(10_000, run, |run|, u);
  }
}
