/** The lease table of src/dhcpserver/dhcpserver.c as a protocol over true (unwrapped) time. */
module DhcpLeases {
  import opened Bytes

  const SLOTS := 8
  const LEASE_MS := 86_400_000

  type Mac = s: seq<byte> | |s| == 6 witness [0, 0, 0, 0, 0, 0]
  type Expiry = x: int | 0 <= x < TWO_16

  const ZERO_MAC: Mac := [0, 0, 0, 0, 0, 0]

  datatype Lease = Lease(mac: Mac, expiry: Expiry)
  type Table = t: seq<Lease> | |t| == SLOTS witness seq(8, i => Lease([0, 0, 0, 0, 0, 0], 0))

  // ----- 16 bits of a wrapping 32-bit millisecond counter -----

  /** What a lease granted at true time `t` stores: `(uint32_t)(ticks + L) >> 16`. */
  function Stamp(t: nat): Expiry {
    (t % TWO_32 + LEASE_MS) % TWO_32 / TWO_16
  }

  /** `(int32_t)((expiry << 16 | 0xffff) - ticks) < 0` at true time `t`. */
  function Expired(expiry: Expiry, t: nat): bool {
    var deadline := (expiry * TWO_16 + 0xffff) % TWO_32;
    (deadline - t % TWO_32) % TWO_32 >= TWO_31
  }

  /** The true time up to which a lease granted at `t` counts as live. */
  function LeaseEnd(t: nat): nat {
    (t + LEASE_MS) / TWO_16 * TWO_16 + 0xffff
  }

  /** Within one turn of the counter, a lease is judged expired exactly in the 2^31 ms after its end,
      which lies less than 65,536 ms past the nominal 24 hours. After that it looks live again. */
  lemma LeaseWindow(granted: nat, t: nat)
    requires granted <= t < granted + TWO_32
    ensures Expired(Stamp(granted), t) <==> LeaseEnd(granted) < t <= LeaseEnd(granted) + TWO_31
    ensures granted + LEASE_MS <= LeaseEnd(granted) < granted + LEASE_MS + TWO_16
  {
    hide Stamp, LeaseEnd;
    StampedDeadline(granted);
    LeaseEndBounds(granted);
    DifferenceMod(LeaseEnd(granted), t);
    SignBit(LeaseEnd(granted) - t);
  }

  lemma LeaseEndBounds(granted: nat)
    ensures granted + LEASE_MS <= LeaseEnd(granted) < granted + LEASE_MS + TWO_16
  {
  }

  lemma SignBit(d: int)
    requires -TWO_32 <= d < TWO_31
    ensures d % TWO_32 >= TWO_31 <==> -TWO_31 <= d < 0
  {
    if d < 0 {
      assert d % TWO_32 == d + TWO_32 || d == -TWO_32;
    }
  }

  lemma StampedDeadline(granted: nat)
    ensures (Stamp(granted) * TWO_16 + 0xffff) % TWO_32 == LeaseEnd(granted) % TWO_32
  {
    var g := granted + LEASE_MS;
    AddMod(granted, LEASE_MS);
    var q, r := g / TWO_32, g % TWO_32;
    assert r / TWO_16 * TWO_16 + 0xffff < TWO_32;
    assert g / TWO_16 == q * TWO_16 + r / TWO_16;
    assert LeaseEnd(granted) == q * TWO_32 + (r / TWO_16 * TWO_16 + 0xffff);
  }

  lemma AddMod(a: int, b: int)
    ensures (a % TWO_32 + b) % TWO_32 == (a + b) % TWO_32
  {
    assert a + b == (a % TWO_32 + b) + TWO_32 * (a / TWO_32);
  }

  lemma DifferenceMod(a: int, b: int)
    ensures (a % TWO_32 - b % TWO_32) % TWO_32 == (a - b) % TWO_32
  {
    var qa, qb := a / TWO_32, b / TWO_32;
    assert a - b == (a % TWO_32 - b % TWO_32) + TWO_32 * (qa - qb);
  }

  // ----- one request against the table -----

  /** The requests that reach the table. Every reading of the clock is given as true time: DISCOVER may
      read it once for each slot, REQUEST reads it once. */
  datatype Event =
    | Discover(mac: Mac, ticks: seq<nat>)
    | Request(mac: Mac, slot: nat, now: nat)
    | Ignored

  datatype Answer = Offer(slot: nat) | Ack(slot: nat)

  predicate ValidEvent(e: Event) {
    (e.Discover? ==> |e.ticks| == SLOTS) && (e.Request? ==> e.slot < SLOTS)
  }

  predicate Reusable(t: Table, ticks: seq<nat>, i: nat)
    requires |ticks| == SLOTS && i < SLOTS
  {
    t[i].mac == ZERO_MAC || Expired(t[i].expiry, ticks[i])
  }

  /** The first slot below `n` held by `mac`; SLOTS if there is none. */
  function FirstMatch(t: Table, mac: Mac, n: nat): (r: nat)
    requires n <= SLOTS
    ensures r < n || r == SLOTS
    ensures r < n ==> t[r].mac == mac
    ensures forall i :: 0 <= i < n && i < r ==> t[i].mac != mac
  {
    if n == 0 then SLOTS
    else
      var r := FirstMatch(t, mac, n - 1);
      if r < SLOTS then r else if t[n - 1].mac == mac then n - 1 else SLOTS
  }

  /** The first slot below `n` that is free or expired; SLOTS if there is none. */
  function FirstReusable(t: Table, ticks: seq<nat>, n: nat): (r: nat)
    requires |ticks| == SLOTS && n <= SLOTS
    ensures r < n || r == SLOTS
    ensures r < n ==> Reusable(t, ticks, r)
    ensures forall i :: 0 <= i < n && i < r ==> !Reusable(t, ticks, i)
  {
    if n == 0 then SLOTS
    else
      var r := FirstReusable(t, ticks, n - 1);
      if r < SLOTS then r else if Reusable(t, ticks, n - 1) then n - 1 else SLOTS
  }

  /** The table after the scan has met reusable slot `r` (or none): an expired holder is wiped. */
  function Cleared(t: Table, ticks: seq<nat>, r: nat): Table
    requires |ticks| == SLOTS && r <= SLOTS
  {
    if r < SLOTS && Expired(t[r].expiry, ticks[r]) then t[r := t[r].(mac := ZERO_MAC)] else t
  }

  function Step(t: Table, e: Event): (Table, Option<Answer>)
    requires ValidEvent(e)
  {
    match e
    case Discover(mac, ticks) =>
      var held := FirstMatch(t, mac, SLOTS);
      var free := FirstReusable(t, ticks, held);
      var slot := if held < SLOTS then held else free;
      (Cleared(t, ticks, free), if slot < SLOTS then Some(Offer(slot)) else None)
    case Request(mac, slot, now) =>
      if t[slot].mac == mac || t[slot].mac == ZERO_MAC
      then (t[slot := Lease(mac, Stamp(now))], Some(Ack(slot)))
      else (t, None)
    case Ignored => (t, None)
  }

  /** DISCOVER offers the client's first slot, else the first free or expired one, and refuses exactly
      when neither exists. At most one slot changes: an expired one, which loses its holder. */
  lemma DiscoverChoice(t: Table, mac: Mac, ticks: seq<nat>)
    requires |ticks| == SLOTS
    ensures var (t', answer) := Step(t, Discover(mac, ticks));
            && (answer == None <==> forall i :: 0 <= i < SLOTS ==> t[i].mac != mac && !Reusable(t, ticks, i))
            && (answer.Some? ==> answer.value.Offer? && answer.value.slot < SLOTS)
            && (forall i | 0 <= i < SLOTS && t[i].mac == mac && (forall j :: 0 <= j < i ==> t[j].mac != mac) ::
                  answer == Some(Offer(i)))
            && ((forall i :: 0 <= i < SLOTS ==> t[i].mac != mac) ==>
                  forall i | 0 <= i < SLOTS && Reusable(t, ticks, i)
                             && (forall j :: 0 <= j < i ==> !Reusable(t, ticks, j)) ::
                    answer == Some(Offer(i)))
            && (t' == t || exists i :: 0 <= i < SLOTS && Expired(t[i].expiry, ticks[i])
                                       && t' == t[i := Lease(ZERO_MAC, t[i].expiry)])
  {
    var held := FirstMatch(t, mac, SLOTS);
    var free := FirstReusable(t, ticks, held);
    if free < SLOTS && Expired(t[free].expiry, ticks[free]) {
      assert Cleared(t, ticks, free) == t[free := Lease(ZERO_MAC, t[free].expiry)];
    }
    if held < SLOTS {
      assert t[held].mac == mac;
    } else if free < SLOTS {
      assert Reusable(t, ticks, free);
    }
  }

  /** DISCOVER wipes exactly the first reusable slot, if its lease has expired and the client holds no slot up
      to it; every other slot stays as it is. */
  lemma DiscoverClears(t: Table, mac: Mac, ticks: seq<nat>, i: nat)
    requires |ticks| == SLOTS && i < SLOTS
    ensures var cleared := Expired(t[i].expiry, ticks[i]) && (forall j :: 0 <= j < i ==> !Reusable(t, ticks, j))
                           && (forall j :: 0 <= j <= i ==> t[j].mac != mac);
            Step(t, Discover(mac, ticks)).0[i] == if cleared then t[i].(mac := ZERO_MAC) else t[i]
  {
    var held := FirstMatch(t, mac, SLOTS);
    var free := FirstReusable(t, ticks, held);
    assert held < SLOTS ==> t[held].mac == mac;
    assert free < SLOTS ==> Reusable(t, ticks, free);
    assert Expired(t[i].expiry, ticks[i]) ==> Reusable(t, ticks, i);
  }

  /** REQUEST is refused exactly when another client holds the slot, even on an expired lease, and then
      changes nothing. Otherwise the client holds it, and the lease counts as live for 86,400,000 ms and, if
      left alone, as expired from at most 65,536 ms later on; no other slot changes. */
  lemma RequestOutcome(t: Table, mac: Mac, slot: nat, now: nat)
    requires slot < SLOTS
    ensures var (t', answer) := Step(t, Request(mac, slot, now));
            && (answer.None? <==> t[slot].mac != mac && t[slot].mac != [0, 0, 0, 0, 0, 0])
            && (answer.None? ==> t' == t)
            && (answer.Some? ==>
                  && answer == Some(Ack(slot)) && t'[slot].mac == mac
                  && (forall i :: 0 <= i < SLOTS && i != slot ==> t'[i] == t[i])
                  && (forall later: nat :: now <= later <= now + 86_400_000 ==> !Expired(t'[slot].expiry, later))
                  && (forall later: nat :: now + 86_465_536 <= later <= now + 86_400_000 + 0x8000_0000 ==>
                        Expired(t'[slot].expiry, later)))
  {
    forall later: nat | now <= later < now + TWO_32
      ensures later <= now + 86_400_000 ==> !Expired(Stamp(now), later)
      ensures now + 86_465_536 <= later <= now + 86_400_000 + 0x8000_0000 ==> Expired(Stamp(now), later)
    {
      hide Expired, Stamp, LeaseEnd;
      LeaseWindow(now, later);
    }
  }

  // ----- whole runs -----

  /** All of the event's readings of the clock fall between `lo` and `hi`. */
  predicate Within(e: Event, lo: nat, hi: nat) {
    match e
    case Discover(_, ticks) => forall i :: 0 <= i < |ticks| ==> lo <= ticks[i] <= hi
    case Request(_, _, now) => lo <= now <= hi
    case Ignored => true
  }

  /** Events at advancing true times: the i-th happens between times[i] and times[i + 1]. */
  ghost predicate Run(events: seq<Event>, times: seq<nat>) {
    && |times| == |events| + 1
    && (forall i :: 0 <= i < |events| ==>
          ValidEvent(events[i]) && times[i] <= times[i + 1] && Within(events[i], times[i], times[i + 1]))
  }

  /** The table before event `n` of a run from table `t`. */
  ghost function TableAt(t: Table, events: seq<Event>, n: nat): Table
    requires n <= |events| && forall i :: 0 <= i < |events| ==> ValidEvent(events[i])
  {
    if n == 0 then t else Step(TableAt(t, events, n - 1), events[n - 1]).0
  }

  ghost function AnswerAt(t: Table, events: seq<Event>, n: nat): Option<Answer>
    requires n < |events| && forall i :: 0 <= i < |events| ==> ValidEvent(events[i])
  {
    Step(TableAt(t, events, n), events[n]).1
  }

  lemma {:induction false} TimesAdvance(events: seq<Event>, times: seq<nat>, i: nat, j: nat)
    requires Run(events, times) && i <= j < |times|
    ensures times[i] <= times[j]
  {
    if i < j {
      TimesAdvance(events, times, i, j - 1);
    }
  }

  /** The slot is held by `mac` on a lease granted somewhere between `since` and `now`. */
  ghost predicate Held(l: Lease, mac: Mac, since: nat, now: nat) {
    l.mac == mac && exists granted: nat :: since <= granted <= now && l.expiry == Stamp(granted)
  }

  lemma HeldStep(t: Table, e: Event, slot: nat, mac: Mac, since: nat, lo: nat, hi: nat)
    requires ValidEvent(e) && Within(e, lo, hi) && slot < SLOTS && mac != ZERO_MAC
    requires Held(t[slot], mac, since, lo) && since <= lo <= hi <= since + LEASE_MS
    ensures Held(Step(t, e).0[slot], mac, since, hi)
  {
    var granted: nat :| since <= granted <= lo && t[slot].expiry == Stamp(granted);
    if e.Discover? {
      LeaseWindow(granted, e.ticks[slot]);
      assert Step(t, e).0[slot] == t[slot];
    } else if e.Request? && e.slot == slot && e.mac == mac {
      assert since <= e.now <= hi && Step(t, e).0[slot].expiry == Stamp(e.now);
    }
  }

  lemma {:induction false} HeldUntil(t: Table, events: seq<Event>, times: seq<nat>, i: nat, j: nat, slot: nat)
    requires Run(events, times) && i < j <= |events| && slot < SLOTS
    requires events[i].Request? && events[i].mac != ZERO_MAC && AnswerAt(t, events, i) == Some(Ack(slot))
    requires times[j] <= events[i].now + LEASE_MS
    ensures Held(TableAt(t, events, j)[slot], events[i].mac, events[i].now, times[j])
    decreases j
  {
    if j == i + 1 {
      assert TableAt(t, events, j)[slot] == Lease(events[i].mac, Stamp(events[i].now));
    } else {
      TimesAdvance(events, times, i + 1, j - 1);
      HeldUntil(t, events, times, i, j - 1, slot);
      HeldStep(TableAt(t, events, j - 1), events[j - 1], slot, events[i].mac, events[i].now, times[j - 1], times[j]);
    }
  }

  /** In every run from any table: after an address is acknowledged to a non-zero MAC, it is not
      acknowledged to another MAC for at least 86,400,000 ms of true time. */
  lemma AddressIsExclusive(t: Table, events: seq<Event>, times: seq<nat>, i: nat, j: nat, slot: nat)
    requires Run(events, times) && i < j < |events| && slot < SLOTS
    requires AnswerAt(t, events, i) == Some(Ack(slot)) && AnswerAt(t, events, j) == Some(Ack(slot))
    requires events[i].mac != ZERO_MAC && events[j].mac != events[i].mac
    ensures events[j].now > events[i].now + LEASE_MS
  {
    TimesAdvance(events, times, i + 1, j);
    assert Within(events[j], times[j], times[j + 1]);
    if events[j].now <= events[i].now + LEASE_MS {
      HeldUntil(t, events, times, i, j, slot);
    }
  }

  lemma OpenStep(t: Table, e: Event, slot: nat, mac: Mac)
    requires ValidEvent(e) && slot < SLOTS && (e.Request? && e.slot == slot ==> e.mac == mac)
    requires t[slot].mac in {mac, ZERO_MAC}
    ensures Step(t, e).0[slot].mac in {mac, ZERO_MAC}
  {
  }

  /** A slot stays open to `mac` while no other client requests it. */
  lemma {:induction false} OpenUntil(t: Table, events: seq<Event>, i: nat, j: nat, slot: nat, mac: Mac)
    requires forall k :: 0 <= k < |events| ==> ValidEvent(events[k])
    requires i <= j <= |events| && slot < SLOTS
    requires forall k :: i <= k < j && events[k].Request? && events[k].slot == slot ==> events[k].mac == mac
    requires TableAt(t, events, i)[slot].mac in {mac, ZERO_MAC}
    ensures TableAt(t, events, j)[slot].mac in {mac, ZERO_MAC}
    decreases j
  {
    hide Step;
    if i < j {
      OpenUntil(t, events, i, j - 1, slot, mac);
      OpenStep(TableAt(t, events, j - 1), events[j - 1], slot, mac);
    }
  }

  /** A REQUEST that echoes an offer, with no other client requesting that address in between, is
      acknowledged with that address. */
  lemma OfferIsHonoured(t: Table, events: seq<Event>, i: nat, j: nat, slot: nat)
    requires forall k :: 0 <= k < |events| ==> ValidEvent(events[k])
    requires i < j < |events| && events[i].Discover? && AnswerAt(t, events, i) == Some(Offer(slot))
    requires events[j].Request? && events[j].mac == events[i].mac && events[j].slot == slot
    requires forall k :: i < k < j && events[k].Request? && events[k].slot == slot ==> events[k].mac == events[i].mac
    ensures AnswerAt(t, events, j) == Some(Ack(slot))
  {
    var mac := events[i].mac;
    var before := TableAt(t, events, i);
    var held := FirstMatch(before, mac, SLOTS);
    assert TableAt(t, events, i + 1)[slot].mac in {mac, ZERO_MAC};
    OpenUntil(t, events, i + 1, j, slot, mac);
  }
}
