/** The lease guarantee read off the wire: what the replies of a whole run say to the clients. */
module DhcpSafety {
  import opened Bytes
  import opened DhcpOptions
  import opened DhcpLeases
  import opened DhcpServer

  /** A datagram and the true times of the clock readings made while it is processed. */
  datatype Arrival = Arrival(packet: seq<byte>, ticks: seq<nat>, now: nat)

  type Arrivals = s: seq<Arrival> | forall i :: 0 <= i < |s| ==> |s[i].ticks| == SLOTS witness []

  function Events(ip: Ip, arrivals: Arrivals): (r: seq<Event>)
    ensures |r| == |arrivals| && forall i :: 0 <= i < |r| ==> ValidEvent(r[i])
  {
    seq(|arrivals|, i requires 0 <= i < |arrivals| =>
      Classify(arrivals[i].packet, ip, arrivals[i].ticks, arrivals[i].now))
  }

  /** What Server.Process sends for the n-th datagram of a run from table `t`. */
  ghost function ReplyAt(t: Table, ip: Ip, nm: Ip, arrivals: Arrivals, n: nat): (r: Option<seq<byte>>)
    requires n < |arrivals|
    ensures r.Some? ==> |r.value| == REPLY_SIZE
  {
    var answer := AnswerAt(t, Events(ip, arrivals), n);
    if answer.None? then None
    else
      ReplyFields(arrivals[n].packet, answer.value, ip, nm);
      Some(Reply(arrivals[n].packet, answer.value, ip, nm))
  }

  // Fields of a reply.
  function Address(r: seq<byte>): seq<byte>
    requires |r| == REPLY_SIZE
  {
    r[YIADDR..YIADDR + 4]
  }

  function Client(r: seq<byte>): Mac
    requires |r| == REPLY_SIZE
  {
    r[CHADDR..CHADDR + 6]
  }

  predicate IsAck(r: seq<byte>)
    requires |r| == REPLY_SIZE
  {
    Says(r, 5)
  }

  predicate IsOffer(r: seq<byte>)
    requires |r| == REPLY_SIZE
  {
    Says(r, 2)
  }

  /** The reply's option field decodes, and has a message type of `kind`. */
  predicate Says(r: seq<byte>, kind: byte)
    requires |r| == REPLY_SIZE
  {
    var items := Decode(r[OPTIONS..]);
    items.Some? && Opt(53, [kind]) in items.value
  }

  lemma ReplyFields(packet: seq<byte>, a: Answer, ip: Ip, nm: Ip)
    requires |packet| >= MIN_SIZE && a.slot < SLOTS
    ensures var r := Reply(packet, a, ip, nm);
            && |r| == REPLY_SIZE && Address(r) == ip[..3] + [BASE_IP + a.slot]
            && Client(r) == packet[CHADDR..CHADDR + 6] && (IsAck(r) <==> a.Ack?) && (IsOffer(r) <==> a.Offer?)
  {
    ReplyDecodes(packet, a, ip, nm);
    var r := Reply(packet, a, ip, nm);
    assert r[CHADDR..CHADDR + 16][..6] == r[CHADDR..CHADDR + 6];
    assert packet[CHADDR..CHADDR + 16][..6] == packet[CHADDR..CHADDR + 6];
    TypeItem(a, ip, nm);
  }

  lemma TypeItem(a: Answer, ip: Ip, nm: Ip)
    ensures forall kind: byte :: Opt(53, [kind]) in ReplyItems(a, ip, nm) <==> kind == if a.Offer? then 2 else 5
  {
    var xs := ReplyItems(a, ip, nm);
    assert forall i :: 1 <= i < 6 ==> xs[i].tag != 53;
    assert xs[0] == Opt(53, [Kind(a)]);
    forall kind: byte ensures Opt(53, [kind]) in xs <==> kind == Kind(a) {
      assert [kind][0] == kind && [Kind(a)][0] == Kind(a);
    }
  }

  /** An ACK on the wire is the answer to a request for that slot by that client. */
  lemma AckIsGranted(t: Table, ip: Ip, nm: Ip, arrivals: Arrivals, n: nat, r: seq<byte>)
    requires n < |arrivals| && ReplyAt(t, ip, nm, arrivals, n) == Some(r)
    ensures IsAck(r) ==>
              var e := Events(ip, arrivals)[n];
              && e.Request? && e.slot < SLOTS && AnswerAt(t, Events(ip, arrivals), n) == Some(Ack(e.slot))
              && e.mac == Client(r) && e.now == arrivals[n].now && Address(r) == ip[..3] + [BASE_IP + e.slot]
  {
    hide Reply, Decode;
    var answer := AnswerAt(t, Events(ip, arrivals), n);
    AnswerInRange(t, ip, arrivals, n);
    ReplyFields(arrivals[n].packet, answer.value, ip, nm);
  }

  lemma AnswerInRange(t: Table, ip: Ip, arrivals: Arrivals, n: nat)
    requires n < |arrivals| && AnswerAt(t, Events(ip, arrivals), n).Some?
    ensures |arrivals[n].packet| >= MIN_SIZE && AnswerAt(t, Events(ip, arrivals), n).value.slot < SLOTS
  {
  }

  /** In every run of datagrams from any table: once a reply acknowledges an address to a client with a
      non-zero hardware address, no reply acknowledges it to another client for at least 86,400,000 ms. */
  lemma AddressesAreExclusive(t: Table, ip: Ip, nm: Ip, arrivals: Arrivals, times: seq<nat>, i: nat, j: nat)
    requires Run(Events(ip, arrivals), times) && i < j < |arrivals|
    ensures var r, q := ReplyAt(t, ip, nm, arrivals, i), ReplyAt(t, ip, nm, arrivals, j);
            && r.Some? && q.Some? && IsAck(r.value) && IsAck(q.value) && Address(r.value) == Address(q.value)
            && Client(r.value) != ZERO_MAC && Client(q.value) != Client(r.value)
            ==> arrivals[j].now > arrivals[i].now + LEASE_MS
  {
    hide ReplyAt, AnswerAt, IsAck, Client, Address, Run, Events;
    var r, q := ReplyAt(t, ip, nm, arrivals, i), ReplyAt(t, ip, nm, arrivals, j);
    if r.Some? && q.Some? && IsAck(r.value) && IsAck(q.value) && Address(r.value) == Address(q.value)
       && Client(r.value) != ZERO_MAC && Client(q.value) != Client(r.value)
    {
      AckIsGranted(t, ip, nm, arrivals, i, r.value);
      AckIsGranted(t, ip, nm, arrivals, j, q.value);
      var events := Events(ip, arrivals);
      assert (ip[..3] + [BASE_IP + events[i].slot])[3] == (ip[..3] + [BASE_IP + events[j].slot])[3];
      AddressIsExclusive(t, events, times, i, j, events[i].slot);
    }
  }

  // ----- the handshake on the wire -----

  /** A datagram of the client with that hardware address which requests that address. */
  ghost predicate Requests(packet: seq<byte>, client: Mac, address: seq<byte>) {
    HasType(packet, 3) && AsksFor(packet, address) && packet[28..34] == client
  }

  /** Between the two, no other client requests the address. */
  ghost predicate Undisturbed(arrivals: Arrivals, i: nat, j: nat, client: Mac, address: seq<byte>)
    requires j <= |arrivals|
  {
    forall k :: i < k < j && HasType(arrivals[k].packet, 3) && AsksFor(arrivals[k].packet, address) ==>
                  arrivals[k].packet[28..34] == client
  }

  /** In every run of datagrams: a client that is sent an OFFER and requests the offered address is sent an ACK
      for it, if no other client requested that address in between. */
  lemma OfferedIsAcknowledged(t: Table, ip: Ip, nm: Ip, arrivals: Arrivals, i: nat, j: nat, offer: seq<byte>)
    requires i < j < |arrivals| && |offer| == REPLY_SIZE
    ensures ReplyAt(t, ip, nm, arrivals, i) == Some(offer) && IsOffer(offer)
            && Requests(arrivals[j].packet, Client(offer), Address(offer))
            && Undisturbed(arrivals, i, j, Client(offer), Address(offer))
            ==>
              var ack := ReplyAt(t, ip, nm, arrivals, j);
              && ack.Some? && IsAck(ack.value)
              && Client(ack.value) == Client(offer) && Address(ack.value) == Address(offer)
  {
    hide ReplyAt, AnswerAt, IsAck, IsOffer, Client, Address, Events, HasType, AsksFor;
    if ReplyAt(t, ip, nm, arrivals, i) == Some(offer) && IsOffer(offer)
       && Requests(arrivals[j].packet, Client(offer), Address(offer))
       && Undisturbed(arrivals, i, j, Client(offer), Address(offer))
    {
      var events := Events(ip, arrivals);
      OfferIsMade(t, ip, nm, arrivals, i, offer);
      var slot := AnswerAt(t, events, i).value.slot;
      RequestIsRead(ip, arrivals, j, slot);
      forall k | i < k < j && events[k].Request? && events[k].slot == slot ensures events[k].mac == events[i].mac {
        RequestOnBytes(ip, arrivals, k, slot);
      }
      OfferIsHonoured(t, events, i, j, slot);
      AckIsSent(t, ip, nm, arrivals, j, slot);
    }
  }

  lemma OfferIsMade(t: Table, ip: Ip, nm: Ip, arrivals: Arrivals, n: nat, r: seq<byte>)
    requires n < |arrivals| && |r| == REPLY_SIZE && ReplyAt(t, ip, nm, arrivals, n) == Some(r) && IsOffer(r)
    ensures var e, answer := Events(ip, arrivals)[n], AnswerAt(t, Events(ip, arrivals), n);
            && e.Discover? && e.mac == Client(r) && answer.Some? && answer.value.Offer? && answer.value.slot < 8
            && Address(r) == ip[..3] + [16 + answer.value.slot]
  {
    hide Reply, Decode;
    AnswerInRange(t, ip, arrivals, n);
    ReplyFields(arrivals[n].packet, AnswerAt(t, Events(ip, arrivals), n).value, ip, nm);
  }

  lemma RequestIsRead(ip: Ip, arrivals: Arrivals, n: nat, slot: nat)
    requires n < |arrivals| && slot < 8
    ensures HasType(arrivals[n].packet, 3) && AsksFor(arrivals[n].packet, ip[..3] + [16 + slot]) ==>
              Events(ip, arrivals)[n] == Request(arrivals[n].packet[28..34], slot, arrivals[n].now)
  {
    hide AsksFor, Classify;
    var x := arrivals[n];
    if HasType(x.packet, 3) && AsksFor(x.packet, ip[..3] + [16 + slot]) {
      DatagramMeaning(x.packet, ip, x.ticks, x.now, Request(x.packet[28..34], slot, x.now));
    }
  }

  lemma RequestOnBytes(ip: Ip, arrivals: Arrivals, n: nat, slot: nat)
    requires n < |arrivals| && Events(ip, arrivals)[n].Request? && Events(ip, arrivals)[n].slot == slot
    ensures slot < 8 && HasType(arrivals[n].packet, 3) && AsksFor(arrivals[n].packet, ip[..3] + [16 + slot])
    ensures Events(ip, arrivals)[n].mac == arrivals[n].packet[28..34]
  {
    hide AsksFor, Classify;
    var x := arrivals[n];
    DatagramMeaning(x.packet, ip, x.ticks, x.now, Events(ip, arrivals)[n]);
  }

  lemma AckIsSent(t: Table, ip: Ip, nm: Ip, arrivals: Arrivals, n: nat, slot: nat)
    requires n < |arrivals| && slot < 8 && AnswerAt(t, Events(ip, arrivals), n) == Some(Ack(slot))
    ensures var r := ReplyAt(t, ip, nm, arrivals, n);
            && r.Some? && IsAck(r.value) && Client(r.value) == arrivals[n].packet[28..34]
            && Address(r.value) == ip[..3] + [16 + slot]
  {
    hide Reply, Decode;
    AnswerInRange(t, ip, arrivals, n);
    ReplyFields(arrivals[n].packet, Ack(slot), ip, nm);
  }

  /** The server over a whole run of datagrams: its replies are the ones the guarantee speaks of. */
  method ServeAll(server: Server, arrivals: Arrivals) returns (replies: seq<Option<seq<byte>>>)
    requires server.Valid()
    modifies server.lease
    ensures server.Valid() && |replies| == |arrivals|
    ensures server.Leases() == TableAt(old(server.Leases()), Events(server.ip, arrivals), |arrivals|)
    ensures forall n :: 0 <= n < |arrivals| ==>
              replies[n] == ReplyAt(old(server.Leases()), server.ip, server.nm, arrivals, n)
  {
    hide Step, Classify, Reply;
    ghost var t, events := server.Leases(), Events(server.ip, arrivals);
    replies := [];
    for n := 0 to |arrivals|
      invariant server.Valid() && |replies| == n && server.Leases() == TableAt(t, events, n)
      invariant forall k :: 0 <= k < n ==> replies[k] == ReplyAt(t, server.ip, server.nm, arrivals, k)
    {
      assert events[n] == Classify(arrivals[n].packet, server.ip, arrivals[n].ticks, arrivals[n].now);
      var reply := server.Process(arrivals[n].packet, arrivals[n].ticks, arrivals[n].now);
      replies := replies + [reply];
    }
  }
}
