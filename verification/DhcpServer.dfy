/** dhcp_server_process of src/dhcpserver/dhcpserver.c: one datagram against the lease array, and the
    reply built in place in the message buffer. */
module DhcpServer {
  import opened Bytes
  import opened DhcpOptions
  import opened DhcpLeases

  const MSG_SIZE := 548     // sizeof(dhcp_msg_t)
  const MIN_SIZE := 243     // DHCP_MIN_SIZE
  const YIADDR := 16
  const CHADDR := 28
  const OPTIONS := 240      // behind the four bytes of the magic cookie
  const REPLY_SIZE := 274

  const MSG_TYPE: byte := 53
  const REQUESTED_IP: byte := 50
  const BASE_IP := 16
  const LEASE_SECONDS := 86_400

  // ----- what a datagram asks for -----

  function Received(packet: seq<byte>): seq<byte> {
    if |packet| > MSG_SIZE then packet[..MSG_SIZE] else packet
  }

  /** The message type in an option field, if the field carries one with a value. */
  function TypeOf(opt: seq<byte>): Option<byte> {
    var k := Walk(opt, 0, MSG_TYPE);
    if k.None? then None
    else
      FoundInside(opt, k.value, MSG_TYPE);
      if opt[k.value + 1] < 1 then None else Some(opt[k.value + 2])
  }

  /** The slot of the requested address, if the field asks for one of this server's addresses. */
  function SlotWanted(opt: seq<byte>, ip: Ip): (r: Option<nat>)
    ensures r.Some? ==> r.value < SLOTS
  {
    var k := Walk(opt, 0, REQUESTED_IP);
    if k.None? then None
    else
      FoundInside(opt, k.value, REQUESTED_IP);
      var o := k.value;
      if opt[o + 1] < 4 || opt[o + 2..o + 5] != ip[..3] || !(BASE_IP <= opt[o + 5] < BASE_IP + SLOTS) then None
      else Some(opt[o + 5] - BASE_IP)
  }

  /** The request that a client's option field makes of the table. */
  function Asked(mac: Mac, opt: seq<byte>, ip: Ip, ticks: seq<nat>, now: nat): (e: Event)
    requires |ticks| == SLOTS
    ensures ValidEvent(e)
  {
    if TypeOf(opt) == Some(1) then Discover(mac, ticks)
    else if TypeOf(opt) == Some(3) && SlotWanted(opt, ip).Some? then Request(mac, SlotWanted(opt, ip).value, now)
    else Ignored
  }

  /** The request a datagram makes; every malformed or foreign one is Ignored. */
  function Classify(packet: seq<byte>, ip: Ip, ticks: seq<nat>, now: nat): (e: Event)
    requires |ticks| == SLOTS
    ensures ValidEvent(e)
  {
    if |packet| < MIN_SIZE then Ignored
    else Asked(packet[CHADDR..CHADDR + 6], Received(packet)[OPTIONS..], ip, ticks, now)
  }

  // ----- what a datagram means, on its bytes -----

  /** The option field behind the magic cookie, as far as the message buffer takes it. */
  function Field(packet: seq<byte>): seq<byte>
    requires |packet| >= 243
  {
    packet[240..if |packet| > 548 then 548 else |packet|]
  }

  /** The first option 53 is there and says `kind`. */
  ghost predicate HasType(packet: seq<byte>, kind: int) {
    |packet| >= 243 && exists k: nat :: FirstAt(Field(packet), k, 53) && TypeIs(Field(packet), k, kind)
  }

  predicate TypeIs(opt: seq<byte>, k: nat, kind: int)
    requires k + 1 < |opt| && k + 2 + opt[k + 1] <= |opt|
  {
    opt[k + 1] >= 1 && opt[k + 2] == kind
  }

  /** The first option 50 is there and asks for the address. */
  ghost predicate AsksFor(packet: seq<byte>, address: seq<byte>) {
    |packet| >= 243 && exists k: nat :: FirstAt(Field(packet), k, 50) && AddressIs(Field(packet), k, address)
  }

  /** The address in slot `slot` of the eight from .16 on. */
  ghost predicate AsksForSlot(packet: seq<byte>, ip: Ip, slot: nat) {
    slot < 8 && AsksFor(packet, ip[..3] + [16 + slot])
  }

  predicate AddressIs(opt: seq<byte>, k: nat, address: seq<byte>)
    requires k + 1 < |opt| && k + 2 + opt[k + 1] <= |opt|
  {
    opt[k + 1] >= 4 && opt[k + 2..k + 6] == address
  }

  /** The request that the bytes make: a DISCOVER (type 1), a REQUEST (type 3) for one of the eight addresses,
      and nothing else. */
  ghost predicate Means(packet: seq<byte>, ip: Ip, ticks: seq<nat>, now: nat, e: Event) {
    match e
    case Discover(mac, readings) => HasType(packet, 1) && mac == packet[28..34] && readings == ticks
    case Request(mac, slot, at) =>
      && HasType(packet, 3) && AsksForSlot(packet, ip, slot)
      && mac == packet[28..34] && at == now
    case Ignored =>
      !HasType(packet, 1) && !(HasType(packet, 3) && exists slot: nat :: AsksForSlot(packet, ip, slot))
  }

  lemma TypeOnBytes(packet: seq<byte>, kind: int)
    ensures HasType(packet, kind) <==> |packet| >= 243 && TypeOf(Field(packet)) == Some(kind)
  {
    if |packet| >= 243 {
      var opt := Field(packet);
      forall k: nat ensures Walk(opt, 0, 53) == Some(k) <==> FirstAt(opt, k, 53) {
        WalkFindsFirst(opt, k, 53);
      }
    }
  }

  lemma SlotOnBytes(packet: seq<byte>, ip: Ip, slot: nat)
    ensures AsksForSlot(packet, ip, slot) <==> |packet| >= 243 && SlotWanted(Field(packet), ip) == Some(slot)
  {
    if |packet| >= 243 && slot < 8 {
      var opt := Field(packet);
      forall k: nat
        ensures Walk(opt, 0, 50) == Some(k) <==> FirstAt(opt, k, 50)
        ensures FirstAt(opt, k, 50) && opt[k + 1] >= 4 ==>
                  (AddressIs(opt, k, ip[..3] + [16 + slot])
                   <==> opt[k + 2..k + 5] == ip[..3] && opt[k + 5] == 16 + slot)
      {
        WalkFindsFirst(opt, k, 50);
        if FirstAt(opt, k, 50) && opt[k + 1] >= 4 {
          FourBytes(opt, k + 2, ip[..3], 16 + slot);
        }
      }
    }
  }

  lemma FourBytes(s: seq<byte>, i: nat, front: seq<byte>, last: byte)
    requires i + 4 <= |s| && |front| == 3
    ensures s[i..i + 4] == front + [last] <==> s[i..i + 3] == front && s[i + 3] == last
  {
    var a, b := s[i..i + 4], front + [last];
    assert a[..3] == s[i..i + 3] && a[3] == s[i + 3] && b[..3] == front && b[3] == last;
    assert a == a[..3] + [a[3]];
  }

  /** What the code makes of a datagram is what its bytes mean, and they mean one thing only. */
  lemma DatagramMeaning(packet: seq<byte>, ip: Ip, ticks: seq<nat>, now: nat, e: Event)
    requires |ticks| == SLOTS
    ensures Classify(packet, ip, ticks, now) == e <==> Means(packet, ip, ticks, now, e)
  {
    hide TypeOf, SlotWanted, HasType, AsksForSlot;
    if |packet| >= 243 {
      assert Received(packet)[OPTIONS..] == Field(packet);
    }
    TypeOnBytes(packet, 1);
    TypeOnBytes(packet, 3);
    forall slot: nat
      ensures AsksForSlot(packet, ip, slot) <==> |packet| >= 243 && SlotWanted(Field(packet), ip) == Some(slot)
    {
      SlotOnBytes(packet, ip, slot);
    }
  }

  /** So an option field that begins with the message type, as clients send it, is read right. */
  lemma TypeFirst(packet: seq<byte>, kind: byte, rest: seq<byte>)
    requires |packet| >= 243 && Field(packet) == [53, 1, kind] + rest
    ensures HasType(packet, kind)
  {
    var opt := Field(packet);
    assert Encode([]) == opt[..0];
    assert FirstAt(opt, 0, 53) && TypeIs(opt, 0, kind);
  }

  // ----- what a reply contains -----

  function Kind(a: Answer): byte {
    if a.Offer? then 2 else 5
  }

  /** The six options of every reply. */
  function ReplyItems(a: Answer, ip: Ip, nm: Ip): (xs: seq<Item>)
    ensures ValidItems(xs) && |xs| == 6
  {
    [Opt(MSG_TYPE, [Kind(a)]), Opt(54, ip), Opt(1, nm), Opt(3, ip), Opt(6, ip), Opt(51, BigEndian32(LEASE_SECONDS))]
  }

  /** A reply: the client's own fixed fields with `op` and `yiaddr` replaced, then the options. */
  function Reply(packet: seq<byte>, a: Answer, ip: Ip, nm: Ip): seq<byte>
    requires |packet| >= MIN_SIZE && a.slot < SLOTS
  {
    [2] + packet[1..YIADDR] + ip[..3] + [BASE_IP + a.slot] + packet[YIADDR + 4..OPTIONS]
    + Encode(ReplyItems(a, ip, nm)) + [END]
  }

  lemma ReplyOptionBytes(a: Answer, ip: Ip, nm: Ip)
    ensures Encode(ReplyItems(a, ip, nm)) ==
            [MSG_TYPE, 1, Kind(a)] + ([54, 4] + ip) + ([1, 4] + nm) + ([3, 4] + ip) + ([6, 4] + ip)
            + ([51, 4] + BigEndian32(LEASE_SECONDS))
    ensures |Encode(ReplyItems(a, ip, nm))| == 33
  {
    hide Encode;
    var lease, dns, router := Opt(51, BigEndian32(LEASE_SECONDS)), Opt(6, ip), Opt(3, ip);
    var mask, id, kind := Opt(1, nm), Opt(54, ip), Opt(MSG_TYPE, [Kind(a)]);
    EncodeNone();
    EncodeCons(lease, []);
    EncodeCons(dns, [lease] + []);
    EncodeCons(router, [dns] + ([lease] + []));
    EncodeCons(mask, [router] + ([dns] + ([lease] + [])));
    EncodeCons(id, [mask] + ([router] + ([dns] + ([lease] + []))));
    EncodeCons(kind, [id] + ([mask] + ([router] + ([dns] + ([lease] + [])))));
    assert ReplyItems(a, ip, nm) == [kind] + ([id] + ([mask] + ([router] + ([dns] + ([lease] + [])))));
  }

  lemma EncodeNone()
    ensures Encode([]) == []
  {
  }

  /** Every reply is 274 bytes, keeps the transaction id and the client's hardware address, carries the
      offered address, and its option field decodes to exactly the six written options. */
  lemma ReplyDecodes(packet: seq<byte>, a: Answer, ip: Ip, nm: Ip)
    requires |packet| >= MIN_SIZE && a.slot < SLOTS
    ensures var r := Reply(packet, a, ip, nm);
            && |r| == REPLY_SIZE
            && r[4..8] == packet[4..8] && r[CHADDR..CHADDR + 16] == packet[CHADDR..CHADDR + 16]
            && r[YIADDR..YIADDR + 4] == ip[..3] + [BASE_IP + a.slot]
            && Decode(r[OPTIONS..]) == Some(ReplyItems(a, ip, nm))
  {
    hide Encode, Decode, ReplyItems;
    var xs, r := ReplyItems(a, ip, nm), Reply(packet, a, ip, nm);
    ReplyOptionBytes(a, ip, nm);
    DecodeEncode(xs, []);
    var front := [2] + packet[1..YIADDR] + ip[..3] + [BASE_IP + a.slot];
    var head := front + packet[YIADDR + 4..OPTIONS];
    assert |front| == YIADDR + 4 && front[YIADDR..] == ip[..3] + [BASE_IP + a.slot];
    assert forall k :: 1 <= k < YIADDR ==> front[k] == packet[k];
    assert forall k :: YIADDR + 4 <= k < OPTIONS ==> head[k] == packet[k];
    assert r == head + (Encode(xs) + [END] + []);
    assert r[OPTIONS..] == Encode(xs) + [END] + [];
  }

  /** Byte for byte: BOOTREPLY, the client's own header with the address put in, and behind the magic cookie
      OFFER or ACK, the server, mask, router and DNS addresses and a lease time of 86,400 seconds. */
  lemma ReplyBytes(packet: seq<byte>, a: Answer, ip: Ip, nm: Ip)
    requires |packet| >= 243 && a.slot < 8
    ensures Reply(packet, a, ip, nm)
            == [2] + packet[1..16] + ip[..3] + [16 + a.slot] + packet[20..240]
               + [53, 1, if a.Offer? then 2 else 5] + ([54, 4] + ip) + ([1, 4] + nm) + ([3, 4] + ip) + ([6, 4] + ip)
               + [51, 4, 0, 1, 0x51, 0x80] + [255]
  {
    hide Encode, ReplyItems;
    ReplyOptionBytes(a, ip, nm);
    assert BigEndian32(LEASE_SECONDS) == [0, 1, 0x51, 0x80];
    assert [51, 4] + [0, 1, 0x51, 0x80] == [51, 4, 0, 1, 0x51, 0x80];
    var head := [2] + packet[1..16] + ip[..3] + [16 + a.slot] + packet[20..240];
    Seven(head, [53, 1, if a.Offer? then 2 else 5], [54, 4] + ip, [1, 4] + nm, [3, 4] + ip, [6, 4] + ip,
          [51, 4, 0, 1, 0x51, 0x80], [255]);
  }

  lemma Seven(h: seq<byte>, a: seq<byte>, b: seq<byte>, c: seq<byte>, d: seq<byte>, e: seq<byte>, f: seq<byte>,
              g: seq<byte>)
    ensures h + (a + b + c + d + e + f) + g == h + a + b + c + d + e + f + g
  {
  }

  // ----- the server -----

  class Server {
    const ip: Ip
    const nm: Ip
    const lease: array<Lease>

    predicate Valid()
      reads this
    {
      lease.Length == SLOTS
    }

    function Leases(): Table
      requires Valid()
      reads this, lease
    {
      lease[..]
    }

    /** dhcp_server_init */
    constructor (ip: Ip, nm: Ip)
      ensures Valid() && fresh(lease) && this.ip == ip && this.nm == nm
      ensures Leases() == seq(SLOTS, i => Lease(ZERO_MAC, 0))
    {
      this.ip := ip;
      this.nm := nm;
      lease := new Lease[SLOTS](i => Lease(ZERO_MAC, 0));
    }

    /** The scan of the DHCPDISCOVER case. `ticks[i]` is the true time of the clock reading at slot i. */
    method DiscoverScan(mac: Mac, ticks: seq<nat>) returns (yi: nat)
      requires Valid() && |ticks| == SLOTS
      modifies lease
      ensures (Leases(), if yi == SLOTS then None else Some(Offer(yi))) == Step(old(Leases()), Discover(mac, ticks))
      ensures yi <= SLOTS
    {
      ghost var before := Leases();
      yi := SLOTS;
      var i := 0;
      while i < SLOTS
        invariant i <= SLOTS
        invariant FirstMatch(before, mac, i) == SLOTS
        invariant yi == FirstReusable(before, ticks, i)
        invariant Leases() == Cleared(before, ticks, yi)
      {
        assert lease[i] == Leases()[i] == before[i] by {
          assert yi != i;
        }
        if lease[i].mac == mac {
          MatchFound(before, mac, i);
          return i;
        }
        if yi == SLOTS {
          if lease[i].mac == ZERO_MAC {
            yi := i;
          }
          if Expired(lease[i].expiry, ticks[i]) {
            lease[i] := lease[i].(mac := ZERO_MAC);
            yi := i;
          }
        }
        i := i + 1;
      }
    }

    lemma MatchFound(t: Table, mac: Mac, i: nat)
      requires i < SLOTS && FirstMatch(t, mac, i) == SLOTS && t[i].mac == mac
      ensures FirstMatch(t, mac, SLOTS) == i
    {
    }

    /** The DHCPREQUEST case once the slot is known. */
    method Grant(mac: Mac, yi: nat, now: nat) returns (granted: bool)
      requires Valid() && yi < SLOTS
      modifies lease
      ensures (Leases(), if granted then Some(Ack(yi)) else None) == Step(old(Leases()), Request(mac, yi, now))
    {
      if lease[yi].mac == mac {
      } else if lease[yi].mac == ZERO_MAC {
        lease[yi] := lease[yi].(mac := mac);
      } else {
        return false;
      }
      lease[yi] := lease[yi].(expiry := Stamp(now));
      assert Leases() == old(Leases())[yi := Lease(mac, Stamp(now))];
      return true;
    }

    method ReadType(msg: array<byte>, optionsLen: nat) returns (r: Option<byte>)
      requires OPTIONS + optionsLen <= msg.Length
      ensures r == TypeOf(msg[OPTIONS..OPTIONS + optionsLen])
    {
      var k := OptFind(msg, OPTIONS, optionsLen, MSG_TYPE);
      if k.None? {
        return None;
      }
      FoundInside(msg[OPTIONS..OPTIONS + optionsLen], k.value, MSG_TYPE);
      var o := OPTIONS + k.value;
      return if msg[o + 1] < 1 then None else Some(msg[o + 2]);
    }

    method ReadSlot(msg: array<byte>, optionsLen: nat) returns (r: Option<nat>)
      requires OPTIONS + optionsLen <= msg.Length
      ensures r == SlotWanted(msg[OPTIONS..OPTIONS + optionsLen], ip)
    {
      hide Walk;
      var k := OptFind(msg, OPTIONS, optionsLen, REQUESTED_IP);
      if k.None? {
        return None;
      }
      ghost var field := msg[OPTIONS..OPTIONS + optionsLen];
      FoundInside(field, k.value, REQUESTED_IP);
      var o := OPTIONS + k.value;
      if msg[o + 1] < 4 {
        return None;
      }
      assert msg[o + 2..o + 5] == field[k.value + 2..k.value + 5];
      if msg[o + 2..o + 5] != ip[..3] {
        return None;
      }
      if msg[o + 5] < BASE_IP {
        return None;
      }
      var yi := msg[o + 5] - BASE_IP;
      return if yi >= SLOTS then None else Some(yi);
    }

    /** The dispatch on the message type. */
    method Serve(mac: Mac, msg: array<byte>, optionsLen: nat, ticks: seq<nat>, now: nat)
        returns (answer: Option<Answer>)
      requires Valid() && |ticks| == SLOTS && OPTIONS + optionsLen <= msg.Length
      modifies lease
      ensures (Leases(), answer) == Step(old(Leases()), Asked(mac, msg[OPTIONS..OPTIONS + optionsLen], ip, ticks, now))
      ensures answer.Some? ==> answer.value.slot < SLOTS
    {
      var kind := ReadType(msg, optionsLen);
      if kind == Some(1) {
        var yi := DiscoverScan(mac, ticks);
        return if yi == SLOTS then None else Some(Offer(yi));
      } else if kind == Some(3) {
        var wanted := ReadSlot(msg, optionsLen);
        if wanted.None? {
          return None;
        }
        var granted := Grant(mac, wanted.value, now);
        return if granted then Some(Ack(wanted.value)) else None;
      } else {
        return None;
      }
    }

    /** One datagram: the table takes exactly the step that its bytes ask for, and a reply is sent exactly
        when that step has an answer. The message buffer starts with arbitrary contents. */
    method Process(packet: seq<byte>, ticks: seq<nat>, now: nat) returns (reply: Option<seq<byte>>)
      requires Valid() && |ticks| == SLOTS
      modifies lease
      ensures Means(packet, ip, ticks, now, Classify(packet, ip, ticks, now))
      ensures var (t', answer) := Step(old(Leases()), Classify(packet, ip, ticks, now));
              && Leases() == t'
              && (answer.None? <==> reply.None?)
              && (answer.Some? ==> |packet| >= MIN_SIZE && answer.value.slot < SLOTS
                                   && reply == Some(Reply(packet, answer.value, ip, nm)))
    {
      hide Step, Asked, Encode, ReplyItems, Means;
      IgnoredStep(Leases());
      DatagramMeaning(packet, ip, ticks, now, Classify(packet, ip, ticks, now));
      if |packet| < MIN_SIZE {
        return None;
      }
      var msg, len := CopyPacket(packet);
      var mac := msg[CHADDR..CHADDR + 6];
      assert mac == packet[CHADDR..CHADDR + 6];
      var answer := Serve(mac, msg, len - OPTIONS, ticks, now);
      if answer.None? {
        return None;
      }
      msg[YIADDR + 3] := BASE_IP + answer.value.slot;
      HeadBytes(msg, packet, answer.value.slot);
      var opt := WriteOptions(msg, answer.value);
      reply := Some(msg[..opt]);
    }

    lemma IgnoredStep(t: Table)
      ensures Step(t, Ignored) == (t, None)
    {
    }

    /** The datagram copied into the message buffer, with the reply's `op` and `yiaddr` put in. */
    predicate Prepared(msg: array<byte>, packet: seq<byte>)
      requires |packet| >= MIN_SIZE
      reads msg
    {
      && msg.Length == MSG_SIZE
      && (forall i :: 1 <= i < OPTIONS && !(YIADDR <= i < YIADDR + 4) ==> msg[i] == packet[i])
      && msg[0] == 2 && msg[YIADDR] == ip[0] && msg[YIADDR + 1] == ip[1] && msg[YIADDR + 2] == ip[2]
    }

    lemma HeadBytes(msg: array<byte>, packet: seq<byte>, slot: nat)
      requires |packet| >= MIN_SIZE && slot < SLOTS && Prepared(msg, packet) && msg[YIADDR + 3] == BASE_IP + slot
      ensures msg[..OPTIONS] == [2] + packet[1..YIADDR] + ip[..3] + [BASE_IP + slot] + packet[YIADDR + 4..OPTIONS]
    {
    }

    method CopyPacket(packet: seq<byte>) returns (msg: array<byte>, len: nat)
      requires |packet| >= MIN_SIZE
      ensures fresh(msg) && Prepared(msg, packet)
      ensures len == |Received(packet)| && msg[OPTIONS..len] == Received(packet)[OPTIONS..]
    {
      msg := new byte[MSG_SIZE];
      len := if |packet| > MSG_SIZE then MSG_SIZE else |packet|;
      forall i | 0 <= i < len {
        msg[i] := packet[i];
      }
      msg[0] := 2;
      msg[YIADDR], msg[YIADDR + 1], msg[YIADDR + 2], msg[YIADDR + 3] := ip[0], ip[1], ip[2], ip[3];
      ghost var opt := Received(packet)[OPTIONS..];
      assert forall k :: 0 <= k < |opt| ==> msg[OPTIONS..len][k] == opt[k];
    }

    method WriteOptions(msg: array<byte>, answer: Answer) returns (opt: nat)
      requires msg.Length == MSG_SIZE
      modifies msg
      ensures opt == REPLY_SIZE
      ensures msg[..opt] == old(msg[..OPTIONS]) + Encode(ReplyItems(answer, ip, nm)) + [END]
    {
      ghost var b := msg[..];
      opt := OptWriteU8(msg, OPTIONS, MSG_TYPE, Kind(answer));
      opt := OptWriteN(msg, opt, 54, ip);
      opt := OptWriteN(msg, opt, 1, nm);
      opt := OptWriteN(msg, opt, 3, ip);
      opt := OptWriteN(msg, opt, 6, ip);
      opt := OptWriteU32(msg, opt, 51, LEASE_SECONDS);
      SixWrites(b, [MSG_TYPE, 1, Kind(answer)], [54, 4] + ip, [1, 4] + nm, [3, 4] + ip, [6, 4] + ip,
                [51, 4] + BigEndian32(LEASE_SECONDS));
      ReplyOptionBytes(answer, ip, nm);
      ghost var xs := Encode(ReplyItems(answer, ip, nm));
      assert msg[..] == Put(b, OPTIONS, xs);
      assert msg[..opt] == msg[..][..opt] == b[..OPTIONS] + xs;
      msg[opt] := END;
      opt := opt + 1;
      assert msg[..opt] == msg[..opt - 1] + [END];
    }
  }

  lemma SixWrites(b: seq<byte>, x1: seq<byte>, x2: seq<byte>, x3: seq<byte>,
                  x4: seq<byte>, x5: seq<byte>, x6: seq<byte>)
    requires |b| == MSG_SIZE && |x1| == 3 && |x2| == |x3| == |x4| == |x5| == |x6| == 6
    ensures Put(Put(Put(Put(Put(Put(b, 240, x1), 243, x2), 249, x3), 255, x4), 261, x5), 267, x6)
            == Put(b, 240, x1 + x2 + x3 + x4 + x5 + x6)
  {
    PutPut(b, 240, x1, x2);
    PutPut(b, 240, x1 + x2, x3);
    PutPut(b, 240, x1 + x2 + x3, x4);
    PutPut(b, 240, x1 + x2 + x3 + x4, x5);
    PutPut(b, 240, x1 + x2 + x3 + x4 + x5, x6);
  }
}
