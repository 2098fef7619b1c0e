/** dns_server_process of src/dnsserver/dnsserver.c: the QNAME walk and the answer built in place.
    Message and name formats: sections 4.1 and 2.3.4 of RFC 1035. */
module DnsServer {
  import opened Bytes

  const MAX_MSG := 300
  const HEADER := 12
  // QR, AA and RA set; one question, one answer
  const ANSWER_HEADER: seq<byte> := [0x84, 0x80, 0, 1, 0, 1, 0, 0, 0, 0]

  type Name = seq<seq<byte>>

  function Word(hi: int, lo: int): int {
    hi * 256 + lo
  }

  // ----- names -----

  predicate ValidName(name: Name) {
    forall i :: 0 <= i < |name| ==> 1 <= |name[i]| <= 63
  }

  function EncodeName(name: Name): (r: seq<byte>)
    requires ValidName(name)
    ensures |r| >= 1
  {
    if name == [] then [0] else [|name[0]|] + name[0] + EncodeName(name[1..])
  }

  /** The decoder of section 4.1.4: labels, or a pointer to labels elsewhere, at most `jumps` times. */
  function DecodeName(msg: seq<byte>, pos: nat, jumps: nat): Option<Name>
    decreases jumps, |msg| - pos
  {
    if pos >= |msg| then None
    else if msg[pos] == 0 then Some([])
    else if msg[pos] >= 0xc0 then
      if jumps == 0 || pos + 1 >= |msg| then None
      else DecodeName(msg, Word(msg[pos] - 0xc0, msg[pos + 1]), jumps - 1)
    else if msg[pos] > 63 || pos + 1 + msg[pos] > |msg| then None
    else
      var rest := DecodeName(msg, pos + 1 + msg[pos], jumps);
      if rest.None? then None else Some([msg[pos + 1..pos + 1 + msg[pos]]] + rest.value)
  }

  // ----- which datagrams are answered -----

  /** A query with opcode 0 and at least one question. */
  predicate StandardQuery(packet: seq<byte>) {
    && |packet| >= HEADER
    && packet[2] / 128 == 0 && packet[2] / 8 % 16 == 0
    && Word(packet[4], packet[5]) >= 1
  }

  /** In the header's bytes: the first flag byte has the top five bits clear, and the question count is not
      zero. */
  lemma QueryBytes(packet: seq<byte>)
    ensures StandardQuery(packet) <==> |packet| >= 12 && packet[2] < 8 && !(packet[4] == 0 && packet[5] == 0)
  {
  }

  /** The first question asks for `name`: its QNAME fits in 255 octets and QTYPE and QCLASS follow. */
  ghost predicate Asks(packet: seq<byte>, name: Name) {
    && ValidName(name)
    && var n := |EncodeName(name)|;
       && n <= 255 && HEADER + n + 4 <= |packet|
       && packet[HEADER..HEADER + n] == EncodeName(name)
  }

  /** In figures: labels of 1 to 63 octets, a QNAME of at most 255 behind the 12 bytes of the header, and four
      more bytes. */
  lemma QuestionBytes(packet: seq<byte>, name: Name)
    ensures Asks(packet, name) <==>
              && (forall i :: 0 <= i < |name| ==> 1 <= |name[i]| <= 63)
              && |EncodeName(name)| <= 255 && |packet| >= 12 + |EncodeName(name)| + 4
              && packet[12..12 + |EncodeName(name)|] == EncodeName(name)
  {
  }

  /** The reply to a question whose QNAME takes `n` octets: the id and the question as received, and
      one A record of 60 seconds whose owner is a pointer to offset 12. */
  function Reply(packet: seq<byte>, n: nat, ip: Ip): (r: seq<byte>)
    requires HEADER + n + 4 <= |packet|
  {
    packet[..2] + ANSWER_HEADER + packet[HEADER..HEADER + n + 4]
    + [0xc0, HEADER, 0, 1, 0, 1, 0, 0, 0, 60, 0, 4] + ip
  }

  // ----- the QNAME walk -----

  /** Where the name starting at `pos` ends, if it is terminated within `msg`. */
  function NameEnd(msg: seq<byte>, pos: nat): (r: Option<nat>)
    ensures r.Some? ==> pos < r.value <= |msg|
    decreases |msg| - pos
  {
    if pos >= |msg| then None
    else if msg[pos] == 0 then Some(pos + 1)
    else if msg[pos] > 63 || pos + 1 + msg[pos] > |msg| then None
    else NameEnd(msg, pos + 1 + msg[pos])
  }

  lemma {:induction false} EndOfName(msg: seq<byte>, pos: nat, name: Name)
    requires ValidName(name) && pos + |EncodeName(name)| <= |msg|
    requires msg[pos..pos + |EncodeName(name)|] == EncodeName(name)
    ensures NameEnd(msg, pos) == Some(pos + |EncodeName(name)|)
    ensures forall jumps: nat :: DecodeName(msg, pos, jumps) == Some(name)
    decreases |name|
  {
    var e := msg[pos..pos + |EncodeName(name)|];
    assert msg[pos] == e[0];
    if name != [] {
      var k := |name[0]|;
      assert e[1..1 + k] == name[0] && e[1 + k..] == EncodeName(name[1..]);
      assert msg[pos + 1..pos + 1 + k] == e[1..1 + k];
      assert msg[pos + 1 + k..pos + 1 + k + |EncodeName(name[1..])|] == e[1 + k..];
      EndOfName(msg, pos + 1 + k, name[1..]);
      assert [name[0]] + name[1..] == name;
    }
  }

  lemma {:induction false} NameOfEnd(msg: seq<byte>, pos: nat) returns (name: Name)
    requires NameEnd(msg, pos).Some?
    ensures ValidName(name) && EncodeName(name) == msg[pos..NameEnd(msg, pos).value]
    decreases |msg| - pos
  {
    if msg[pos] == 0 {
      name := [];
    } else {
      var k := msg[pos];
      var rest := NameOfEnd(msg, pos + 1 + k);
      name := [msg[pos + 1..pos + 1 + k]] + rest;
      assert name[1..] == rest;
      assert msg[pos..NameEnd(msg, pos).value] == [k] + name[0] + EncodeName(rest);
    }
  }

  function Received(packet: seq<byte>): seq<byte> {
    if |packet| > MAX_MSG then packet[..MAX_MSG] else packet
  }

  /** The checks on the received bytes, as the code makes them: the QNAME's end, if it is acceptable. */
  function Question(msg: seq<byte>): (r: Option<nat>)
    ensures r.Some? ==> HEADER < r.value && r.value + 4 <= |msg| && r.value <= HEADER + 255
  {
    var end := NameEnd(msg, HEADER);
    if end.None? || end.value - HEADER > 255 || end.value + 4 > |msg| then None else end
  }

  lemma SamePrefix(packet: seq<byte>, q: nat)
    requires HEADER <= q <= |Received(packet)|
    ensures packet[HEADER..q] == Received(packet)[HEADER..q]
  {
  }

  /** Those checks on at most 300 bytes accept exactly the datagrams whose first question asks for a
      name: cutting a longer datagram off never matters. */
  lemma QuestionIsAsked(packet: seq<byte>, q: nat)
    requires |packet| >= HEADER
    ensures Question(Received(packet)) == Some(q)
            <==> exists name :: Asks(packet, name) && q == HEADER + |EncodeName(name)|
  {
    var msg := Received(packet);
    if Question(msg) == Some(q) {
      var name := NameOfEnd(msg, HEADER);
      SamePrefix(packet, q);
      assert Asks(packet, name);
    }
    forall name | Asks(packet, name) && q == HEADER + |EncodeName(name)| ensures Question(msg) == Some(q) {
      SamePrefix(packet, q);
      EndOfName(msg, HEADER, name);
    }
  }

  /** The limit on labels: a question for a single label is answered exactly if that has at most 63 octets. */
  lemma OneLabel(packet: seq<byte>, octets: seq<byte>, rest: seq<byte>)
    requires 1 <= |octets| < 256 && |rest| >= 4 && |packet| >= 12 && packet[12..] == [|octets|] + octets + [0] + rest
    ensures (exists name :: Asks(packet, name)) <==> |octets| <= 63
  {
    var tail := packet[12..];
    assert packet[12] == tail[0];
    if |octets| <= 63 {
      var name := [octets];
      assert name[1..] == [];
      assert EncodeName(name) == [|octets|] + octets + [0];
      assert tail[..|octets| + 2] == EncodeName(name) && packet[12..12 + |octets| + 2] == tail[..|octets| + 2];
      assert Asks(packet, name);
    }
    forall name | Asks(packet, name) ensures |octets| <= 63 {
      assert packet[12] == packet[12..12 + |EncodeName(name)|][0] == EncodeName(name)[0];
    }
  }

  /** A reply keeps the id, carries the question verbatim, and holds one A answer: its owner is a
      compression pointer that decodes to the very name asked, its data is the server's address. */
  lemma ReplyAnswers(packet: seq<byte>, name: Name, ip: Ip)
    requires Asks(packet, name)
    ensures var n := |EncodeName(name)|; var r := Reply(packet, n, ip); var answer := HEADER + n + 4;
            && |r| == answer + 16 <= MAX_MSG
            && r[..2] == packet[..2] && r[2..HEADER] == [0x84, 0x80, 0, 1, 0, 1, 0, 0, 0, 0]
            && r[HEADER..answer] == packet[HEADER..answer]
            && DecodeName(r, HEADER, 0) == Some(name)
            && DecodeName(r, answer, 1) == Some(name)
            && r[answer + 2..answer + 12] == [0, 1, 0, 1, 0, 0, 0, 60, 0, 4]
            && r[answer + 12..] == ip
  {
    hide DecodeName, NameEnd, EncodeName;
    var n := |EncodeName(name)|;
    var r, answer := Reply(packet, n, ip), HEADER + n + 4;
    assert r[HEADER..answer] == packet[HEADER..answer];
    assert r[HEADER..HEADER + n] == r[HEADER..answer][..n] == packet[HEADER..answer][..n] == packet[HEADER..HEADER + n];
    EndOfName(r, HEADER, name);
    PointerToName(r, answer, name);
  }

  lemma PointerToName(r: seq<byte>, answer: nat, name: Name)
    requires answer + 1 < |r| && r[answer] == 0xc0 && r[answer + 1] == HEADER && DecodeName(r, HEADER, 0) == Some(name)
    ensures DecodeName(r, answer, 1) == Some(name)
  {
  }

  // ----- the responder -----

  class Server {
    const ip: Ip

    constructor (ip: Ip)
      ensures this.ip == ip
    {
      this.ip := ip;
    }

    /** A reply is attempted exactly for a standard query whose first question asks for a name; it is
        the one described by `Reply`. The guard against an answer past the buffer never fires. */
    method Process(packet: seq<byte>) returns (reply: Option<seq<byte>>, overflow: bool)
      ensures reply.Some? <==> StandardQuery(packet) && exists name :: Asks(packet, name)
      ensures forall name :: StandardQuery(packet) && Asks(packet, name) ==>
                               reply == Some(Reply(packet, |EncodeName(name)|, ip))
      ensures !overflow
    {
      hide DecodeName, NameEnd, EncodeName, Reply, ValidName;
      overflow := false;
      var msg := new byte[MAX_MSG];
      var len := if |packet| > MAX_MSG then MAX_MSG else |packet|;
      forall i | 0 <= i < len {
        msg[i] := packet[i];
      }
      assert len == |Received(packet)| && msg[..len] == Received(packet);
      var standard := CheckHeader(msg, len, packet);
      if !standard {
        return None, false;
      }
      var q := ReadQuestion(msg, len);
      forall name | Asks(packet, name) ensures q == Some(HEADER + |EncodeName(name)|) {
        QuestionIsAsked(packet, HEADER + |EncodeName(name)|);
      }
      if q.None? {
        return None, false;
      }
      QuestionIsAsked(packet, q.value);
      overflow := q.value + 4 + 16 > MAX_MSG;
      if overflow {
        return None, overflow;
      }
      WriteReply(msg, packet, q.value - HEADER);
      reply := Some(msg[..q.value + 4 + 16]);
    }

    lemma FlagBits(hi: byte, lo: byte)
      ensures Word(hi, lo) / 0x8000 % 2 == hi / 128 && Word(hi, lo) / 0x800 % 16 == hi / 8 % 16
    {
      assert Word(hi, lo) / 256 == hi;
      DivDiv(Word(hi, lo), 128);
      DivDiv(Word(hi, lo), 8);
    }

    lemma DivDiv(w: nat, k: nat)
      requires k == 8 || k == 128
      ensures w / (256 * k) == w / 256 / k
    {
      if k == 8 {
        assert w / 2048 == w / 256 / 8;
      } else {
        assert w / 32768 == w / 256 / 128;
      }
    }

    /** The checks on the header fields. */
    method CheckHeader(msg: array<byte>, len: nat, ghost packet: seq<byte>) returns (ok: bool)
      requires len == |Received(packet)| && len <= msg.Length && forall i :: 0 <= i < len ==> msg[i] == packet[i]
      ensures ok == StandardQuery(packet)
    {
      if len < HEADER {
        return false;
      }
      var flags := Word(msg[2], msg[3]);
      var questionCount := Word(msg[4], msg[5]);
      FlagBits(msg[2], msg[3]);
      if flags / 0x8000 % 2 != 0 {
        return false;
      }
      if flags / 0x800 % 16 != 0 {
        return false;
      }
      return questionCount >= 1;
    }

    /** The loop over the labels and the length checks behind it; `q` is where the QNAME ends. */
    method ReadQuestion(msg: array<byte>, len: nat) returns (q: Option<nat>)
      requires HEADER <= len <= msg.Length
      ensures q == Question(msg[..len])
    {
      ghost var received := msg[..len];
      var ptr := HEADER;
      var terminated := false;
      while ptr < len
        invariant HEADER <= ptr <= len && !terminated
        invariant NameEnd(received, ptr) == NameEnd(received, HEADER)
      {
        if msg[ptr] == 0 {
          ptr := ptr + 1;
          terminated := true;
          break;
        } else {
          var labelLen := msg[ptr];
          ptr := ptr + 1;
          if labelLen > 63 {
            return None;
          }
          if ptr + labelLen > len {
            return None;
          }
          ptr := ptr + labelLen;
        }
      }
      if !terminated {
        return None;
      }
      if ptr - HEADER > 255 {
        return None;
      }
      if ptr + 4 > len {
        return None;
      }
      return Some(ptr);
    }

    method WriteReply(msg: array<byte>, packet: seq<byte>, n: nat)
      requires msg.Length == MAX_MSG && n <= 255 && HEADER + n + 4 <= |packet|
      requires forall i :: 0 <= i < HEADER + n + 4 ==> msg[i] == packet[i]
      modifies msg
      ensures msg[..HEADER + n + 20] == Reply(packet, n, ip)
    {
      hide Put, Reply;
      var a := HEADER + n + 4;
      WriteAnswer(msg, a);
      ghost var s := msg[..];
      assert s[..a] == msg[..a] == packet[..a] && s[a..a + 16] == msg[a..a + 16];
      Write4(msg, 2, 0x84, 0x80, 0, 1);
      Write4(msg, 6, 0, 1, 0, 0);
      Write2(msg, 10, 0, 0);
      PutPut(s, 2, [0x84, 0x80, 0, 1], [0, 1, 0, 0]);
      PutPut(s, 2, [0x84, 0x80, 0, 1] + [0, 1, 0, 0], [0, 0]);
      assert [0x84, 0x80, 0, 1] + [0, 1, 0, 0] + [0, 0] == ANSWER_HEADER;
      ReplyFromBuffer(s, packet, n);
      assert msg[..a + 16] == msg[..][..a + 16];
    }

    lemma ReplyFromBuffer(s: seq<byte>, packet: seq<byte>, n: nat)
      requires |s| == MAX_MSG && n <= 255 && HEADER + n + 4 <= |packet|
      requires var a := HEADER + n + 4;
               s[..a] == packet[..a] && s[a..a + 16] == [0xc0, HEADER, 0, 1, 0, 1, 0, 0, 0, 60, 0, 4] + ip
      ensures Put(s, 2, ANSWER_HEADER)[..HEADER + n + 20] == Reply(packet, n, ip)
    {
      var a := HEADER + n + 4;
      var r := Put(s, 2, ANSWER_HEADER);
      assert r[..2] == packet[..2];
      assert r[HEADER..a] == s[HEADER..a] == s[..a][HEADER..] == packet[HEADER..a];
      assert r[a..a + 16] == s[a..a + 16];
      FourParts(r, a);
    }

    method WriteAnswer(msg: array<byte>, a: nat)
      requires a + 16 <= msg.Length
      modifies msg
      ensures msg[a..a + 16] == [0xc0, HEADER, 0, 1, 0, 1, 0, 0, 0, 60, 0, 4] + ip
      ensures msg[..a] == old(msg[..a])
    {
      ghost var s := msg[..];
      Write4(msg, a, 0xc0, HEADER, 0, 1);
      Write4(msg, a + 4, 0, 1, 0, 0);
      Write4(msg, a + 8, 0, 60, 0, 4);
      Write4(msg, a + 12, ip[0], ip[1], ip[2], ip[3]);
      PutPut(s, a, [0xc0, HEADER, 0, 1], [0, 1, 0, 0]);
      PutPut(s, a, [0xc0, HEADER, 0, 1] + [0, 1, 0, 0], [0, 60, 0, 4]);
      ghost var fixed := [0xc0, HEADER, 0, 1] + [0, 1, 0, 0] + [0, 60, 0, 4];
      PutPut(s, a, fixed, [ip[0], ip[1], ip[2], ip[3]]);
      assert fixed == [0xc0, HEADER, 0, 1, 0, 1, 0, 0, 0, 60, 0, 4];
      assert ip == [ip[0], ip[1], ip[2], ip[3]];
      assert msg[..] == Put(s, a, fixed + ip);
      assert msg[a..a + 16] == msg[..][a..a + 16] == fixed + ip;
    }

    method Write2(msg: array<byte>, a: nat, b0: byte, b1: byte)
      requires a + 2 <= msg.Length
      modifies msg
      ensures msg[..] == Put(old(msg[..]), a, [b0, b1])
    {
      msg[a], msg[a + 1] := b0, b1;
    }

    method Write4(msg: array<byte>, a: nat, b0: byte, b1: byte, b2: byte, b3: byte)
      requires a + 4 <= msg.Length
      modifies msg
      ensures msg[..] == Put(old(msg[..]), a, [b0, b1, b2, b3])
    {
      msg[a], msg[a + 1], msg[a + 2], msg[a + 3] := b0, b1, b2, b3;
    }

    lemma FourParts(s: seq<byte>, a: nat)
      requires HEADER <= a && a + 16 <= |s|
      ensures s[..a + 16] == s[..2] + s[2..HEADER] + s[HEADER..a] + s[a..a + 16]
    {
    }
  }
}
