/** ntp_recv_callback of src/ntp.c: judging a datagram, and the era arithmetic of section 6 of RFC 5905. */
module NtpPacket {
  import opened Bytes

  const NTP_DELTA := 2_208_988_800
  const NTP_MSG_LEN := 48

  datatype Verdict = BadAddress | BadPacket | KissOfDeath | Unsynchronised | Time(seconds: int)

  /** pbuf_get_at: zero past the end. */
  function GetAt(p: seq<byte>, i: nat): byte {
    if i < |p| then p[i] else 0
  }

  /** Seconds since 1970 for a 32-bit count of seconds in the NTP era that makes it current. */
  function EraTime(since1900: nat): int
    requires since1900 < TWO_32
  {
    if since1900 < NTP_DELTA then since1900 + TWO_32 - NTP_DELTA else since1900 - NTP_DELTA
  }

  function Judge(addressMatches: bool, portMatches: bool, p: seq<byte>): Verdict {
    var first := GetAt(p, 0);
    var mode, leap, stratum := first % 8, first / 64 % 4, GetAt(p, 1);
    if !addressMatches then BadAddress
    else if !(portMatches && |p| == NTP_MSG_LEN && mode == 4) then BadPacket
    else if stratum == 0 then KissOfDeath
    else if leap == 3 then Unsynchronised
    else Time(EraTime(FromBigEndian32(p[40..44])))
  }

  /** The KoD of a server that sets nothing else. */
  function Kiss(): seq<byte> {
    seq(NTP_MSG_LEN, i => if i == 0 then 0x24 else 0)
  }

  /** What a server puts in the transmit timestamp's seconds for Unix time `t`. */
  function Timestamp(t: nat): seq<byte> {
    BigEndian32((t + NTP_DELTA) % TWO_32)
  }

  lemma EraInverse(t: nat)
    requires t < TWO_32
    ensures EraTime((t + NTP_DELTA) % TWO_32) == t
    ensures 0 <= EraTime(t) < TWO_32 && (EraTime(t) + NTP_DELTA) % TWO_32 == t
  {
  }

  /** The conversion inverts the server's encoding for every Unix time below 2^32, on both sides of the
      2036 rollover; every other count of seconds is the encoding of some such time. */
  lemma EraRoundTrip(t: nat)
    requires t < TWO_32
    ensures EraTime(FromBigEndian32(Timestamp(t))) == t
    ensures 0 <= EraTime(t) < TWO_32 && Timestamp(EraTime(t)) == BigEndian32(t)
  {
    BigEndianRoundTrip((t + NTP_DELTA) % TWO_32);
    EraInverse(t);
  }

  // ----- what a datagram means, on its bytes -----

  /** A kiss-o'-death: a server's packet of stratum 0 from the asked address and port, whatever its leap bits. */
  predicate KodBytes(addressMatches: bool, portMatches: bool, p: seq<byte>) {
    addressMatches && portMatches && |p| == 48 && p[0] % 8 == 4 && p[1] == 0
  }

  /** A time: a server's packet of another stratum from there, its clock not unsynchronised. */
  predicate TimeBytes(addressMatches: bool, portMatches: bool, p: seq<byte>) {
    addressMatches && portMatches && |p| == 48 && p[0] % 8 == 4 && p[1] != 0 && p[0] / 64 != 3
  }

  /** The seconds of the transmit timestamp, which count from 1900 and wrap, are those of Unix time `t`. */
  predicate Tells(p: seq<byte>, t: int)
    requires |p| == 48
  {
    var a: int, b: int, c: int, d: int := p[40], p[41], p[42], p[43];
    && 0 <= t < 0x1_0000_0000
    && (t + 2_208_988_800) % 0x1_0000_0000 == 0x100_0000 * a + 0x1_0000 * b + 0x100 * c + d
  }

  /** Each datagram is one thing: a KoD, a time, or a failure, which is an address error for another address and a
      protocol error otherwise. */
  lemma DatagramMeaning(addressMatches: bool, portMatches: bool, p: seq<byte>)
    ensures var v := Judge(addressMatches, portMatches, p);
            && (v == KissOfDeath <==> KodBytes(addressMatches, portMatches, p))
            && (v.Time? <==> TimeBytes(addressMatches, portMatches, p))
            && (v.Time? ==> Tells(p, v.seconds))
            && (v == BadAddress <==> !addressMatches)
  {
    if TimeBytes(addressMatches, portMatches, p) {
      var b := p[40..44];
      assert b[0] == p[40] && b[1] == p[41] && b[2] == p[42] && b[3] == p[43];
      EraInverse(FromBigEndian32(b));
      SameSeconds(FromBigEndian32(b));
    }
  }

  lemma SameSeconds(since1900: nat)
    requires since1900 < TWO_32
    ensures 0 <= EraTime(since1900) < TWO_32 && (EraTime(since1900) + 2_208_988_800) % TWO_32 == since1900
  {
  }

  /** The bytes tell one time only. */
  lemma TellsOne(p: seq<byte>, t: int, u: int)
    requires |p| == 48 && Tells(p, t) && Tells(p, u)
    ensures t == u
  {
  }

  /** A well-formed reply from the server we asked sets exactly the time the server encoded. */
  lemma GenuineReplySetsTime(p: seq<byte>, t: nat)
    requires |p| == NTP_MSG_LEN && t < TWO_32 && p[40..44] == Timestamp(t)
    ensures Judge(true, true, p) == Time(t) <==> p[0] % 8 == 4 && p[0] < 192 && p[1] != 0
  {
    EraRoundTrip(t);
  }
}
