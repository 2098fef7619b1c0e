/** Octets and the small vocabulary shared by the packet modules. */
module Bytes {
  type byte = x: int | 0 <= x < 256

  /** An IPv4 address. */
  type Ip = s: seq<byte> | |s| == 4 witness [0, 0, 0, 0]

  datatype Option<+T> = None | Some(value: T)

  /** lwIP's err_t, as far as the portal uses it. */
  datatype ErrT = ErrOk | ErrVal | ErrAbrt | ErrMem

  const TWO_16 := 0x1_0000
  const TWO_31 := 0x8000_0000
  const TWO_32 := 0x1_0000_0000

  function BigEndian32(v: int): (s: seq<byte>)
    requires 0 <= v < TWO_32
    ensures |s| == 4
  {
    [v / 0x100_0000, v / 0x1_0000 % 256, v / 0x100 % 256, v % 256]
  }

  function FromBigEndian32(s: seq<byte>): (v: int)
    requires |s| == 4
    ensures 0 <= v < TWO_32
  {
    var a: int, b: int, c: int := s[0], s[1], s[2];
    a * 0x100_0000 + b * 0x1_0000 + c * 0x100 + s[3]
  }

  lemma BigEndianRoundTrip(v: int)
    requires 0 <= v < TWO_32
    ensures FromBigEndian32(BigEndian32(v)) == v
  {
    assert v / 0x1_0000 / 0x100 == v / 0x100_0000;
    assert v / 0x100 / 0x100 == v / 0x1_0000;
  }

  lemma Regroup<T>(h: seq<T>, e: seq<T>, r: seq<T>, t: seq<T>)
    ensures h + (e + r) + t == (h + e) + r + t
    ensures (h + (e + r) + t)[|h|..|h| + |e|] == e
    ensures (h + (e + r) + t)[..|h|] == h
    ensures (h + (e + r) + t)[|h| + |e|..] == r + t
  {
    assert h + (e + r) + t == h + (e + (r + t));
  }

  lemma Assoc<T>(a: seq<T>, b: seq<T>, c: seq<T>)
    ensures a + (b + c) == (a + b) + c
  {
  }

  lemma Middle<T>(h: seq<T>, e: seq<T>, t: seq<T>)
    ensures (h + e + t)[..|h|] == h && (h + e + t)[|h|..|h| + |e|] == e
  {
  }

  /** The bytes `x` written over `buf` from position `pos` on. */
  function Put(buf: seq<byte>, pos: nat, x: seq<byte>): (r: seq<byte>)
    requires pos + |x| <= |buf|
    ensures |r| == |buf|
  {
    buf[..pos] + x + buf[pos + |x|..]
  }

  lemma PutPut(buf: seq<byte>, pos: nat, x: seq<byte>, y: seq<byte>)
    requires pos + |x| + |y| <= |buf|
    ensures Put(Put(buf, pos, x), pos + |x|, y) == Put(buf, pos, x + y)
  {
  }
}
