/** The DHCP option field of src/dhcpserver/dhcpserver.c: opt_find and opt_write_*.
    Layout: section 2 of RFC 2132. */
module DhcpOptions {
  import opened Bytes

  const PAD: byte := 0
  const END: byte := 255

  // ----- the format -----

  datatype Item = Pad | Opt(tag: byte, data: seq<byte>)

  predicate ValidItem(x: Item) {
    x.Opt? ==> x.tag != PAD && x.tag != END && |x.data| < 256
  }

  predicate ValidItems(xs: seq<Item>) {
    forall i :: 0 <= i < |xs| ==> ValidItem(xs[i])
  }

  function EncodeItem(x: Item): seq<byte>
    requires ValidItem(x)
  {
    if x.Pad? then [PAD] else [x.tag, |x.data|] + x.data
  }

  function Encode(xs: seq<Item>): seq<byte>
    requires ValidItems(xs)
  {
    if xs == [] then [] else EncodeItem(xs[0]) + Encode(xs[1..])
  }

  /** In bytes: a pad is 0, an option is its tag, its length and its data, and 255 ends the field. */
  lemma ItemBytes(tag: byte, data: seq<byte>)
    ensures ValidItem(Opt(tag, data)) <==> tag != 0 && tag != 255 && |data| < 256
    ensures ValidItem(Opt(tag, data)) ==> EncodeItem(Opt(tag, data)) == [tag, |data|] + data
    ensures EncodeItem(Pad) == [0] && END == 255
  {
  }

  predicate Lacks(xs: seq<Item>, cmd: byte) {
    forall i :: 0 <= i < |xs| && xs[i].Opt? ==> xs[i].tag != cmd
  }

  /** The option at position `k` of the field has tag `cmd` and lies wholly within the field. */
  predicate OptionAt(opt: seq<byte>, k: nat, cmd: byte) {
    k + 1 < |opt| && opt[k] == cmd && cmd != PAD && cmd != END && k + 2 + opt[k + 1] <= |opt|
  }

  /** What precedes position `k` is a run of whole options and pads, none of them tagged `cmd`. */
  ghost predicate FirstAt(opt: seq<byte>, k: nat, cmd: byte) {
    && OptionAt(opt, k, cmd)
    && exists xs :: ValidItems(xs) && Lacks(xs, cmd) && Encode(xs) == opt[..k]
  }

  // ----- opt_find -----

  /** The walk that opt_find takes from position `i`. */
  function Walk(opt: seq<byte>, i: nat, cmd: byte): Option<nat>
    decreases |opt| - i
  {
    if i >= |opt| || opt[i] == END then None
    else if opt[i] == PAD then Walk(opt, i + 1, cmd)
    else if i + 1 >= |opt| || i + 2 + opt[i + 1] > |opt| then None
    else if opt[i] == cmd then Some(i)
    else Walk(opt, i + 2 + opt[i + 1], cmd)
  }

  method OptFind(buf: array<byte>, opt: nat, optLen: nat, cmd: byte) returns (r: Option<nat>)
    requires opt + optLen <= buf.Length
    ensures r == Walk(buf[opt..opt + optLen], 0, cmd)
  {
    ghost var field := buf[opt..opt + optLen];
    var i := 0;
    while i < optLen
      invariant i <= optLen
      invariant Walk(field, i, cmd) == Walk(field, 0, cmd)
    {
      var tag := buf[opt + i];
      if tag == END {
        break;
      }
      if tag == PAD {
        i := i + 1;
        continue;
      }
      if i + 1 >= optLen {
        return None;
      }
      var next := i + 2 + buf[opt + i + 1];
      if next > optLen {
        return None;
      }
      if tag == cmd {
        return Some(i);
      }
      i := next;
    }
    return None;
  }

  lemma EncodeCons(x: Item, xs: seq<Item>)
    requires ValidItem(x) && ValidItems(xs)
    ensures ValidItems([x] + xs) && Encode([x] + xs) == EncodeItem(x) + Encode(xs)
  {
    assert ([x] + xs)[1..] == xs;
  }

  lemma {:induction false} EncodeAppend(xs: seq<Item>, ys: seq<Item>)
    requires ValidItems(xs) && ValidItems(ys)
    ensures Encode(xs + ys) == Encode(xs) + Encode(ys)
  {
    if xs == [] {
      assert xs + ys == ys;
    } else {
      assert (xs + ys)[1..] == xs[1..] + ys;
      EncodeAppend(xs[1..], ys);
    }
  }

  /** One whole item that is not tagged `cmd` is stepped over. */
  lemma WalkItem(opt: seq<byte>, i: nat, x: Item, cmd: byte)
    requires ValidItem(x) && (x.Opt? ==> x.tag != cmd)
    requires i + |EncodeItem(x)| <= |opt| && opt[i..i + |EncodeItem(x)|] == EncodeItem(x)
    ensures Walk(opt, i, cmd) == Walk(opt, i + |EncodeItem(x)|, cmd)
  {
    var e := opt[i..i + |EncodeItem(x)|];
    assert opt[i] == e[0];
    if x.Opt? {
      assert opt[i + 1] == e[1] == |x.data|;
    }
  }

  /** Walking over whole items that lack the tag loses nothing. */
  lemma {:induction false} WalkOver(opt: seq<byte>, head: seq<byte>, xs: seq<Item>, tail: seq<byte>, cmd: byte)
    requires ValidItems(xs) && Lacks(xs, cmd)
    requires opt == head + Encode(xs) + tail
    ensures Walk(opt, |head|, cmd) == Walk(opt, |head| + |Encode(xs)|, cmd)
    decreases |xs|
  {
    hide Walk;
    if xs != [] {
      var e := EncodeItem(xs[0]);
      Regroup(head, e, Encode(xs[1..]), tail);
      WalkItem(opt, |head|, xs[0], cmd);
      WalkOver(opt, head + e, xs[1..], tail, cmd);
    }
  }

  lemma AppendItem(opt: seq<byte>, i: nat, xs: seq<Item>, x: Item, cmd: byte)
    requires ValidItems(xs) && Lacks(xs, cmd) && ValidItem(x) && (x.Opt? ==> x.tag != cmd)
    requires i + |EncodeItem(x)| <= |opt| && Encode(xs) == opt[..i] && EncodeItem(x) == opt[i..i + |EncodeItem(x)|]
    ensures ValidItems(xs + [x]) && Lacks(xs + [x], cmd) && Encode(xs + [x]) == opt[..i + |EncodeItem(x)|]
  {
    EncodeAppend(xs, [x]);
    assert Encode([x]) == EncodeItem(x);
    assert opt[..i + |EncodeItem(x)|] == opt[..i] + opt[i..i + |EncodeItem(x)|];
  }

  lemma {:induction false} WalkStopsAtFirst(opt: seq<byte>, i: nat, cmd: byte, xs: seq<Item>)
      returns (k: nat, ys: seq<Item>)
    requires ValidItems(xs) && Lacks(xs, cmd) && i <= |opt| && Encode(xs) == opt[..i]
    requires Walk(opt, i, cmd).Some?
    ensures k == Walk(opt, i, cmd).value && OptionAt(opt, k, cmd)
    ensures ValidItems(ys) && Lacks(ys, cmd) && Encode(ys) == opt[..k]
    decreases |opt| - i
  {
    hide Encode, Lacks, ValidItems;
    if opt[i] == PAD {
      AppendItem(opt, i, xs, Pad, cmd);
      k, ys := WalkStopsAtFirst(opt, i + 1, cmd, xs + [Pad]);
    } else if opt[i] == cmd {
      k, ys := i, xs;
    } else {
      var next := i + 2 + opt[i + 1];
      var x := Opt(opt[i], opt[i + 2..next]);
      AppendItem(opt, i, xs, x, cmd);
      k, ys := WalkStopsAtFirst(opt, next, cmd, xs + [x]);
    }
  }

  lemma WalkReaches(opt: seq<byte>, k: nat, cmd: byte, xs: seq<Item>)
    requires OptionAt(opt, k, cmd) && ValidItems(xs) && Lacks(xs, cmd) && Encode(xs) == opt[..k]
    ensures Walk(opt, 0, cmd) == Some(k)
  {
    hide Walk;
    assert opt == [] + Encode(xs) + opt[k..];
    WalkOver(opt, [], xs, opt[k..], cmd);
    WalkHere(opt, k, cmd);
  }

  lemma WalkHere(opt: seq<byte>, k: nat, cmd: byte)
    requires OptionAt(opt, k, cmd)
    ensures Walk(opt, k, cmd) == Some(k)
  {
  }

  /** On arbitrary bytes opt_find returns the position `k` exactly when the option there has the tag,
      lies wholly within the field, and follows only whole items without the tag. */
  lemma WalkFindsFirst(opt: seq<byte>, k: nat, cmd: byte)
    ensures Walk(opt, 0, cmd) == Some(k) <==> FirstAt(opt, k, cmd)
  {
    if Walk(opt, 0, cmd) == Some(k) {
      var j, ys := WalkStopsAtFirst(opt, 0, cmd, []);
      assert FirstAt(opt, k, cmd);
    } else if FirstAt(opt, k, cmd) {
      var xs :| ValidItems(xs) && Lacks(xs, cmd) && Encode(xs) == opt[..k];
      WalkReaches(opt, k, cmd, xs);
    }
  }

  lemma FoundInside(opt: seq<byte>, k: nat, cmd: byte)
    requires Walk(opt, 0, cmd) == Some(k)
    ensures OptionAt(opt, k, cmd)
  {
    WalkFindsFirst(opt, k, cmd);
  }

  /** Nothing is found in an encoded field that lacks the tag, whatever follows its end marker. */
  lemma WalkMissing(xs: seq<Item>, rest: seq<byte>, cmd: byte)
    requires ValidItems(xs) && Lacks(xs, cmd)
    ensures Walk(Encode(xs) + [END] + rest, 0, cmd) == None
  {
    var opt := Encode(xs) + [END] + rest;
    assert opt == [] + Encode(xs) + ([END] + rest);
    WalkOver(opt, [], xs, [END] + rest, cmd);
  }

  lemma OptionInside(opt: seq<byte>, k: nat, x: Item)
    requires ValidItem(x) && x.Opt?
    requires k + |EncodeItem(x)| <= |opt| && opt[k..k + |EncodeItem(x)|] == EncodeItem(x)
    ensures OptionAt(opt, k, x.tag) && opt[k + 1] == |x.data| && opt[k + 2..k + 2 + |x.data|] == x.data
  {
    var e := opt[k..k + |EncodeItem(x)|];
    assert opt[k] == e[0] && opt[k + 1] == e[1] && opt[k + 2..k + |e|] == e[2..];
  }

  /** In an encoded field the first option with the tag is found, with its data behind it. */
  lemma WalkPresent(opt: seq<byte>, xs: seq<Item>, x: Item, tail: seq<byte>)
    requires ValidItem(x) && x.Opt? && ValidItems(xs) && Lacks(xs, x.tag)
    requires opt == Encode(xs) + EncodeItem(x) + tail
    ensures var k := |Encode(xs)|;
            && Walk(opt, 0, x.tag) == Some(k)
            && k + 2 + |x.data| <= |opt| && opt[k + 1] == |x.data| && opt[k + 2..k + 2 + |x.data|] == x.data
  {
    hide Walk, Encode, EncodeItem;
    Middle(Encode(xs), EncodeItem(x), tail);
    OptionInside(opt, |Encode(xs)|, x);
    WalkReaches(opt, |Encode(xs)|, x.tag, xs);
  }

  // ----- decoding a whole field -----

  /** The items up to the end marker, or None if the field is not well formed. */
  function Decode(opt: seq<byte>): Option<seq<Item>>
    decreases |opt|
  {
    if opt == [] then None
    else if opt[0] == END then Some([])
    else if opt[0] == PAD then Prepend(Pad, Decode(opt[1..]))
    else if |opt| < 2 || 2 + opt[1] > |opt| then None
    else Prepend(Opt(opt[0], opt[2..2 + opt[1]]), Decode(opt[2 + opt[1]..]))
  }

  function Prepend(x: Item, xs: Option<seq<Item>>): Option<seq<Item>> {
    if xs.None? then None else Some([x] + xs.value)
  }

  /** Decoding returns exactly what was encoded. */
  lemma {:induction false} DecodeEncode(xs: seq<Item>, rest: seq<byte>)
    requires ValidItems(xs)
    ensures Decode(Encode(xs) + [END] + rest) == Some(xs)
  {
    if xs == [] {
      assert Encode(xs) + [END] + rest == [END] + rest;
    } else {
      hide Decode;
      var tail := Encode(xs[1..]) + [END] + rest;
      assert Encode(xs) + [END] + rest == EncodeItem(xs[0]) + tail;
      DecodeItem(xs[0], tail);
      DecodeEncode(xs[1..], rest);
      assert [xs[0]] + xs[1..] == xs;
    }
  }

  lemma DecodeItem(x: Item, tail: seq<byte>)
    requires ValidItem(x)
    ensures Decode(EncodeItem(x) + tail) == Prepend(x, Decode(tail))
  {
    var e, opt := EncodeItem(x), EncodeItem(x) + tail;
    assert opt[0] == e[0] && opt[|e|..] == tail;
    if x.Opt? {
      assert opt[1] == e[1] && opt[2..|e|] == x.data;
    }
  }

  // ----- opt_write_* -----

  method OptWriteN(buf: array<byte>, opt: nat, cmd: byte, data: seq<byte>) returns (next: nat)
    requires opt + 2 + |data| <= buf.Length && |data| < 256
    modifies buf
    ensures next == opt + 2 + |data|
    ensures buf[..] == Put(old(buf[..]), opt, [cmd, |data|] + data)
  {
    buf[opt] := cmd;
    buf[opt + 1] := |data|;
    forall i | 0 <= i < |data| {
      buf[opt + 2 + i] := data[i];
    }
    next := opt + 2 + |data|;
  }

  method OptWriteU8(buf: array<byte>, opt: nat, cmd: byte, val: byte) returns (next: nat)
    requires opt + 3 <= buf.Length
    modifies buf
    ensures next == opt + 3
    ensures buf[..] == Put(old(buf[..]), opt, [cmd, 1, val])
  {
    buf[opt], buf[opt + 1], buf[opt + 2] := cmd, 1, val;
    next := opt + 3;
  }

  method OptWriteU32(buf: array<byte>, opt: nat, cmd: byte, val: int) returns (next: nat)
    requires opt + 6 <= buf.Length && 0 <= val < TWO_32
    modifies buf
    ensures next == opt + 6
    ensures buf[..] == Put(old(buf[..]), opt, [cmd, 4] + BigEndian32(val))
  {
    buf[opt], buf[opt + 1] := cmd, 4;
    buf[opt + 2] := val / 0x100_0000;
    buf[opt + 3] := val / 0x1_0000 % 256;
    buf[opt + 4] := val / 0x100 % 256;
    buf[opt + 5] := val % 256;
    next := opt + 6;
  }
}
