/** urldecode_inplace of src/wifi.c: percent decoding (section 2.1 of RFC 3986) of a form value over
    itself, followed by the removal of trailing CR and LF. */
module UrlDecode {
  import opened CStrings

  // ----- the function it computes -----

  function HexToInt(c: char): (r: int)
    ensures 0 <= r < 16
  {
    if '0' <= c <= '9' then c as int - '0' as int
    else if 'a' <= c <= 'f' then c as int - 'a' as int + 10
    else if 'A' <= c <= 'F' then c as int - 'A' as int + 10
    else 0
  }

  function Byte(hi: char, lo: char): char {
    (16 * HexToInt(hi) + HexToInt(lo)) as char
  }

  function Decode(s: string): (r: string)
    ensures |r| <= |s|
  {
    if s == [] then []
    else if s[0] == '%' && |s| >= 3 then [Byte(s[1], s[2])] + Decode(s[3..])
    else if s[0] == '+' then [' '] + Decode(s[1..])
    else [s[0]] + Decode(s[1..])
  }

  predicate EndsInBreak(s: string) {
    s != [] && (s[|s| - 1] == '\r' || s[|s| - 1] == '\n')
  }

  function StripBreaks(s: string): (r: string)
    ensures |r| <= |s| && r == s[..|r|] && !EndsInBreak(r)
    ensures !EndsInBreak(s) ==> r == s
  {
    if EndsInBreak(s) then StripBreaks(s[..|s| - 1]) else s
  }

  // ----- its units -----

  /** Hexadecimal digits of either case count as usual, and every other character as 0. */
  lemma HexDigits(i: nat, c: char)
    ensures i < 16 ==> HexToInt("0123456789abcdef"[i]) == i && HexToInt("0123456789ABCDEF"[i]) == i
    ensures c !in "0123456789abcdef" && c !in "0123456789ABCDEF" ==> HexToInt(c) == 0
  {
    var lower, upper := "0123456789abcdef", "0123456789ABCDEF";
    if '0' <= c <= '9' {
      assert lower[c as int - '0' as int] == c;
    } else if 'a' <= c <= 'f' {
      assert lower[c as int - 'a' as int + 10] == c;
    } else if 'A' <= c <= 'F' {
      assert upper[c as int - 'A' as int + 10] == c;
    }
  }

  /** A percent sign with two characters behind it is one byte, whatever they are; with fewer it stands for
      itself. A plus sign is a space, and everything else stands for itself. */
  lemma DecodeUnits(a: char, b: char, rest: string)
    ensures Decode("") == "" && Decode("%") == "%" && Decode(['%', a]) == "%" + Decode([a])
    ensures Decode(['%', a, b] + rest) == [(16 * HexToInt(a) + HexToInt(b)) as char] + Decode(rest)
    ensures Decode("+" + rest) == " " + Decode(rest)
    ensures a != '%' && a != '+' ==> Decode([a] + rest) == [a] + Decode(rest)
  {
    assert (['%', a, b] + rest)[3..] == rest;
    assert ("+" + rest)[1..] == rest && ([a] + rest)[1..] == rest;
    assert ['%', a][1..] == [a] && "%"[1..] == "";
  }

  /** What is stripped is exactly the run of CR and LF at the end. */
  lemma {:induction false} StripsBreaks(s: string)
    ensures var r := StripBreaks(s);
            && r == s[..|r|] && (forall i :: |r| <= i < |s| ==> s[i] == '\r' || s[i] == '\n')
            && (r != "" ==> r[|r| - 1] != '\r' && r[|r| - 1] != '\n')
    decreases |s|
  {
    if EndsInBreak(s) {
      StripsBreaks(s[..|s| - 1]);
    }
  }

  // ----- the two-pointer loop -----

  /** The C string at `str` becomes its decoded form although the loop reads and writes the same bytes;
      nothing outside that string changes. Decoded NULs are written like any other byte. */
  method UrlDecodeInPlace(a: array<char>, str: nat, ghost len: nat)
    requires str + len < a.Length && a[str + len] == NUL && NoNul(a[str..str + len])
    modifies a
    ensures var d := StripBreaks(Decode(old(a[str..str + len])));
            |d| <= len && a[str..str + |d|] == d && a[str + |d|] == NUL
    ensures forall i :: 0 <= i < str || str + len <= i < a.Length ==> a[i] == old(a[i])
  {
    hide Decode, EndsInBreak;
    var dst := DecodeLoop(a, str, len);
    dst := StripLoop(a, str, dst);
    ghost var d := a[str..dst];
    a[dst] := NUL;
    assert a[str..dst] == d;
  }

  method StripLoop(a: array<char>, str: nat, end: nat) returns (dst: nat)
    requires str <= end <= a.Length
    ensures str <= dst <= end && a[str..dst] == StripBreaks(a[str..end])
  {
    dst := end;
    while dst > str && (a[dst - 1] == '\r' || a[dst - 1] == '\n')
      invariant str <= dst <= end
      invariant StripBreaks(a[str..dst]) == StripBreaks(a[str..end])
    {
      assert a[str..dst][..dst - str - 1] == a[str..dst - 1];
      dst := dst - 1;
    }
  }

  /** The decoding loop; the write pointer `dst` never passes the read pointer `src`. */
  method DecodeLoop(a: array<char>, str: nat, ghost len: nat) returns (dst: nat)
    requires str + len < a.Length && a[str + len] == NUL && NoNul(a[str..str + len])
    modifies a
    ensures str <= dst <= str + len && a[str..dst] == Decode(old(a[str..str + len]))
    ensures forall i :: 0 <= i < str || str + len <= i < a.Length ==> a[i] == old(a[i])
  {
    hide Decode, Reads, Byte;
    ghost var s := a[str..str + len];
    ghost var done, rest := "", s;
    dst := str;
    var src := str;
    while a[src] != NUL
      invariant str <= dst <= src <= str + len && |rest| == str + len - src
      invariant forall i :: 0 <= i < str || str + len <= i < a.Length ==> a[i] == old(a[i])
      invariant a[str..dst] == done && a[src..str + len] == rest
      invariant NoNul(rest) && done + Decode(rest) == Decode(s)
      decreases |rest|
    {
      assert rest != [];
      var k, c := NextChar(a, src, rest);
      DecodeMore(done, rest, k, c, s);
      a[dst] := c;
      done, rest := done + [c], rest[k..];
      dst, src := dst + 1, src + k;
    }
    EndOfString(rest, a[src..str + len + 1]);
  }

  lemma EndOfString(rest: string, left: string)
    requires NoNul(rest) && |left| == |rest| + 1 && left[..|rest|] == rest && left[0] == NUL
    ensures rest == [] && Decode(rest) == ""
  {
  }

  /** The branches of the loop: how many characters are read at `src`, and the one they decode to. */
  method NextChar(a: array<char>, src: nat, ghost rest: string) returns (k: nat, c: char)
    requires rest != [] && NoNul(rest) && src + |rest| < a.Length
    requires a[src..src + |rest|] == rest && a[src + |rest|] == NUL
    ensures k <= |rest| && Reads(rest, k, c)
  {
    ghost var here := a[src..src + |rest|];
    assert here[0] == a[src] && (|rest| > 1 ==> here[1] == a[src + 1]) && (|rest| > 2 ==> here[2] == a[src + 2]);
    if a[src] == '%' && a[src + 1] != NUL && a[src + 2] != NUL {
      return 3, Byte(a[src + 1], a[src + 2]);
    } else if a[src] == '+' {
      return 1, ' ';
    } else {
      return 1, a[src];
    }
  }

  ghost predicate Reads(rest: string, k: nat, c: char)
    requires rest != []
  {
    if rest[0] == '%' && |rest| >= 3 then k == 3 && c == Byte(rest[1], rest[2])
    else k == 1 && c == if rest[0] == '+' then ' ' else rest[0]
  }

  /** Consuming `k` characters of the rest yields the next decoded one. */
  lemma DecodeMore(done: string, rest: string, k: nat, c: char, s: string)
    requires rest != [] && k <= |rest| && done + Decode(rest) == Decode(s)
    requires Reads(rest, k, c)
    ensures (done + [c]) + Decode(rest[k..]) == Decode(s)
  {
    assert Decode(rest) == [c] + Decode(rest[k..]);
  }

  // ----- decoding undoes every percent encoding -----

  predicate IsHex(c: char) {
    '0' <= c <= '9' || 'a' <= c <= 'f' || 'A' <= c <= 'F'
  }

  /** The ways of writing one character: as itself, as %XX in either case, or as + for a space. */
  predicate Writes(piece: string, c: char) {
    || (piece == [c] && c != '%' && c != '+' && c != '&' && c != NUL)
    || (piece == "+" && c == ' ')
    || (|piece| == 3 && piece[0] == '%' && IsHex(piece[1]) && IsHex(piece[2]) && c == Byte(piece[1], piece[2]))
  }

  function Flatten(pieces: seq<string>): string {
    if pieces == [] then [] else pieces[0] + Flatten(pieces[1..])
  }

  ghost predicate Encodes(pieces: seq<string>, s: string) {
    |pieces| == |s| && forall i :: 0 <= i < |s| ==> Writes(pieces[i], s[i])
  }

  lemma {:induction false} DecodeOfEncoding(pieces: seq<string>, s: string)
    requires Encodes(pieces, s)
    ensures Decode(Flatten(pieces)) == s
    ensures forall i :: 0 <= i < |Flatten(pieces)| ==> Flatten(pieces)[i] != '&' && Flatten(pieces)[i] != NUL
  {
    if s != [] {
      DecodeOfEncoding(pieces[1..], s[1..]);
      assert Flatten(pieces) == pieces[0] + Flatten(pieces[1..]);
      assert Flatten(pieces)[|pieces[0]|..] == Flatten(pieces[1..]);
      assert [s[0]] + s[1..] == s;
    }
  }

  /** A string without NUL that does not end in CR or LF survives any percent encoding of it. */
  lemma DecodeRoundTrip(pieces: seq<string>, s: string)
    requires Encodes(pieces, s) && NoNul(s) && !EndsInBreak(s)
    ensures CStr(StripBreaks(Decode(Flatten(pieces)))) == s
  {
    DecodeOfEncoding(pieces, s);
  }

  function HexDigit(n: int): char
    requires 0 <= n < 16
  {
    if n < 10 then (n + '0' as int) as char else (n - 10 + 'A' as int) as char
  }

  /** Every string of 8-bit characters has such an encoding: all of it in %XX. */
  lemma EveryStringHasEncoding(s: string)
    requires forall i :: 0 <= i < |s| ==> s[i] as int < 256
    ensures exists pieces :: Encodes(pieces, s) && |Flatten(pieces)| == 3 * |s|
  {
    var pieces := seq(|s|, i requires 0 <= i < |s| => ['%', HexDigit(s[i] as int / 16), HexDigit(s[i] as int % 16)]);
    FlattenLength(pieces);
    forall i | 0 <= i < |s| ensures Writes(pieces[i], s[i]) {
      HexPair(s[i]);
    }
  }

  lemma HexPair(c: char)
    requires c as int < 256
    ensures Writes(['%', HexDigit(c as int / 16), HexDigit(c as int % 16)], c)
  {
    var hi, lo := c as int / 16, c as int % 16;
    HexDigitValue(hi);
    HexDigitValue(lo);
  }

  lemma HexDigitValue(n: int)
    requires 0 <= n < 16
    ensures IsHex(HexDigit(n)) && HexToInt(HexDigit(n)) == n
  {
  }

  lemma {:induction false} FlattenLength(pieces: seq<string>)
    requires forall i :: 0 <= i < |pieces| ==> |pieces[i]| == 3
    ensures |Flatten(pieces)| == 3 * |pieces|
  {
    if pieces != [] {
      FlattenLength(pieces[1..]);
    }
  }
}
