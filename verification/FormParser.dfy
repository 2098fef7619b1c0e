/** The form handling of tcp_server_recv in src/wifi.c: splitting the body at '&' and '=', decoding each
    value in place and applying it to a configuration. */
module FormParser {
  import opened Bytes
  import opened CStrings
  import opened UrlDecode
  import opened Numbers
  import opened FlashConfig
  import opened DaylightSaving

  // ----- one field -----

  function DstNamed(value: string): DstRule {
    if value == "NA" then NA
    else if value == "EU" then EU
    else if value == "AU" then AU
    else if value == "NZ" then NZ
    else if value == "CL" then CL
    else if value == "IL" then IL
    else DstRule.None
  }

  predicate Sized(c: Config) {
    c.ssid != "" && c.password != "" && c.ntpServer != ""
  }

  datatype Field = Ssid | Password | NtpServer | Tz | Dst | Timeout | Port | Led

  /** The keys the form handler knows. */
  function FieldOf(key: string): Option<Field> {
    if key == "ssid" then Some(Ssid)
    else if key == "pwd" then Some(Password)
    else if key == "ntp" then Some(NtpServer)
    else if key == "tz" then Some(Tz)
    else if key == "dst" then Some(Dst)
    else if key == "cto" then Some(Timeout)
    else if key == "port" then Some(Port)
    else if key == "led_on" then Some(Led)
    else Option.None
  }

  /** The effect of a decoded value on its field; None if the value is refused. */
  function Store(c: Config, f: Field, value: string): (r: Option<Config>)
    requires Sized(c)
    ensures r.Some? ==> Sized(r.value)
  {
    match f
    case Ssid => Some(c.(ssid := StrNCpy(c.ssid, value)))
    case Password => Some(c.(password := StrNCpy(c.password, value)))
    case NtpServer => Some(c.(ntpServer := StrNCpy(c.ntpServer, value)))
    case Dst => Some(c.(dst := DstNamed(value)))
    case Led => Some(c.(led := value != "" && value[0] == '1'))
    case Tz =>
      var v := ParseLongBounded(value, MIN_TZ, MAX_TZ);
      if v.None? then Option.None else Some(c.(tz := v.value))
    case Timeout =>
      var v := ParseLongBounded(value, MIN_TIMEOUT, MAX_TIMEOUT);
      if v.None? then Option.None else Some(c.(timeout := v.value))
    case Port =>
      var v := ParseLongBounded(value, 1, 65_535);
      if v.None? then Option.None else Some(c.(port := v.value))
  }

  /** An unknown key is passed over. */
  function ApplyField(c: Config, key: string, value: string): (r: Option<Config>)
    requires Sized(c)
    ensures r.Some? ==> Sized(r.value)
  {
    var f := FieldOf(key);
    if f.None? then Some(c) else Store(c, f.value, value)
  }

  /** The decoded value as the C code then reads it: up to the first NUL. */
  function ValueOf(raw: string): string {
    CStr(StripBreaks(Decode(raw)))
  }

  function ApplyPair(c: Config, pair: string): (r: Option<Config>)
    requires Sized(c)
    ensures r.Some? ==> Sized(r.value)
  {
    var eq := StrChr(pair, '=', 0);
    if eq.None? then Some(c)
    else ApplyField(c, pair[..eq.value], ValueOf(pair[eq.value + 1..]))
  }

  // ----- the whole body -----

  /** strtok_r: where the next token starts, skipping delimiters. */
  function TokenStart(s: string, from: nat): (r: nat)
    requires from <= |s|
    ensures from <= r <= |s| && (r < |s| ==> s[r] != '&') && forall i :: from <= i < r ==> s[i] == '&'
    decreases |s| - from
  {
    if from < |s| && s[from] == '&' then TokenStart(s, from + 1) else from
  }

  function TokenEnd(s: string, start: nat): (r: nat)
    requires start <= |s|
    ensures start <= r <= |s| && (r < |s| ==> s[r] == '&') && forall i :: start <= i < r ==> s[i] != '&'
  {
    var k := StrChr(s, '&', start);
    if k.None? then |s| else k.value
  }

  /** Where the token behind the one at `start` begins. */
  function NextStart(s: string, start: nat): (r: nat)
    requires start < |s| && s[start] != '&'
    ensures start < r <= |s| && (r < |s| ==> s[r] != '&')
  {
    var end := TokenEnd(s, start);
    TokenStart(s, if end < |s| then end + 1 else end)
  }

  /** The configuration after the tokens from `start` on; None if one of them is refused. */
  function ApplyFrom(c: Config, body: string, start: nat): (r: Option<Config>)
    requires start <= |body| && (start < |body| ==> body[start] != '&') && Sized(c)
    ensures r.Some? ==> Sized(r.value)
    decreases |body| - start
  {
    if start == |body| then Some(c)
    else
      var next := ApplyPair(c, body[start..TokenEnd(body, start)]);
      if next.None? then Option.None else ApplyFrom(next.value, body, NextStart(body, start))
  }

  function ApplyForm(c: Config, body: string): (r: Option<Config>)
    requires Sized(c)
    ensures r.Some? ==> Sized(r.value)
  {
    ApplyFrom(c, body, TokenStart(body, 0))
  }

  // ----- the loop over the copied body -----

  method ReadCStr(a: array<char>, from: nat, ghost len: nat) returns (s: string)
    requires from + len < a.Length && a[from + len] == NUL
    ensures s == CStr(a[from..from + len])
  {
    var i := from;
    while a[i] != NUL
      invariant from <= i <= from + len
      invariant forall k :: from <= k < i ==> a[k] != NUL
      decreases from + len - i
    {
      i := i + 1;
    }
    s := a[from..i];
    ghost var all := a[from..from + len];
    assert all[..i - from] == s;
    CStrIs(all, i - from);
  }

  /** The while loop: the body is cut up and decoded where it lies, yet the result is the one of ApplyForm
      on the body as it was received. */
  method ParseForm(body: array<char>, len: nat, base: Config) returns (r: Option<Config>)
    requires len < body.Length && body[len] == NUL && NoNul(body[..len]) && Sized(base)
    modifies body
    ensures r == ApplyForm(base, old(body[..len]))
  {
    hide ApplyPair, TokenStart, ApplyFrom, StrChr, CStr;
    ghost var s := body[..len];
    var config := base;
    var pair, save := StrTok(body, 0, len, s);
    while pair < len
      invariant pair < len ==> Token(body, len, s, pair, save)
      invariant Sized(config) && pair <= len
      invariant ApplyForm(base, s) == ApplyFrom(config, s, pair)
      decreases len - pair
    {
      ghost var end := TokenEnd(s, pair);
      NextToken(config, s, pair);
      var applied := HandlePair(body, pair, end - pair, config);
      if applied.None? {
        return Option.None;
      }
      config := applied.value;
      pair, save := StrTok(body, save, len, s);
    }
    NextToken(config, s, pair);
    return Some(config);
  }

  /** One turn of the loop. */
  lemma NextToken(c: Config, body: string, start: nat)
    requires start <= |body| && (start < |body| ==> body[start] != '&') && Sized(c)
    ensures ApplyFrom(c, body, start) ==
            if start == |body| then Some(c)
            else
              var next := ApplyPair(c, body[start..TokenEnd(body, start)]);
              if next.None? then Option.None else ApplyFrom(next.value, body, NextStart(body, start))
  {
  }

  /** A token of `s` stands NUL-terminated at `pair`, and everything from `save` on is untouched. */
  ghost predicate Token(body: array<char>, len: nat, s: string, pair: nat, save: nat)
    reads body
  {
    && pair < len == |s| && len < body.Length && s[pair] != '&'
    && var end := TokenEnd(s, pair);
       && save == (if end < len then end + 1 else len)
       && body[pair..end] == s[pair..end] && body[end] == NUL && Untouched(body, len, s, save)
  }

  ghost predicate Untouched(body: array<char>, len: nat, s: string, from: nat)
    requires len == |s| < body.Length
    reads body
  {
    body[len] == NUL && forall i :: from <= i < len ==> body[i] == s[i]
  }

  /** strtok_r: the token's start and where to go on; the delimiter behind the token becomes NUL. */
  method StrTok(body: array<char>, save: nat, len: nat, ghost s: string) returns (pair: nat, next: nat)
    requires save <= len < body.Length && |s| == len && NoNul(s) && Untouched(body, len, s, save)
    modifies body
    ensures pair == TokenStart(s, save) && (pair < len ==> Token(body, len, s, pair, next))
    ensures body[len] == NUL
  {
    pair := save;
    while body[pair] == '&'
      invariant save <= pair <= len
      invariant TokenStart(s, pair) == TokenStart(s, save)
      decreases len - pair
    {
      pair := pair + 1;
    }
    next := pair;
    while body[next] != NUL && body[next] != '&'
      invariant pair <= next <= len
      invariant StrChr(s, '&', next) == StrChr(s, '&', pair)
      decreases len - next
    {
      next := next + 1;
    }
    assert next == TokenEnd(s, pair);
    assert body[pair..next] == s[pair..next];
    if body[next] != NUL {
      body[next] := NUL;
      next := next + 1;
    }
    assert pair < len ==> body[pair..TokenEnd(s, pair)] == s[pair..TokenEnd(s, pair)];
  }

  /** The loop's body for one token of length `n`. */
  method HandlePair(body: array<char>, pair: nat, ghost n: nat, config: Config) returns (r: Option<Config>)
    requires pair + n < body.Length && body[pair + n] == NUL && NoNul(body[pair..pair + n]) && Sized(config)
    modifies body
    ensures r == ApplyPair(config, old(body[pair..pair + n]))
    ensures forall i :: pair + n <= i < body.Length ==> body[i] == old(body[i])
  {
    hide ApplyField, ValueOf, StrChr;
    ghost var s := body[pair..pair + n];
    var eq := FindEq(body, pair, n);
    if body[eq] == NUL {
      return Some(config);
    }
    var key := body[pair..eq];
    body[eq] := NUL;
    ghost var raw := body[eq + 1..pair + n];
    assert raw == s[eq + 1 - pair..] && key == s[..eq - pair];
    var value := DecodeValue(body, eq + 1, |raw|);
    r := ApplyField(config, key, value);
  }

  method DecodeValue(body: array<char>, at: nat, ghost n: nat) returns (value: string)
    requires at + n < body.Length && body[at + n] == NUL && NoNul(body[at..at + n])
    modifies body
    ensures value == ValueOf(old(body[at..at + n]))
    ensures forall i :: at + n <= i < body.Length ==> body[i] == old(body[i])
  {
    hide Decode, StripBreaks, CStr;
    ghost var d := StripBreaks(Decode(body[at..at + n]));
    UrlDecodeInPlace(body, at, n);
    value := ReadCStr(body, at, |d|);
  }

  /** strchr(pair, '=') */
  method FindEq(body: array<char>, pair: nat, ghost n: nat) returns (eq: nat)
    requires pair + n < body.Length && body[pair + n] == NUL && NoNul(body[pair..pair + n])
    ensures pair <= eq <= pair + n
    ensures StrChr(body[pair..pair + n], '=', 0) == if eq < pair + n then Some(eq - pair) else Option.None
    ensures body[eq] == if eq < pair + n then '=' else NUL
  {
    ghost var s := body[pair..pair + n];
    eq := pair;
    while body[eq] != NUL && body[eq] != '='
      invariant pair <= eq <= pair + n
      invariant StrChr(s, '=', eq - pair) == StrChr(s, '=', 0)
      decreases pair + n - eq
    {
      assert s[eq - pair] == body[eq];
      eq := eq + 1;
    }
    assert eq < pair + n ==> s[eq - pair] == body[eq];
  }
}
