/** What form handling preserves and inverts: every accepted POST leaves a valid configuration, and a
    percent-encoded form with all keys present restores the configuration it describes. */
module FormRoundTrip {
  import opened Bytes
  import opened CStrings
  import opened UrlDecode
  import opened Numbers
  import opened FlashConfig
  import opened FormParser
  import opened DaylightSaving

  // ----- validity -----

  lemma StoreKeepsValid(c: Config, f: Field, value: string)
    requires Valid(c) && NoNul(value)
    ensures Store(c, f, value).Some? ==> Valid(Store(c, f, value).value)
  {
    match f
    case Ssid => StrNCpyTerminates(c.ssid, value, SSID_SIZE);
    case Password => StrNCpyTerminates(c.password, value, PASSWORD_SIZE);
    case NtpServer => StrNCpyTerminates(c.ntpServer, value, HOST_SIZE);
    case Tz => InBounds(value, MIN_TZ, MAX_TZ);
    case Timeout => InBounds(value, MIN_TIMEOUT, MAX_TIMEOUT);
    case Port => InBounds(value, 1, 65_535);
    case Dst =>
    case Led =>
  }

  lemma ApplyFieldKeepsValid(c: Config, key: string, value: string)
    requires Valid(c) && NoNul(value)
    ensures ApplyField(c, key, value).Some? ==> Valid(ApplyField(c, key, value).value)
  {
    var f := FieldOf(key);
    if f.Some? {
      StoreKeepsValid(c, f.value, value);
    }
  }

  lemma InBounds(value: string, min: int, max: int)
    ensures var v := ParseLongBounded(value, min, max); v.Some? ==> min <= v.value <= max
  {
  }

  lemma ApplyPairKeepsValid(c: Config, pair: string)
    requires Valid(c)
    ensures ApplyPair(c, pair).Some? ==> Valid(ApplyPair(c, pair).value)
  {
    var eq := StrChr(pair, '=', 0);
    if eq.Some? {
      ApplyFieldKeepsValid(c, pair[..eq.value], ValueOf(pair[eq.value + 1..]));
    }
  }

  lemma {:induction false} ApplyFromKeepsValid(c: Config, body: string, start: nat)
    requires start <= |body| && (start < |body| ==> body[start] != '&') && Valid(c)
    ensures ApplyFrom(c, body, start).Some? ==> Valid(ApplyFrom(c, body, start).value)
    decreases |body| - start
  {
    if start < |body| {
      var pair := body[start..TokenEnd(body, start)];
      ApplyPairKeepsValid(c, pair);
      if ApplyPair(c, pair).Some? {
        ApplyFromKeepsValid(ApplyPair(c, pair).value, body, NextStart(body, start));
      }
    }
  }

  /** Whatever the body, a form that is accepted turns a valid configuration into a valid one. */
  lemma ApplyFormKeepsValid(c: Config, body: string)
    requires Valid(c)
    ensures ApplyForm(c, body).Some? ==> Valid(ApplyForm(c, body).value)
  {
    ApplyFromKeepsValid(c, body, TokenStart(body, 0));
  }

  // ----- the round trip -----

  function Key(f: Field): string {
    match f
    case Ssid => "ssid"
    case Password => "pwd"
    case NtpServer => "ntp"
    case Tz => "tz"
    case Dst => "dst"
    case Timeout => "cto"
    case Port => "port"
    case Led => "led_on"
  }

  function DstName(r: DstRule): string {
    match r
    case None => "NONE"
    case NA => "NA"
    case EU => "EU"
    case AU => "AU"
    case NZ => "NZ"
    case CL => "CL"
    case IL => "IL"
  }

  /** What a user fills in. */
  datatype Settings = Settings(ssid: string, password: string, ntpServer: string,
                               tz: int, dst: DstRule, timeout: int, port: int, led: bool)

  predicate PlainText(s: string, size: nat) {
    |s| < size && NoNul(s) && !EndsInBreak(s)
  }

  /** Settings in range whose strings fit, hold no NUL and do not end in CR or LF. */
  predicate Acceptable(s: Settings) {
    && PlainText(s.ssid, SSID_SIZE) && PlainText(s.password, PASSWORD_SIZE) && PlainText(s.ntpServer, HOST_SIZE)
    && MIN_TZ <= s.tz <= MAX_TZ && MIN_TIMEOUT <= s.timeout <= MAX_TIMEOUT && 1 <= s.port <= 65_535
  }

  /** In plain figures. */
  lemma AcceptableMeans(s: Settings)
    ensures Acceptable(s) <==>
              && |s.ssid| <= 32 && |s.password| <= 63 && |s.ntpServer| <= 64
              && (forall t :: t in {s.ssid, s.password, s.ntpServer} ==>
                    NoNul(t) && (t != "" ==> t[|t| - 1] != '\r' && t[|t| - 1] != '\n'))
              && -720 <= s.tz <= 840 && 1_000 <= s.timeout <= 60_000 && 1 <= s.port <= 65_535
  {
  }

  /** The configuration that holds them. */
  function Holding(s: Settings): Config
    requires Acceptable(s)
  {
    Config(Padded(s.ssid, SSID_SIZE), Padded(s.password, PASSWORD_SIZE), Padded(s.ntpServer, HOST_SIZE),
           s.tz, s.dst, s.timeout, s.port, s.led)
  }

  lemma HoldingIsValid(s: Settings)
    requires Acceptable(s)
    ensures var c := Holding(s);
            Valid(c) && CStr(c.ssid) == s.ssid && CStr(c.password) == s.password && CStr(c.ntpServer) == s.ntpServer
  {
    CStrOfPadded(s.ssid, SSID_SIZE);
    CStrOfPadded(s.password, PASSWORD_SIZE);
    CStrOfPadded(s.ntpServer, HOST_SIZE);
  }

  /** What the form writes for a field. */
  function Text(f: Field, s: Settings): string {
    match f
    case Ssid => s.ssid
    case Password => s.password
    case NtpServer => s.ntpServer
    case Tz => Decimal(s.tz)
    case Dst => DstName(s.dst)
    case Timeout => Decimal(s.timeout)
    case Port => Decimal(s.port)
    case Led => if s.led then "1" else "0"
  }

  function Set(c: Config, f: Field, t: Config): Config {
    match f
    case Ssid => c.(ssid := t.ssid)
    case Password => c.(password := t.password)
    case NtpServer => c.(ntpServer := t.ntpServer)
    case Tz => c.(tz := t.tz)
    case Dst => c.(dst := t.dst)
    case Timeout => c.(timeout := t.timeout)
    case Port => c.(port := t.port)
    case Led => c.(led := t.led)
  }

  lemma TextIsPlain(f: Field, s: Settings)
    requires Acceptable(s)
    ensures NoNul(Text(f, s)) && !EndsInBreak(Text(f, s))
  {
    hide Decimal, DstName;
    match f
    case Tz => DecimalText(s.tz);
    case Timeout => DecimalText(s.timeout);
    case Port => DecimalText(s.port);
    case Dst => DstText(s.dst);
    case _ =>
  }

  lemma DecimalText(n: int)
    ensures NoNul(Decimal(n)) && !EndsInBreak(Decimal(n))
  {
    hide Decimal;
    DecimalIsPlain(n);
  }

  lemma DstText(r: DstRule)
    ensures NoNul(DstName(r)) && !EndsInBreak(DstName(r))
  {
  }

  lemma StoreSets(c: Config, f: Field, s: Settings)
    requires Valid(c) && Acceptable(s)
    ensures Store(c, f, Text(f, s)) == Some(Set(c, f, Holding(s))) && Valid(Set(c, f, Holding(s)))
  {
    hide StrNCpy, Padded, CStr, ParseLongBounded, Decimal, DstNamed, DstName, EndsInBreak;
    HoldingIsValid(s);
    match f
    case Ssid => StrNCpyTerminates(c.ssid, s.ssid, SSID_SIZE);
    case Password => StrNCpyTerminates(c.password, s.password, PASSWORD_SIZE);
    case NtpServer => StrNCpyTerminates(c.ntpServer, s.ntpServer, HOST_SIZE);
    case Tz => DecimalRoundTrip(s.tz, MIN_TZ, MAX_TZ);
    case Timeout => DecimalRoundTrip(s.timeout, MIN_TIMEOUT, MAX_TIMEOUT);
    case Port => DecimalRoundTrip(s.port, 1, 65_535);
    case Dst => DstNames(s.dst);
    case Led =>
  }

  lemma DstNames(r: DstRule)
    ensures DstNamed(DstName(r)) == r
  {
  }

  lemma KeyNamesField(f: Field)
    ensures FieldOf(Key(f)) == Some(f)
    ensures Key(f) != "" && NoAmpersand(Key(f)) && forall i :: 0 <= i < |Key(f)| ==> Key(f)[i] != '='
  {
  }

  /** One pair of a form: a field with its value percent-encoded in any way, or something the clock does
      not know, like the brightness slider. */
  datatype Entry = Known(f: Field, pieces: seq<string>) | Other(pair: string)

  function Token(e: Entry): string {
    match e
    case Known(f, pieces) => Key(f) + "=" + Flatten(pieces)
    case Other(pair) => pair
  }

  predicate Foreign(pair: string) {
    && pair != "" && NoAmpersand(pair)
    && var eq := StrChr(pair, '=', 0);
       eq.None? || FieldOf(pair[..eq.value]).None?
  }

  predicate NoAmpersand(s: string) {
    forall i :: 0 <= i < |s| ==> s[i] != '&'
  }

  ghost predicate Describes(e: Entry, s: Settings) {
    match e
    case Known(f, pieces) => Encodes(pieces, Text(f, s))
    case Other(pair) => Foreign(pair)
  }

  function Effect(c: Config, e: Entry, t: Config): Config {
    if e.Known? then Set(c, e.f, t) else c
  }

  lemma StrChrAt(s: string, c: char, from: nat, k: nat)
    requires from <= k < |s| && s[k] == c && forall i :: from <= i < k ==> s[i] != c
    ensures StrChr(s, c, from) == Some(k)
  {
  }

  lemma PairSplits(c: Config, key: string, f: Field, raw: string)
    requires Sized(c) && FieldOf(key) == Some(f) && forall i :: 0 <= i < |key| ==> key[i] != '='
    ensures ApplyPair(c, key + "=" + raw) == Store(c, f, ValueOf(raw))
  {
    var pair := key + "=" + raw;
    assert pair[..|key|] == key && pair[|key|] == '=' && pair[|key| + 1..] == raw;
    StrChrAt(pair, '=', 0, |key|);
  }

  lemma PlainPair(key: string, raw: string)
    requires NoAmpersand(key) && NoAmpersand(raw)
    ensures NoAmpersand(key + "=" + raw)
  {
  }

  lemma FieldApplies(c: Config, f: Field, pieces: seq<string>, s: Settings)
    requires Valid(c) && Acceptable(s) && Encodes(pieces, Text(f, s))
    ensures ApplyPair(c, Key(f) + "=" + Flatten(pieces)) == Some(Set(c, f, Holding(s)))
    ensures NoAmpersand(Key(f) + "=" + Flatten(pieces))
    ensures Valid(Set(c, f, Holding(s)))
  {
    hide ApplyPair, Store, Text, Set;
    KeyNamesField(f);
    TextIsPlain(f, s);
    DecodeOfEncoding(pieces, Text(f, s));
    DecodeRoundTrip(pieces, Text(f, s));
    PlainPair(Key(f), Flatten(pieces));
    StoreSets(c, f, s);
    PairSplits(c, Key(f), f, Flatten(pieces));
  }

  lemma ForeignIgnored(c: Config, pair: string)
    requires Sized(c) && Foreign(pair)
    ensures ApplyPair(c, pair) == Some(c)
  {
    hide FieldOf, Store;
  }

  lemma EntryApplies(c: Config, e: Entry, s: Settings)
    requires Valid(c) && Acceptable(s) && Describes(e, s)
    ensures ApplyPair(c, Token(e)) == Some(Effect(c, e, Holding(s))) && Valid(Effect(c, e, Holding(s)))
    ensures Token(e) != "" && NoAmpersand(Token(e))
  {
    hide ApplyPair, Set, Encodes, Acceptable;
    match e
    case Known(f, pieces) => FieldApplies(c, f, pieces, s);
    case Other(pair) => ForeignIgnored(c, pair);
  }

  /** Tokens joined by '&'. */
  function Join(tokens: seq<string>): string
    requires tokens != []
  {
    if |tokens| == 1 then tokens[0] else tokens[0] + "&" + Join(tokens[1..])
  }

  function ApplyTokens(c: Config, tokens: seq<string>): (r: Option<Config>)
    requires Sized(c)
    decreases |tokens|
  {
    if tokens == [] then Some(c)
    else
      var next := ApplyPair(c, tokens[0]);
      if next.None? then Option.None else ApplyTokens(next.value, tokens[1..])
  }

  predicate PlainTokens(tokens: seq<string>) {
    forall i :: 0 <= i < |tokens| ==> tokens[i] != "" && NoAmpersand(tokens[i])
  }

  lemma FirstToken(body: string, head: string, token: string, rest: string)
    requires body == head + token + rest && token != ""
    requires rest != "" ==> |rest| > 1 && rest[0] == '&' && rest[1] != '&'
    requires NoAmpersand(token)
    ensures var start := |head|;
            && start < |body| && body[start] != '&' && TokenEnd(body, start) == start + |token|
            && body[start..TokenEnd(body, start)] == token
            && NextStart(body, start) == if rest == "" then |body| else start + |token| + 1
  {
    var start, end := |head|, |head| + |token|;
    assert forall k :: 0 <= k < |token| ==> body[start + k] == token[k];
    assert forall i :: start <= i < end ==> body[i] == token[i - start];
    if rest != "" {
      assert body[end] == rest[0] && body[end + 1] == rest[1];
      StrChrAt(body, '&', start, end);
    }
  }

  /** Splitting undoes joining. */
  lemma {:induction false} ApplyJoined(c: Config, body: string, head: string, tokens: seq<string>)
    requires Sized(c) && tokens != [] && PlainTokens(tokens) && body == head + Join(tokens)
    ensures |head| < |body| && body[|head|] != '&' && ApplyFrom(c, body, |head|) == ApplyTokens(c, tokens)
    decreases |tokens|
  {
    hide ApplyPair;
    var token := tokens[0];
    var rest := if |tokens| == 1 then "" else "&" + Join(tokens[1..]);
    assert body == head + token + rest;
    var next := ApplyPair(c, token);
    if |tokens| > 1 {
      assert PlainTokens(tokens[1..]);
      var head' := head + token + "&";
      assert body == head' + Join(tokens[1..]);
      ApplyJoined(if next.Some? then next.value else c, body, head', tokens[1..]);
      assert rest[1] == body[|head'|];
    }
    FirstToken(body, head, token, rest);
  }

  function Tokens(es: seq<Entry>): (r: seq<string>)
    ensures |r| == |es|
  {
    seq(|es|, i requires 0 <= i < |es| => Token(es[i]))
  }

  /** A form that describes the settings: every key at least once, and nothing else the clock knows. */
  ghost predicate FormFor(es: seq<Entry>, s: Settings) {
    && (forall i :: 0 <= i < |es| ==> Describes(es[i], s))
    && forall f: Field :: HasField(es, f)
  }

  ghost predicate HasField(es: seq<Entry>, f: Field) {
    exists i :: 0 <= i < |es| && es[i].Known? && es[i].f == f
  }

  function EffectOfAll(c: Config, es: seq<Entry>, t: Config): Config
    decreases |es|
  {
    if es == [] then c else EffectOfAll(Effect(c, es[0], t), es[1..], t)
  }

  lemma {:induction false} TokensApply(c: Config, es: seq<Entry>, s: Settings)
    requires Valid(c) && Acceptable(s) && forall i :: 0 <= i < |es| ==> Describes(es[i], s)
    ensures ApplyTokens(c, Tokens(es)) == Some(EffectOfAll(c, es, Holding(s)))
    decreases |es|
  {
    hide ApplyPair, Describes, Acceptable, Set, Token;
    if es != [] {
      var next := Effect(c, es[0], Holding(s));
      EntryApplies(c, es[0], s);
      TokensApply(next, es[1..], s);
      assert Tokens(es) == [Token(es[0])] + Tokens(es[1..]);
      FirstApplied(c, Token(es[0]), next, Tokens(es[1..]));
    }
  }

  lemma TokensArePlain(c: Config, es: seq<Entry>, s: Settings)
    requires Valid(c) && Acceptable(s) && forall i :: 0 <= i < |es| ==> Describes(es[i], s)
    ensures PlainTokens(Tokens(es))
  {
    hide ApplyPair, Describes, Acceptable, Set, Token, NoAmpersand;
    forall i | 0 <= i < |es| ensures Token(es[i]) != "" && NoAmpersand(Token(es[i])) {
      EntryApplies(c, es[i], s);
    }
  }

  lemma FirstApplied(c: Config, token: string, next: Config, rest: seq<string>)
    requires Sized(c) && ApplyPair(c, token) == Some(next)
    ensures ApplyTokens(c, [token] + rest) == ApplyTokens(next, rest)
  {
    assert ([token] + rest)[0] == token && ([token] + rest)[1..] == rest;
  }

  ghost predicate Agrees(c: Config, f: Field, t: Config) {
    Set(c, f, t) == c
  }

  lemma {:induction false} AllAgree(c: Config, es: seq<Entry>, t: Config, f: Field)
    requires HasField(es, f) || Agrees(c, f, t)
    ensures Agrees(EffectOfAll(c, es, t), f, t)
    decreases |es|
  {
    if es != [] {
      if HasField(es, f) {
        var i :| 0 <= i < |es| && es[i].Known? && es[i].f == f;
        assert i > 0 ==> es[1..][i - 1] == es[i];
      }
      AllAgree(Effect(c, es[0], t), es[1..], t, f);
    }
  }

  lemma {:induction false} OthersKept(c: Config, es: seq<Entry>, t: Config, f: Field, base: Config)
    requires !HasField(es, f) && Agrees(c, f, base)
    ensures Agrees(EffectOfAll(c, es, t), f, base)
    decreases |es|
  {
    if es != [] {
      assert !(es[0].Known? && es[0].f == f);
      assert forall i :: 0 <= i < |es[1..]| ==> es[1..][i] == es[i + 1];
      OthersKept(Effect(c, es[0], t), es[1..], t, f, base);
    }
  }

  lemma AgreeingIsEqual(c: Config, t: Config)
    requires forall f: Field :: Agrees(c, f, t)
    ensures c == t
  {
    assert Agrees(c, Ssid, t) && Agrees(c, Password, t) && Agrees(c, NtpServer, t) && Agrees(c, Tz, t);
    assert Agrees(c, Dst, t) && Agrees(c, Timeout, t) && Agrees(c, Port, t) && Agrees(c, Led, t);
  }

  lemma JoinedForm(base: Config, tokens: seq<string>)
    requires Sized(base) && tokens != [] && PlainTokens(tokens)
    ensures ApplyForm(base, Join(tokens)) == ApplyTokens(base, tokens)
  {
    var body := Join(tokens);
    assert body == "" + body;
    ApplyJoined(base, body, "", tokens);
    assert TokenStart(body, 0) == 0;
  }

  /** A form with some of the keys: each key that is present sets its field, whatever the order, the encoding
      and the unknown pairs in between, and every other field stays as it was. An unchecked led_on is such an
      absent key. */
  lemma PartialForm(base: Config, s: Settings, es: seq<Entry>)
    requires Valid(base) && Acceptable(s) && es != [] && forall i :: 0 <= i < |es| ==> Describes(es[i], s)
    ensures Sized(base) && ApplyForm(base, Join(Tokens(es))).Some?
    ensures var c := ApplyForm(base, Join(Tokens(es))).value;
            forall f: Field :: Agrees(c, f, if HasField(es, f) then Holding(s) else base)
  {
    hide ApplyPair, Describes, Acceptable, Set, Token, Valid;
    TokensApply(base, es, s);
    TokensArePlain(base, es, s);
    SizedWhenValid(base);
    JoinedForm(base, Tokens(es));
    var c := EffectOfAll(base, es, Holding(s));
    forall f: Field ensures Agrees(c, f, if HasField(es, f) then Holding(s) else base) {
      if HasField(es, f) {
        AllAgree(base, es, Holding(s), f);
      } else {
        AgreesWithItself(base, f);
        OthersKept(base, es, Holding(s), f, base);
      }
    }
  }

  lemma AgreesWithItself(c: Config, f: Field)
    ensures Agrees(c, f, c)
  {
  }

  /** The round trip: for all acceptable settings, in any order of the keys, with any percent encoding of the
      values, with unknown pairs in between and from any valid configuration before, a body with all keys
      present yields exactly the configuration that holds them. */
  lemma FormRestoresConfig(base: Config, s: Settings, es: seq<Entry>)
    requires Valid(base) && Acceptable(s) && FormFor(es, s)
    ensures es != [] && ApplyForm(base, Join(Tokens(es))) == Some(Holding(s))
  {
    hide Describes, Acceptable, Agrees, ApplyForm, Token, Valid;
    assert HasField(es, Ssid);
    PartialForm(base, s, es);
    var c := ApplyForm(base, Join(Tokens(es))).value;
    forall f: Field ensures Agrees(c, f, Holding(s)) {
      assert HasField(es, f);
    }
    AgreeingIsEqual(c, Holding(s));
  }

  /** The page sends led_on only for a checked box. A form with every other key sets everything else and
      leaves the LED as it was: unchecking the box does not switch an LED off that was on before. */
  lemma UncheckedLedStays(base: Config, s: Settings, es: seq<Entry>)
    requires Valid(base) && Acceptable(s) && forall i :: 0 <= i < |es| ==> Describes(es[i], s)
    requires forall f: Field :: HasField(es, f) <==> f != Led
    ensures es != [] && ApplyForm(base, Join(Tokens(es))) == Some(Holding(s).(led := base.led))
  {
    hide Describes, Acceptable, ApplyForm, Token, Valid;
    assert HasField(es, Ssid);
    PartialForm(base, s, es);
    var c, t := ApplyForm(base, Join(Tokens(es))).value, Holding(s).(led := base.led);
    forall f: Field ensures Agrees(c, f, t) {
      assert Agrees(c, f, if HasField(es, f) then Holding(s) else base);
    }
    AgreeingIsEqual(c, t);
  }

  lemma SizedWhenValid(c: Config)
    requires Valid(c)
    ensures Sized(c)
  {
  }

  predicate EightBit(s: string) {
    forall i :: 0 <= i < |s| ==> s[i] as int < 256
  }

  /** Such a form exists for all settings in 8-bit characters. */
  lemma EveryConfigHasForm(s: Settings)
    requires EightBit(s.ssid) && EightBit(s.password) && EightBit(s.ntpServer)
    ensures exists es :: FormFor(es, s)
  {
    var es := FullForm(s);
  }

  /** All keys in order, every character as %XX. */
  lemma FullForm(s: Settings) returns (es: seq<Entry>)
    requires EightBit(s.ssid) && EightBit(s.password) && EightBit(s.ntpServer)
    ensures FormFor(es, s) && |es| == 8 && forall i :: 0 <= i < |es| ==> Spelled(es[i], s)
  {
    hide Describes, Spelled, HasField;
    var e0 := KnownEntry(Ssid, s);
    var e1 := KnownEntry(Password, s);
    var e2 := KnownEntry(NtpServer, s);
    var e3 := KnownEntry(Tz, s);
    var e4 := KnownEntry(Dst, s);
    var e5 := KnownEntry(Timeout, s);
    var e6 := KnownEntry(Port, s);
    var e7 := KnownEntry(Led, s);
    es := [e0, e1, e2, e3, e4, e5, e6, e7];
    forall f: Field ensures HasField(es, f) {
      match f
      case Ssid => HasFieldAt(es, 0, f);
      case Password => HasFieldAt(es, 1, f);
      case NtpServer => HasFieldAt(es, 2, f);
      case Tz => HasFieldAt(es, 3, f);
      case Dst => HasFieldAt(es, 4, f);
      case Timeout => HasFieldAt(es, 5, f);
      case Port => HasFieldAt(es, 6, f);
      case Led => HasFieldAt(es, 7, f);
    }
  }

  lemma HasFieldAt(es: seq<Entry>, i: nat, f: Field)
    requires i < |es| && es[i].Known? && es[i].f == f
    ensures HasField(es, f)
  {
  }

  /** A known key with its value in %XX. */
  ghost predicate Spelled(e: Entry, s: Settings) {
    e.Known? && Encodes(e.pieces, Text(e.f, s)) && |Flatten(e.pieces)| == 3 * |Text(e.f, s)|
  }

  lemma KnownEntry(f: Field, s: Settings) returns (e: Entry)
    requires EightBit(s.ssid) && EightBit(s.password) && EightBit(s.ntpServer)
    ensures e.Known? && e.f == f && Describes(e, s) && Spelled(e, s)
  {
    TextIsEightBit(f, s);
    EveryStringHasEncoding(Text(f, s));
    var pieces :| Encodes(pieces, Text(f, s)) && |Flatten(pieces)| == 3 * |Text(f, s)|;
    e := Known(f, pieces);
  }

  const TOKEN_MAX := 199   // a key of at most 6, '=', and 64 characters as %XX
  const FORM_MAX := 1_600

  lemma TextIsShort(f: Field, s: Settings)
    requires Acceptable(s)
    ensures |Text(f, s)| <= 64 && |Key(f)| <= 6
  {
    hide Decimal;
    DecimalLength(s.tz);
    DecimalLength(s.timeout);
    DecimalLength(s.port);
  }

  lemma SpelledToken(e: Entry, s: Settings)
    requires Acceptable(s) && Spelled(e, s)
    ensures |Token(e)| <= TOKEN_MAX && NoNul(Token(e))
  {
    hide Text, Encodes, Flatten;
    TextIsShort(e.f, s);
    DecodeOfEncoding(e.pieces, Text(e.f, s));
    KeyNoNul(e.f);
    var key, raw := Key(e.f), Flatten(e.pieces);
    assert NoNul(key + "=") && NoNul(raw);
  }

  lemma KeyNoNul(f: Field)
    ensures NoNul(Key(f))
  {
  }

  lemma {:induction false} JoinIsShort(tokens: seq<string>)
    requires tokens != [] && forall i :: 0 <= i < |tokens| ==> |tokens[i]| <= TOKEN_MAX && NoNul(tokens[i])
    ensures |Join(tokens)| <= 200 * |tokens| && NoNul(Join(tokens))
  {
    if |tokens| > 1 {
      JoinIsShort(tokens[1..]);
      assert NoNul(tokens[0] + "&");
    }
  }

  /** The form of all acceptable settings in 8-bit characters fits a POST with room to spare. */
  lemma EveryConfigHasShortForm(s: Settings)
    requires Acceptable(s) && EightBit(s.ssid) && EightBit(s.password) && EightBit(s.ntpServer)
    ensures exists es :: FormFor(es, s) && es != [] && |Join(Tokens(es))| <= FORM_MAX && NoNul(Join(Tokens(es)))
  {
    hide Acceptable, FormFor, Spelled, Token;
    var es := FullForm(s);
    var tokens := Tokens(es);
    forall i | 0 <= i < |tokens| ensures |tokens[i]| <= TOKEN_MAX && NoNul(tokens[i]) {
      SpelledToken(es[i], s);
    }
    JoinIsShort(tokens);
  }

  lemma TextIsEightBit(f: Field, s: Settings)
    requires EightBit(s.ssid) && EightBit(s.password) && EightBit(s.ntpServer)
    ensures EightBit(Text(f, s))
  {
    hide Decimal;
    DecimalIsPlain(s.tz);
    DecimalIsPlain(s.timeout);
    DecimalIsPlain(s.port);
  }
}
