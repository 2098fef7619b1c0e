/** expand_html_template of src/wifi.c: replacing {TEMPLATE:key} placeholders in a bounded buffer. */
module HtmlTemplate {
  import opened Bytes
  import opened CStrings
  import opened FlashConfig

  const OPEN := "{TEMPLATE:"

  // ----- keys -----

  datatype Kind = Unknown | Ssid | Pwd | Ntp

  function ToLower(c: char): char {
    if 'A' <= c <= 'Z' then (c as int + 32) as char else c
  }

  /** strncasecmp(key, name, |key|) == 0, for a lower-case name: the key is a prefix of it in any case. */
  predicate AbbreviatesName(key: string, name: string) {
    |key| <= |name| && forall i :: 0 <= i < |key| ==> ToLower(key[i]) == name[i]
  }

  function KindOf(key: string): Kind {
    if key == "" then Unknown
    else if AbbreviatesName(key, "ssid") then Ssid
    else if AbbreviatesName(key, "pwd") then Pwd
    else if AbbreviatesName(key, "ntp") then Ntp
    else Unknown
  }

  function Replacement(key: string, config: Option<Config>): string {
    if config.None? then ""
    else match KindOf(key)
      case Unknown => ""
      case Ssid => CStr(config.value.ssid)
      case Pwd => CStr(config.value.password)
      case Ntp => CStr(config.value.ntpServer)
  }

  // ----- what the loop emits -----

  /** Everything emitted from position `from` on, and whether every placeholder met was closed. */
  function Expand(t: string, from: nat, config: Option<Config>): (r: (string, bool))
    requires from <= |t|
    decreases |t| - from
  {
    var start := StrStr(t, OPEN, from);
    if from == |t| then ("", true)
    else if start.None? then (t[from..], true)
    else
      var end := StrChr(t, '}', start.value + 10);
      if end.None? then (t[from..start.value], false)
      else
        var rest := Expand(t, end.value + 1, config);
        (t[from..start.value] + Replacement(t[start.value + 10..end.value], config) + rest.0, rest.1)
  }

  /** ERR_MEM as soon as what has been emitted leaves no room for the terminator, ERR_VAL at an unclosed
      placeholder, otherwise the whole expansion followed by NUL. */
  method ExpandHtmlTemplate(t: string, out: array<char>, config: Option<Config>) returns (r: ErrT)
    requires out.Length > 0
    modifies out
    ensures var (e, closed) := Expand(t, 0, config);
            && r == (if |e| >= out.Length then ErrMem else if closed then ErrOk else ErrVal)
            && (r == ErrOk ==> out[..|e|] == e && out[|e|] == NUL)
  {
    hide Replacement, Expand;
    var outLen: nat, curr := 0, 0;
    ghost var whole := Expand(t, 0, config);
    while curr < |t|
      invariant curr <= |t| && outLen < out.Length
      invariant whole.0 == out[..outLen] + Expand(t, curr, config).0 && whole.1 == Expand(t, curr, config).1
      decreases |t| - curr
    {
      ExpandStep(t, curr, config);
      var start := StrStr(t, OPEN, curr);
      if start.None? {
        if outLen + (|t| - curr) >= out.Length {
          return ErrMem;
        }
        outLen := Append(out, outLen, t[curr..]);
        curr := |t|;
        ExpandEnd(t, config);
        break;
      }
      var prefix := t[curr..start.value];
      if outLen + |prefix| >= out.Length {
        return ErrMem;
      }
      ghost var done := out[..outLen];
      outLen := Append(out, outLen, prefix);
      var keyStart := start.value + 10;
      var end := StrChr(t, '}', keyStart);
      if end.None? {
        return ErrVal;
      }
      var replacement := Replacement(t[keyStart..end.value], config);
      if outLen + |replacement| >= out.Length {
        return ErrMem;
      }
      outLen := Append(out, outLen, replacement);
      curr := end.value + 1;
      Regroup3(done, prefix, replacement, Expand(t, curr, config).0);
    }
    ExpandEnd(t, config);
    ghost var e := out[..outLen];
    out[outLen] := NUL;
    assert out[..outLen] == e;
    return ErrOk;
  }

  lemma ExpandEnd(t: string, config: Option<Config>)
    ensures Expand(t, |t|, config) == ("", true)
  {
  }

  /** One turn of the loop. */
  lemma ExpandStep(t: string, from: nat, config: Option<Config>)
    requires from < |t|
    ensures var start := StrStr(t, OPEN, from);
            if start.None? then Expand(t, from, config) == (t[from..], true)
            else
              var end := StrChr(t, '}', start.value + 10);
              if end.None? then Expand(t, from, config) == (t[from..start.value], false)
              else
                var rest := Expand(t, end.value + 1, config);
                Expand(t, from, config)
                == (t[from..start.value] + Replacement(t[start.value + 10..end.value], config) + rest.0, rest.1)
  {
    hide Replacement;
  }

  lemma Regroup3(a: string, b: string, c: string, d: string)
    ensures a + (b + c + d) == (a + b + c) + d
  {
  }

  /** memcpy behind what has been emitted. */
  method Append(out: array<char>, at: nat, s: string) returns (next: nat)
    requires at + |s| <= out.Length
    modifies out
    ensures next == at + |s| && out[..next] == old(out[..at]) + s
  {
    forall i | 0 <= i < |s| {
      out[at + i] := s[i];
    }
    next := at + |s|;
  }

  // ----- templates as text with holes -----

  /** A literal text and the placeholder behind it. */
  datatype Piece = Piece(text: string, key: string)

  ghost predicate Literal(s: string) {
    forall j: nat :: !OccursAt(s, OPEN, j)
  }

  ghost predicate WellFormed(pieces: seq<Piece>, tail: string) {
    && Literal(tail)
    && forall i :: 0 <= i < |pieces| ==> Literal(pieces[i].text) && '}' !in pieces[i].key
  }

  function Render(pieces: seq<Piece>, tail: string): string {
    if pieces == [] then tail
    else pieces[0].text + OPEN + pieces[0].key + "}" + Render(pieces[1..], tail)
  }

  /** Every placeholder replaced once; what is put in is not looked at again. */
  function Substitute(pieces: seq<Piece>, tail: string, config: Option<Config>): string {
    if pieces == [] then tail
    else pieces[0].text + Replacement(pieces[0].key, config) + Substitute(pieces[1..], tail, config)
  }

  lemma NoOverlap(t: string, j: nat, k: nat)
    requires OccursAt(t, OPEN, k) && j < k < j + 10
    ensures !OccursAt(t, OPEN, j)
  {
    assert t[k] == t[k..k + 10][0] == OPEN[0];
    assert t[j..j + 10][k - j] == t[k];
    assert OPEN[k - j] != OPEN[0];
  }

  lemma SplitAt(t: string, from: nat, a: string, b: string)
    requires from <= |t| && t[from..] == a + b
    ensures from + |a| <= |t| && t[from..from + |a|] == a && t[from + |a|..] == b
  {
    assert t[from..from + |a|] == t[from..][..|a|];
    assert t[from + |a|..] == t[from..][|a|..];
  }

  /** An opening that begins inside a literal cannot reach into the opening behind it. */
  lemma FirstOpening(t: string, from: nat, text: string, rest: string)
    requires Literal(text) && from <= |t| && t[from..] == text + OPEN + rest
    ensures StrStr(t, OPEN, from) == Some(from + |text|)
  {
    hide StrStr;
    var k := from + |text|;
    assert t[from..] == text + (OPEN + rest);
    SplitAt(t, from, text, OPEN + rest);
    SplitAt(t, k, OPEN, rest);
    forall j | from <= j < k ensures !OccursAt(t, OPEN, j) {
      if j + 10 <= k {
        SliceOfSlice(t, from, k, j - from, j - from + 10);
        assert !OccursAt(text, OPEN, j - from);
      } else {
        NoOverlap(t, j, k);
      }
    }
    StrStrIs(t, OPEN, from, k);
  }

  lemma NoOpening(t: string, from: nat)
    requires from <= |t| && Literal(t[from..])
    ensures StrStr(t, OPEN, from).None?
  {
    hide StrStr;
    var s := t[from..];
    forall j | from <= j ensures !OccursAt(t, OPEN, j) {
      assert !OccursAt(s, OPEN, j - from);
      if j + 10 <= |t| {
        SliceOfSlice(t, from, |t|, j - from, j - from + 10);
        assert t[from..|t|] == s;
      }
    }
  }

  lemma ExpandLiteral(t: string, from: nat, config: Option<Config>)
    requires from <= |t| && Literal(t[from..])
    ensures Expand(t, from, config) == (t[from..], true)
  {
    NoOpening(t, from);
    assert from == |t| ==> t[from..] == "";
  }

  lemma WellFormedParts(pieces: seq<Piece>, tail: string)
    requires WellFormed(pieces, tail)
    ensures Literal(tail)
    ensures pieces != [] ==> Literal(pieces[0].text) && '}' !in pieces[0].key && WellFormed(pieces[1..], tail)
  {
  }

  lemma FirstBrace(t: string, from: nat, key: string)
    requires from + |key| < |t| && t[from..from + |key|] == key && t[from + |key|] == '}' && '}' !in key
    ensures StrChr(t, '}', from) == Some(from + |key|)
  {
    assert forall i :: from <= i < from + |key| ==> t[i] == key[i - from];
  }

  lemma Assoc5(a: string, b: string, c: string, d: string, e: string)
    ensures a + b + c + d + e == a + (b + (c + (d + e)))
  {
  }

  lemma PieceSlices(t: string, from: nat, p: Piece, rest: string)
    requires from <= |t| && t[from..] == p.text + OPEN + p.key + "}" + rest
    ensures var start := from + |p.text|; var end := start + 10 + |p.key|;
            && end < |t| && t[end] == '}' && t[end + 1..] == rest
            && t[from..start] == p.text && t[start + 10..end] == p.key
  {
    var start := from + |p.text|;
    var end := start + 10 + |p.key|;
    Assoc5(p.text, OPEN, p.key, "}", rest);
    SplitAt(t, from, p.text, OPEN + (p.key + ("}" + rest)));
    SplitAt(t, start, OPEN, p.key + ("}" + rest));
    SplitAt(t, start + 10, p.key, "}" + rest);
    SplitAt(t, end, "}", rest);
    assert t[end] == t[end..end + 1][0];
  }

  /** Where the first piece of a rendered template lies. */
  lemma FirstPiece(t: string, from: nat, p: Piece, rest: string)
    requires from <= |t| && t[from..] == p.text + OPEN + p.key + "}" + rest
    requires Literal(p.text) && '}' !in p.key
    ensures var start := from + |p.text|; var end := start + 10 + |p.key|;
            && end < |t| && StrStr(t, OPEN, from) == Some(start) && StrChr(t, '}', start + 10) == Some(end)
            && t[from..start] == p.text && t[start + 10..end] == p.key && t[end + 1..] == rest
  {
    hide Literal, StrStr, StrChr, OccursAt;
    PieceSlices(t, from, p, rest);
    FirstBrace(t, from + |p.text| + 10, p.key);
    assert p.text + OPEN + p.key + "}" + rest == p.text + OPEN + (p.key + "}" + rest);
    FirstOpening(t, from, p.text, p.key + "}" + rest);
  }

  /** Expanding a template is substituting in it. */
  lemma {:induction false} ExpandIsSubstitute(t: string, from: nat, pieces: seq<Piece>, tail: string,
                                              config: Option<Config>)
    requires from <= |t| && t[from..] == Render(pieces, tail) && WellFormed(pieces, tail)
    ensures Expand(t, from, config) == (Substitute(pieces, tail, config), true)
    decreases |pieces|
  {
    hide Replacement, Expand, WellFormed, Literal, StrStr, StrChr, OccursAt;
    WellFormedParts(pieces, tail);
    if pieces == [] {
      ExpandLiteral(t, from, config);
    } else {
      var p, rest := pieces[0], Render(pieces[1..], tail);
      var start := from + |p.text|;
      var end := start + 10 + |p.key|;
      FirstPiece(t, from, p, rest);
      ExpandIsSubstitute(t, end + 1, pieces[1..], tail, config);
      ExpandStep(t, from, config);
      assert Substitute(pieces, tail, config)
          == p.text + Replacement(p.key, config) + Substitute(pieces[1..], tail, config);
    }
  }

  lemma LiteralSlice(t: string, from: nat, to: nat)
    requires from <= to <= |t| && forall j :: from <= j && j + 10 <= to ==> !OccursAt(t, OPEN, j)
    ensures Literal(t[from..to])
  {
    var s := t[from..to];
    forall j: nat ensures !OccursAt(s, OPEN, j) {
      if j + 10 <= |s| {
        SliceOfSlice(t, from, to, j, j + 10);
        assert !OccursAt(t, OPEN, from + j);
      }
    }
  }

  lemma {:induction false} ClosedHasPieces(t: string, from: nat, config: Option<Config>)
      returns (pieces: seq<Piece>, tail: string)
    requires from <= |t| && Expand(t, from, config).1
    ensures WellFormed(pieces, tail) && Render(pieces, tail) == t[from..]
    decreases |t| - from
  {
    hide Replacement, Expand, WellFormed, Literal, Render;
    var start := StrStr(t, OPEN, from);
    if start.None? {
      pieces, tail := [], t[from..];
      NoPieces(t, from);
    } else {
      ExpandStep(t, from, config);
      var end := StrChr(t, '}', start.value + 10);
      var rest;
      rest, tail := ClosedHasPieces(t, end.value + 1, config);
      LiteralSlice(t, from, start.value);
      OnePiece(t, from, start.value, end.value, rest, tail);
      pieces := [Piece(t[from..start.value], t[start.value + 10..end.value])] + rest;
    }
  }

  lemma NoPieces(t: string, from: nat)
    requires from <= |t| && StrStr(t, OPEN, from).None?
    ensures WellFormed([], t[from..]) && Render([], t[from..]) == t[from..]
  {
    LiteralSlice(t, from, |t|);
    assert t[from..|t|] == t[from..];
  }

  lemma WellFormedCons(p: Piece, rest: seq<Piece>, tail: string)
    requires Literal(p.text) && '}' !in p.key && WellFormed(rest, tail)
    ensures WellFormed([p] + rest, tail)
    ensures Render([p] + rest, tail) == p.text + OPEN + p.key + "}" + Render(rest, tail)
  {
    var pieces := [p] + rest;
    assert pieces[1..] == rest;
    forall i | 0 <= i < |pieces| ensures Literal(pieces[i].text) && '}' !in pieces[i].key {
      assert pieces[i] == if i == 0 then p else rest[i - 1];
    }
  }

  lemma FiveParts(t: string, from: nat, start: nat, key: nat, end: nat)
    requires from <= start <= key <= end < |t|
    ensures t[from..] == t[from..start] + t[start..key] + t[key..end] + [t[end]] + t[end + 1..]
  {
  }

  lemma OnePiece(t: string, from: nat, start: nat, end: nat, rest: seq<Piece>, tail: string)
    requires from <= start && start + 10 <= end < |t| && OccursAt(t, OPEN, start) && t[end] == '}'
    requires Literal(t[from..start]) && forall j :: start + 10 <= j < end ==> t[j] != '}'
    requires WellFormed(rest, tail) && Render(rest, tail) == t[end + 1..]
    ensures var pieces := [Piece(t[from..start], t[start + 10..end])] + rest;
            WellFormed(pieces, tail) && Render(pieces, tail) == t[from..]
  {
    var p := Piece(t[from..start], t[start + 10..end]);
    assert forall k :: 0 <= k < |p.key| ==> p.key[k] == t[start + 10 + k];
    WellFormedCons(p, rest, tail);
    assert [t[end]] == "}";
    FiveParts(t, from, start, start + 10, end);
  }

  /** A template has all its placeholders closed exactly when it is text with holes; the expansion then is
      the one-pass substitution. */
  lemma ClosedTemplates(t: string, config: Option<Config>)
    ensures Expand(t, 0, config).1 <==> exists pieces, tail :: WellFormed(pieces, tail) && Render(pieces, tail) == t
    ensures forall pieces, tail :: WellFormed(pieces, tail) && Render(pieces, tail) == t ==>
              Expand(t, 0, config) == (Substitute(pieces, tail, config), true)
  {
    assert t[0..] == t;
    if Expand(t, 0, config).1 {
      var pieces, tail := ClosedHasPieces(t, 0, config);
    }
    forall pieces, tail | WellFormed(pieces, tail) && Render(pieces, tail) == t
      ensures Expand(t, 0, config) == (Substitute(pieces, tail, config), true)
    {
      ExpandIsSubstitute(t, 0, pieces, tail, config);
    }
  }

  /** What a template with an unclosed placeholder emits before it fails: everything in front of that. */
  lemma {:induction false} UnclosedEmits(t: string, from: nat, pieces: seq<Piece>, text: string, rest: string,
                                         config: Option<Config>)
    requires from <= |t| && t[from..] == Render(pieces, text + OPEN + rest)
    requires WellFormed(pieces, text) && '}' !in rest
    ensures Expand(t, from, config) == (Substitute(pieces, text, config), false)
    decreases |pieces|
  {
    hide Replacement, Expand, WellFormed, Literal, StrStr, StrChr, OccursAt;
    WellFormedParts(pieces, text);
    if pieces == [] {
      FirstOpening(t, from, text, rest);
      NoBrace(t, from, text, OPEN, rest);
      ExpandStep(t, from, config);
    } else {
      var p, behind := pieces[0], Render(pieces[1..], text + OPEN + rest);
      FirstPiece(t, from, p, behind);
      UnclosedEmits(t, from + |p.text| + 10 + |p.key| + 1, pieces[1..], text, rest, config);
      ExpandStep(t, from, config);
    }
  }

  lemma NoBrace(t: string, from: nat, text: string, opening: string, rest: string)
    requires from <= |t| && t[from..] == text + opening + rest && '}' !in rest
    ensures var start := from + |text|; var key := start + |opening|;
            key <= |t| && t[from..start] == text && StrChr(t, '}', key).None?
  {
    hide StrChr;
    var head := text + opening;
    SplitAt(t, from, head, rest);
    BraceNotIn(t, from + |head|, rest);
    SliceOfSlice(t, from, from + |head|, 0, |text|);
    assert head[..|text|] == text;
  }

  lemma BraceNotIn(t: string, key: nat, rest: string)
    requires key <= |t| && t[key..] == rest && '}' !in rest
    ensures StrChr(t, '}', key).None?
  {
    hide StrChr;
    assert t[key..|t|] == t[key..];
    SliceLacks(t, key, |t|, '}');
  }

  // ----- what a hole shows -----

  /** The same letter, the first one in either case. */
  predicate SameLetter(a: char, b: char) {
    a == b || ('A' <= a <= 'Z' && a as int + 32 == b as int)
  }

  /** A non-empty beginning of the name, in any case. */
  predicate Abbreviates(key: string, name: string) {
    1 <= |key| <= |name| && forall i :: 0 <= i < |key| ==> SameLetter(key[i], name[i])
  }

  /** A hole shows the network's name, its password or the time server by its key, and nothing for any other key
      or without a configuration. */
  lemma HoleShows(key: string, c: Config)
    ensures Abbreviates(key, "ssid") ==> Replacement(key, Some(c)) == CStr(c.ssid)
    ensures Abbreviates(key, "pwd") ==> Replacement(key, Some(c)) == CStr(c.password)
    ensures Abbreviates(key, "ntp") ==> Replacement(key, Some(c)) == CStr(c.ntpServer)
    ensures !Abbreviates(key, "ssid") && !Abbreviates(key, "pwd") && !Abbreviates(key, "ntp") ==>
              Replacement(key, Some(c)) == ""
    ensures Replacement(key, Option.None) == ""
  {
    hide CStr;
    AbbreviationIs(key, "ssid");
    AbbreviationIs(key, "pwd");
    AbbreviationIs(key, "ntp");
    if key != "" {
      assert SameLetter(key[0], 's') ==> !SameLetter(key[0], 'p') && !SameLetter(key[0], 'n');
      assert SameLetter(key[0], 'p') ==> !SameLetter(key[0], 'n');
    }
  }

  lemma AbbreviationIs(key: string, name: string)
    requires forall i :: 0 <= i < |name| ==> 'a' <= name[i] <= 'z'
    ensures Abbreviates(key, name) <==> key != "" && AbbreviatesName(key, name)
  {
  }

  /** The three holes of the page itself. */
  lemma PageHoles(c: Config)
    ensures Expand("{TEMPLATE:SSID}", 0, Some(c)) == (CStr(c.ssid), true)
    ensures Expand("{TEMPLATE:PWD}", 0, Some(c)) == (CStr(c.password), true)
    ensures Expand("{TEMPLATE:NTP}", 0, Some(c)) == (CStr(c.ntpServer), true)
  {
    hide CStr, Expand;
    SsidHole(c);
    PwdHole(c);
    NtpHole(c);
  }

  lemma SsidHole(c: Config)
    ensures Expand("{TEMPLATE:SSID}", 0, Some(c)) == (CStr(c.ssid), true)
  {
    hide CStr, Expand, Replacement;
    assert Abbreviates("SSID", "ssid");
    HoleShows("SSID", c);
    OneHole("{TEMPLATE:SSID}", "SSID", c);
  }

  lemma PwdHole(c: Config)
    ensures Expand("{TEMPLATE:PWD}", 0, Some(c)) == (CStr(c.password), true)
  {
    hide CStr, Expand, Replacement;
    assert Abbreviates("PWD", "pwd");
    HoleShows("PWD", c);
    OneHole("{TEMPLATE:PWD}", "PWD", c);
  }

  lemma NtpHole(c: Config)
    ensures Expand("{TEMPLATE:NTP}", 0, Some(c)) == (CStr(c.ntpServer), true)
  {
    hide CStr, Expand, Replacement;
    assert Abbreviates("NTP", "ntp");
    HoleShows("NTP", c);
    OneHole("{TEMPLATE:NTP}", "NTP", c);
  }

  lemma OneHole(t: string, key: string, c: Config)
    requires t == OPEN + key + "}" && '}' !in key
    ensures Expand(t, 0, Some(c)) == (Replacement(key, Some(c)), true)
  {
    hide Replacement, Expand;
    var pieces := [Piece("", key)];
    assert pieces[1..] == [];
    assert Literal("");
    assert WellFormed(pieces, "");
    assert Render(pieces, "") == "" + OPEN + key + "}" + "" == t;
    var r := Replacement(key, Some(c));
    assert Substitute(pieces, "", Some(c)) == "" + r + "" == r;
    assert t[0..] == t;
    ExpandIsSubstitute(t, 0, pieces, "", Some(c));
  }

  // ----- the size of the buffer -----

  // WIFI_SSID_MAX_LEN + WIFI_PASSWORD_MAX_LEN + HOSTNAME_MAX_LEN, added to the template's length
  const ROOM := 32 + 63 + 64

  function Uses(pieces: seq<Piece>, kind: Kind): nat {
    if pieces == [] then 0 else (if KindOf(pieces[0].key) == kind then 1 else 0) + Uses(pieces[1..], kind)
  }

  lemma {:induction false} ExpansionSize(pieces: seq<Piece>, tail: string, config: Option<Config>)
    requires config.Some? ==> Valid(config.value)
    ensures |Substitute(pieces, tail, config)| + 11 * |pieces|
            <= |Render(pieces, tail)| + 32 * Uses(pieces, Ssid) + 63 * Uses(pieces, Pwd) + 64 * Uses(pieces, Ntp)
  {
    if pieces != [] {
      ExpansionSize(pieces[1..], tail, config);
      if config.Some? {
        TerminatedLength(config.value.ssid, SSID_SIZE);
        TerminatedLength(config.value.password, PASSWORD_SIZE);
        TerminatedLength(config.value.ntpServer, HOST_SIZE);
      }
    }
  }

  lemma TerminatedLength(field: string, size: nat)
    requires Terminated(field, size)
    ensures |CStr(field)| < size
  {
    var r := CStr(field);
    assert forall i :: 0 <= i < |r| ==> field[i] == r[i] != NUL;
  }

  /** The generated buffer always suffices: if each of the three values is used at most once, the expansion
      of a closed template is shorter than the template's length plus the values' maximal lengths. */
  lemma GeneratedBufferSuffices(pieces: seq<Piece>, tail: string, config: Option<Config>)
    requires WellFormed(pieces, tail) && (config.Some? ==> Valid(config.value))
    requires Uses(pieces, Ssid) <= 1 && Uses(pieces, Pwd) <= 1 && Uses(pieces, Ntp) <= 1
    ensures var t := Render(pieces, tail);
            Expand(t, 0, config).1 && |Expand(t, 0, config).0| < |t| + ROOM
  {
    var t := Render(pieces, tail);
    assert t[0..] == t;
    ExpandIsSubstitute(t, 0, pieces, tail, config);
    ExpansionSize(pieces, tail, config);
  }
}
