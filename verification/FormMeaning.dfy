/** What a submitted form means, in its own characters: which keys it knows, what each does, and exactly which
    forms are refused. */
module FormMeaning {
  import opened Bytes
  import opened CStrings
  import opened UrlDecode
  import opened Numbers
  import opened FlashConfig
  import opened FormParser
  import opened DaylightSaving

  // ----- numbers -----

  /** White space, a sign or none, and digits, which denote `v` however large it is. */
  ghost predicate IsNumberOf(value: string, v: int) {
    exists space, sign, digits :: IsNumber(value, space, sign, digits) && v == Signed(sign, digits)
  }

  ghost predicate NumberWithin(value: string, min: int, max: int) {
    exists v :: IsNumberOf(value, v) && min <= v <= max
  }

  /** A long saturates at its ends, which is the same as being exact for bounds inside them. */
  lemma ParsedOrNot(value: string, min: int, max: int)
    requires LONG_MIN < min && max < LONG_MAX
    ensures ParseLongBounded(value, min, max).Some? <==> NumberWithin(value, min, max)
    ensures forall v :: ParseLongBounded(value, min, max) == Some(v) <==> IsNumberOf(value, v) && min <= v <= max
  {
    hide ParseLongBounded, IsNumber;
    forall v ensures ParseLongBounded(value, min, max) == Some(v) <==> IsNumberOf(value, v) && min <= v <= max {
      ParsesExactlyNumbers(value, min, max, v);
    }
    if ParseLongBounded(value, min, max).Some? {
      assert IsNumberOf(value, ParseLongBounded(value, min, max).value);
    }
  }

  /** Up to the largest long, everything above it counts as that. */
  lemma ParsedUpToLong(value: string)
    ensures forall n :: ParseLongBounded(value, 0, LONG_MAX) == Some(n)
                        <==> exists v :: IsNumberOf(value, v) && v >= 0
                                         && n == if v > 2_147_483_647 then 2_147_483_647 else v
  {
    hide ParseLongBounded;
    forall n
      ensures ParseLongBounded(value, 0, LONG_MAX) == Some(n)
              <==> exists v :: IsNumberOf(value, v) && v >= 0 && n == if v > 2_147_483_647 then 2_147_483_647 else v
    {
      ParsesExactlyNumbers(value, 0, LONG_MAX, n);
      if ParseLongBounded(value, 0, LONG_MAX) == Some(n) {
        var space, sign, digits :| IsNumber(value, space, sign, digits) && n == Clamp(Signed(sign, digits));
        assert IsNumberOf(value, Signed(sign, digits));
      }
    }
  }

  // ----- one pair -----

  /** A pair with that key, and its value as it was sent. */
  predicate HasKey(pair: string, key: string, raw: string) {
    pair == key + "=" + raw
  }

  lemma PairApplied(c: Config, key: string, raw: string)
    requires Sized(c) && '=' !in key
    ensures ApplyPair(c, key + "=" + raw) == ApplyField(c, key, CStr(StripBreaks(Decode(raw))))
  {
    hide ApplyField;
    var pair := key + "=" + raw;
    assert pair[..|key|] == key && pair[|key|] == '=' && pair[|key| + 1..] == raw;
    assert forall i :: 0 <= i < |key| ==> pair[i] == key[i];
    var eq := StrChr(pair, '=', 0);
    assert eq == Some(|key|);
  }

  /** The string keys copy the decoded value into their field. */
  lemma StringKeys(c: Config, raw: string)
    requires Sized(c)
    ensures var value := CStr(StripBreaks(Decode(raw)));
            && ApplyPair(c, "ssid" + "=" + raw) == Some(c.(ssid := StrNCpy(c.ssid, value)))
            && ApplyPair(c, "pwd" + "=" + raw) == Some(c.(password := StrNCpy(c.password, value)))
            && ApplyPair(c, "ntp" + "=" + raw) == Some(c.(ntpServer := StrNCpy(c.ntpServer, value)))
  {
    hide ApplyPair, StrNCpy, CStr, Decode, StripBreaks;
    PairApplied(c, "ssid", raw);
    PairApplied(c, "pwd", raw);
    PairApplied(c, "ntp", raw);
  }

  /** The LED is on for values that begin with 1; the daylight saving rule is the one named, or none. */
  lemma ChoiceKeys(c: Config, raw: string)
    requires Sized(c)
    ensures var value := CStr(StripBreaks(Decode(raw)));
            && ApplyPair(c, "led_on" + "=" + raw) == Some(c.(led := value != "" && value[0] == '1'))
            && ApplyPair(c, "dst" + "=" + raw)
               == Some(c.(dst := if value == "NA" then NA else if value == "EU" then EU else if value == "AU" then AU
                                 else if value == "NZ" then NZ else if value == "CL" then CL
                                 else if value == "IL" then IL else DstRule.None))
  {
    hide ApplyPair, CStr, Decode, StripBreaks;
    PairApplied(c, "led_on", raw);
    PairApplied(c, "dst", raw);
  }

  /** The number keys take a number within their bounds, and refuse anything else. */
  lemma NumberKeys(c: Config, raw: string, r: Config)
    requires Sized(c)
    ensures var value := CStr(StripBreaks(Decode(raw)));
            && (ApplyPair(c, "tz" + "=" + raw) == Some(r)
                <==> exists v :: IsNumberOf(value, v) && -720 <= v <= 840 && r == c.(tz := v))
            && (ApplyPair(c, "cto" + "=" + raw) == Some(r)
                <==> exists v :: IsNumberOf(value, v) && 1_000 <= v <= 60_000 && r == c.(timeout := v))
            && (ApplyPair(c, "port" + "=" + raw) == Some(r)
                <==> exists v :: IsNumberOf(value, v) && 1 <= v <= 65_535 && r == c.(port := v))
  {
    hide ApplyPair, CStr, Decode, StripBreaks, ParseLongBounded, IsNumberOf;
    var value := CStr(StripBreaks(Decode(raw)));
    PairApplied(c, "tz", raw);
    PairApplied(c, "cto", raw);
    PairApplied(c, "port", raw);
    ParsedOrNot(value, -720, 840);
    ParsedOrNot(value, 1_000, 60_000);
    ParsedOrNot(value, 1, 65_535);
  }

  /** Any other key, and a pair without '=', is passed over. */
  lemma OtherKeys(c: Config, pair: string, key: string, raw: string)
    requires Sized(c)
    ensures '=' !in pair ==> ApplyPair(c, pair) == Some(c)
    ensures '=' !in key && key !in {"ssid", "pwd", "ntp", "tz", "dst", "cto", "port", "led_on"} ==>
              ApplyPair(c, key + "=" + raw) == Some(c)
  {
    hide Store;
    if '=' !in key {
      PairApplied(c, key, raw);
    }
  }

  // ----- refusal -----

  /** The pair gives a number that is not one within its bounds. */
  ghost predicate BadNumber(pair: string) {
    exists key, raw :: HasKey(pair, key, raw) && BadValue(key, CStr(StripBreaks(Decode(raw))))
  }

  ghost predicate BadValue(key: string, value: string) {
    || (key == "tz" && !NumberWithin(value, -720, 840))
    || (key == "cto" && !NumberWithin(value, 1_000, 60_000))
    || (key == "port" && !NumberWithin(value, 1, 65_535))
  }

  lemma FieldRefused(c: Config, key: string, value: string)
    requires Sized(c)
    ensures ApplyField(c, key, value).None? <==> BadValue(key, value)
  {
    hide ParseLongBounded, NumberWithin;
    ParsedOrNot(value, -720, 840);
    ParsedOrNot(value, 1_000, 60_000);
    ParsedOrNot(value, 1, 65_535);
  }

  lemma PairRefused(c: Config, pair: string)
    requires Sized(c)
    ensures ApplyPair(c, pair).None? <==> BadNumber(pair)
  {
    hide ApplyField, BadValue, CStr, Decode, StripBreaks;
    var eq := StrChr(pair, '=', 0);
    if eq.Some? {
      var key, raw := pair[..eq.value], pair[eq.value + 1..];
      FieldRefused(c, key, CStr(StripBreaks(Decode(raw))));
      assert HasKey(pair, key, raw);
    }
    forall key, raw | HasKey(pair, key, raw) && BadValue(key, CStr(StripBreaks(Decode(raw))))
      ensures ApplyPair(c, pair).None?
    {
      BadKey(key, CStr(StripBreaks(Decode(raw))));
      PairApplied(c, key, raw);
      FieldRefused(c, key, CStr(StripBreaks(Decode(raw))));
    }
  }

  lemma BadKey(key: string, value: string)
    ensures BadValue(key, value) ==> '=' !in key
  {
  }

  // ----- whole bodies -----

  /** A token of the body: a longest run without '&', not empty. */
  predicate IsToken(body: string, i: nat, j: nat) {
    && i < j <= |body| && '&' !in body[i..j]
    && (i == 0 || body[i - 1] == '&') && (j == |body| || body[j] == '&')
  }

  ghost predicate HasBadNumber(body: string) {
    BadNumberFrom(body, 0)
  }

  ghost predicate BadNumberFrom(body: string, from: nat) {
    exists i: nat, j: nat :: from <= i && IsToken(body, i, j) && BadNumber(body[i..j])
  }

  lemma FirstToken(body: string, start: nat)
    requires start < |body| && body[start] != '&' && (start == 0 || body[start - 1] == '&')
    ensures IsToken(body, start, TokenEnd(body, start))
    ensures forall i: nat, j: nat :: start <= i && IsToken(body, i, j) ==>
              (i == start && j == TokenEnd(body, start)) || i >= NextStart(body, start)
    ensures var next := NextStart(body, start); next < |body| ==> body[next - 1] == '&'
  {
    hide StrChr;
    var end, next := TokenEnd(body, start), NextStart(body, start);
    forall i: nat, j: nat | start <= i && IsToken(body, i, j) ensures (i == start && j == end) || i >= next {
      assert body[i] == body[i..j][0];
      if i == start {
        SameEnd(body, i, j, end);
      }
    }
  }

  lemma SameEnd(body: string, i: nat, j: nat, end: nat)
    requires IsToken(body, i, j) && i < end <= |body| && (end < |body| ==> body[end] == '&')
    requires forall k :: i <= k < end ==> body[k] != '&'
    ensures j == end
  {
    SliceLacks(body, i, j, '&');
  }

  lemma {:induction false} RefusedFrom(c: Config, body: string, start: nat)
    requires Sized(c) && start <= |body| && (start < |body| ==> body[start] != '&')
    requires start == 0 || start == |body| || body[start - 1] == '&'
    ensures ApplyFrom(c, body, start).None? <==> BadNumberFrom(body, start)
    decreases |body| - start
  {
    hide ApplyPair, BadNumber, IsToken, TokenEnd, NextStart;
    if start == |body| {
      NoToken(body);
    } else {
      var end, next := TokenEnd(body, start), NextStart(body, start);
      var pair := body[start..end];
      FirstToken(body, start);
      PairRefused(c, pair);
      NextToken(c, body, start);
      if ApplyPair(c, pair).Some? {
        RefusedFrom(ApplyPair(c, pair).value, body, next);
      }
    }
  }

  lemma NoToken(body: string)
    ensures forall i: nat, j: nat :: |body| <= i ==> !IsToken(body, i, j)
  {
  }

  /** A form is refused exactly if one of its tokens gives tz, cto or port a value that is not a number within
      the bounds of the field, whatever else it holds and whatever configuration it starts from. */
  lemma RefusedExactly(c: Config, body: string)
    requires Sized(c)
    ensures ApplyForm(c, body).None? <==> HasBadNumber(body)
  {
    hide ApplyFrom, BadNumber, IsToken;
    var start := TokenStart(body, 0);
    RefusedFrom(c, body, start);
    TokensBehind(body, start);
  }

  lemma TokensBehind(body: string, start: nat)
    requires start <= |body| && forall i :: 0 <= i < start ==> body[i] == '&'
    ensures forall i: nat, j: nat :: IsToken(body, i, j) ==> i >= start
  {
    forall i: nat, j: nat | IsToken(body, i, j) ensures i >= start {
      assert body[i] == body[i..j][0];
    }
  }
}
