/** How tcp_server_recv in src/wifi.c accumulates a request from TCP segments and decides, after each one,
    what to do with what it has. */
module HttpRequest {
  import opened Bytes
  import opened CStrings
  import opened Numbers

  const BUFFER_SIZE := 8192
  const POST := "POST "
  const CONTENT_LENGTH := "Content-Length: "
  const LENGTH_BUFFER := 16
  const CRLF := "\r\n"
  const BLANK_LINE := "\r\n\r\n"

  datatype Verdict =
    | Wait                // nothing yet
    | Reject              // the connection is closed with ERR_VAL
    | Form(body: string)  // a POST is complete
    | Page                // the configuration page is sent
    | Redirect            // everything else goes to the captive portal

  predicate StartsWith(s: string, prefix: string) {
    |prefix| <= |s| && s[..|prefix|] == prefix
  }

  /** The request buffer after a segment: what fits is appended, and C sees it up to the first NUL. */
  function Append(headers: string, segment: string): (r: string)
    requires |headers| < BUFFER_SIZE
    ensures |r| < BUFFER_SIZE && NoNul(r)
  {
    var space := BUFFER_SIZE - |headers| - 1;
    CStr(headers + if |segment| > space then segment[..space] else segment)
  }

  /** The buffer takes 8,191 characters; what does not fit is lost. */
  lemma AppendTakes(headers: string, segment: string)
    requires NoNul(headers) && NoNul(segment) && |headers| <= 8_191
    ensures Append(headers, segment)
            == if |headers| + |segment| <= 8_191 then headers + segment else (headers + segment)[..8_191]
  {
    var space := 8_191 - |headers|;
    if |segment| > space {
      assert headers + segment[..space] == (headers + segment)[..8_191];
      NoNulAppend(headers, segment[..space]);
    }
  }

  /** The announced body length (0 without an announcement), or None if the connection must be closed. */
  function ExpectedLength(request: string): Option<int> {
    var at := StrStr(request, CONTENT_LENGTH, 0);
    if at.None? then Some(0)
    else
      var lineEnd := StrStr(request, CRLF, at.value);
      if lineEnd.None? then None
      else
        LineEndBehind(request, at.value);
        var raw := request[at.value + 16..lineEnd.value];
        if raw == "" || |raw| >= LENGTH_BUFFER then None else ParseLongBounded(raw, 0, LONG_MAX)
  }

  lemma OccursWithFirst(s: string, pat: string, k: nat)
    requires pat != ""
    ensures OccursAt(s, pat, k) ==> s[k] == pat[0]
  {
    if OccursAt(s, pat, k) {
      assert s[k..k + |pat|][0] == s[k];
    }
  }

  lemma LineEndBehind(s: string, at: nat)
    requires OccursAt(s, CONTENT_LENGTH, at)
    ensures var e := StrStr(s, CRLF, at); e.Some? ==> at + 16 <= e.value
  {
    forall j | at <= j < at + 16 ensures !OccursAt(s, CRLF, j) {
      assert s[j] == s[at..at + 16][j - at] == CONTENT_LENGTH[j - at];
      OccursWithFirst(s, CRLF, j);
    }
  }

  function Judge(request: string): Verdict {
    if StartsWith(request, POST) then
      var expected := ExpectedLength(request);
      var body := StrStr(request, BLANK_LINE, 0);
      if expected.None? then Reject
      else if body.None? || |request| - (body.value + 4) < expected.value then Wait
      else Form(request[body.value + 4..])
    else if StrStr(request, CRLF, 0).None? then Wait
    else if WantsPage(request) then Page
    else Redirect
  }

  // ----- a POST cut into segments -----

  /** A NUL-free POST that fits the buffer, whose first Content-Length (at `at`, its line ending at `end`)
      stands in the headers and equals the length of what follows the blank line at `blank`. */
  ghost predicate WholePost(m: string, at: nat, end: nat, blank: nat) {
    && NoNul(m) && |m| <= 8_191 && StartsWith(m, POST)
    && StrStr(m, CONTENT_LENGTH, 0) == Some(at) && StrStr(m, CRLF, at) == Some(end)
    && StrStr(m, BLANK_LINE, 0) == Some(blank) && at < blank
    && ExpectedLength(m) == Some(|m| - (blank + 4))
  }

  lemma HeaderOrder(m: string, at: nat, end: nat, blank: nat)
    requires WholePost(m, at, end, blank)
    ensures at + 16 <= end <= blank && blank + 4 <= |m|
  {
    hide ExpectedLength, StrStr;
    LineEndBehind(m, at);
    BlankIsLineEnd(m, blank);
  }

  lemma BlankIsLineEnd(m: string, blank: nat)
    requires OccursAt(m, BLANK_LINE, blank)
    ensures OccursAt(m, CRLF, blank)
  {
    assert m[blank..blank + 4][..2] == m[blank..blank + 2];
  }

  lemma PrefixLength(m: string, at: nat, end: nat, blank: nat, c: nat)
    requires WholePost(m, at, end, blank) && c <= |m|
    ensures ExpectedLength(m[..c]) == if c < at + 16 then Some(0) else if c < end + 2 then None
                                      else Some(|m| - (blank + 4))
  {
    StrStrInPrefix(m, CONTENT_LENGTH, 0, c);
    StrStrInPrefix(m, CRLF, at, c);
    LineEndBehind(m, at);
    if c >= end + 2 {
      assert m[..c][at + 16..end] == m[at + 16..end];
    }
  }

  /** What the code makes of the first `c` characters of such a POST. */
  ghost function OnPrefix(m: string, at: nat, end: nat, blank: nat, c: nat): Verdict
    requires blank + 4 <= |m|
  {
    if at + 16 <= c < end + 2 then Reject else if c < |m| then Wait else Form(m[blank + 4..])
  }

  /** The verdict on every prefix: the connection is closed exactly for a cut behind "Content-Length: " and
      before the end of its line; otherwise nothing happens before the last byte. */
  lemma PrefixVerdict(m: string, at: nat, end: nat, blank: nat, c: nat)
    requires WholePost(m, at, end, blank) && c <= |m|
    ensures blank + 4 <= |m| && Judge(m[..c]) == OnPrefix(m, at, end, blank, c)
  {
    hide StrStr, StartsWith, ExpectedLength;
    HeaderOrder(m, at, end, blank);
    PrefixStarts(m, c, POST);
    if c < 5 {
      ShortPrefix(m, c);
    } else {
      PrefixLength(m, at, end, blank, c);
      StrStrInPrefix(m, BLANK_LINE, 0, c);
      if c == |m| {
        assert m[..c] == m;
      }
    }
  }

  lemma ShortPrefix(m: string, c: nat)
    requires StartsWith(m, POST) && c < 5
    ensures Judge(m[..c]) == Wait
  {
    var s := m[..c];
    forall j: nat ensures !OccursAt(s, CRLF, j) {
      if j < c {
        assert s[j] == m[..5][j] == POST[j];
        OccursWithFirst(s, CRLF, j);
      }
    }
  }

  predicate WantsPage(m: string) {
    StartsWith(m, "GET /clock-config") || StartsWith(m, "GET / ")
  }

  /** Any other request is answered as soon as its first line is complete, and by that line alone: every
      prefix that ends before that waits, every longer one is answered alike. */
  lemma OtherRequestVerdict(m: string, line: nat, c: nat)
    requires !StartsWith(m, POST) && StrStr(m, CRLF, 0) == Some(line) && c <= |m|
    ensures Judge(m[..c]) == if c < line + 2 then Wait else if WantsPage(m) then Page else Redirect
  {
    hide StrStr, StartsWith, ExpectedLength, WantsPage;
    StrStrInPrefix(m, CRLF, 0, c);
    PrefixStarts(m, c, POST);
    if c >= line + 2 {
      LinePage(m, line, c);
    }
  }

  lemma LinePage(m: string, line: nat, c: nat)
    requires OccursAt(m, CRLF, line) && line + 2 <= c <= |m|
    ensures WantsPage(m[..c]) <==> WantsPage(m)
  {
    LinePrefix(m, line, c, "GET /clock-config");
    LinePrefix(m, line, c, "GET / ");
  }

  lemma PrefixStarts(m: string, c: nat, prefix: string)
    requires c <= |m|
    ensures StartsWith(m[..c], prefix) <==> StartsWith(m, prefix) && |prefix| <= c
  {
    assert |prefix| <= c ==> m[..c][..|prefix|] == m[..|prefix|];
  }

  /** A beginning without a carriage return lies within the first line. */
  lemma LinePrefix(m: string, line: nat, c: nat, prefix: string)
    requires OccursAt(m, CRLF, line) && line + 2 <= c <= |m| && forall i :: 0 <= i < |prefix| ==> prefix[i] != '\r'
    ensures StartsWith(m[..c], prefix) <==> StartsWith(m, prefix)
  {
    PrefixStarts(m, c, prefix);
    OccursWithFirst(m, CRLF, line);
    if StartsWith(m, prefix) && line < |prefix| {
      assert m[line] == m[..|prefix|][line] == prefix[line];
    }
  }

  /** The verdicts of `judge` after each segment, up to the one that closes the connection. */
  function Verdicts(judge: string -> Verdict, headers: string, segments: seq<string>): seq<Verdict>
    requires |headers| < BUFFER_SIZE
    decreases |segments|
  {
    if segments == [] then []
    else
      var h := Append(headers, segments[0]);
      var v := judge(h);
      if v == Reject then [v] else [v] + Verdicts(judge, h, segments[1..])
  }

  function Concat(segments: seq<string>): string {
    if segments == [] then "" else segments[0] + Concat(segments[1..])
  }

  /** How much has arrived after segment `k`. */
  function Cut(segments: seq<string>, k: nat): nat
    requires k <= |segments|
  {
    |Concat(segments[..k])|
  }

  /** `n` waits, then `last`. */
  predicate WaitsThen(vs: seq<Verdict>, n: nat, last: Verdict) {
    |vs| == n + 1 && vs[n] == last && forall i :: 0 <= i < n ==> vs[i] == Wait
  }

  /** The first cut inside the Content-Length value, or the number of segments if there is none. */
  function FirstBadCut(at: nat, end: nat, arrived: nat, segments: seq<string>): (k: nat)
    ensures k <= |segments|
    decreases |segments|
  {
    if segments == [] then 0
    else
      var c := arrived + |segments[0]|;
      if at + 16 <= c < end + 2 then 0 else 1 + FirstBadCut(at, end, c, segments[1..])
  }

  lemma AppendPrefix(m: string, a: nat, segment: string)
    requires NoNul(m) && |m| < BUFFER_SIZE && a + |segment| <= |m| && m[a..a + |segment|] == segment
    ensures Append(m[..a], segment) == m[..a + |segment|]
  {
    assert m[..a] + segment == m[..a + |segment|];
  }

  lemma WaitFirst(vs: seq<Verdict>, n: nat, last: Verdict)
    requires WaitsThen(vs, n, last)
    ensures WaitsThen([Wait] + vs, n + 1, last)
  {
  }

  lemma ConcatFirst(m: string, a: nat, segments: seq<string>)
    requires a <= |m| && Concat(segments) == m[a..] && segments != []
    ensures var c := a + |segments[0]|;
            c <= |m| && m[a..c] == segments[0] && m[c..] == Concat(segments[1..])
  {
    var s := segments[0];
    assert m[a..][..|s|] == s && m[a..][|s|..] == Concat(segments[1..]);
  }

  lemma {:induction false} VerdictsFrom(judge: string -> Verdict, m: string, at: nat, end: nat, blank: nat,
                                        a: nat, segments: seq<string>)
    requires NoNul(m) && |m| < BUFFER_SIZE && end + 2 <= |m| && blank + 4 <= |m|
    requires forall c :: 0 <= c <= |m| ==> judge(m[..c]) == OnPrefix(m, at, end, blank, c)
    requires a <= |m| && Concat(segments) == m[a..]
    requires segments != [] && forall i :: 0 <= i < |segments| ==> segments[i] != ""
    ensures var k := FirstBadCut(at, end, a, segments);
            if k < |segments| then WaitsThen(Verdicts(judge, m[..a], segments), k, Reject)
            else WaitsThen(Verdicts(judge, m[..a], segments), |segments| - 1, Form(m[blank + 4..]))
    decreases |segments|
  {
    hide Append;
    var c, rest := a + |segments[0]|, segments[1..];
    ConcatFirst(m, a, segments);
    AppendPrefix(m, a, segments[0]);
    assert judge(m[..c]) == OnPrefix(m, at, end, blank, c);
    if rest == [] {
      assert Verdicts(judge, m[..c], rest) == [];
    } else {
      assert rest[0] == segments[1] && |Concat(rest)| > 0;
      VerdictsFrom(judge, m, at, end, blank, c, rest);
      var k := FirstBadCut(at, end, c, rest);
      if k < |rest| {
        WaitFirst(Verdicts(judge, m[..c], rest), k, Reject);
      } else {
        WaitFirst(Verdicts(judge, m[..c], rest), |rest| - 1, Form(m[blank + 4..]));
      }
    }
  }

  /** However such a POST is cut into non-empty segments, it waits until the last one and then yields the
      same form, unless a cut falls behind "Content-Length: " and before the end of its line: then the
      connection is closed at the first such cut, and no form is ever handled. */
  lemma SegmentationIsIrrelevant(m: string, at: nat, end: nat, blank: nat, segments: seq<string>)
    requires WholePost(m, at, end, blank) && Concat(segments) == m
    requires forall i :: 0 <= i < |segments| ==> segments[i] != ""
    ensures blank + 4 <= |m|
    ensures var vs := Verdicts(Judge, "", segments); var k := FirstBadCut(at, end, 0, segments);
            && (k == |segments| ==> WaitsThen(vs, |segments| - 1, Form(m[blank + 4..])))
            && (k < |segments| ==> WaitsThen(vs, k, Reject))
  {
    HeaderOrder(m, at, end, blank);
    assert segments != [];
    assert m[..0] == "" && m[0..] == m;
    forall c | 0 <= c <= |m| ensures Judge(m[..c]) == OnPrefix(m, at, end, blank, c) {
      PrefixVerdict(m, at, end, blank, c);
    }
    VerdictsFrom(Judge, m, at, end, blank, 0, segments);
  }

  /** What FirstBadCut says: no cut before it falls in the value, and its own does. */
  lemma {:induction false} BadCutMeaning(at: nat, end: nat, arrived: nat, segments: seq<string>, j: nat)
    requires j < |segments|
    ensures var k := FirstBadCut(at, end, arrived, segments);
            && (j < k ==> !(at + 16 <= arrived + Cut(segments, j + 1) < end + 2))
            && (j == k ==> at + 16 <= arrived + Cut(segments, j + 1) < end + 2)
    decreases |segments|
  {
    var s := segments[0];
    var c := arrived + |s|;
    if j == 0 {
      assert segments[..1] == [s] && Concat([s][1..]) == "";
    } else {
      assert segments[..j + 1] == [s] + segments[1..][..j];
      assert Cut(segments, j + 1) == |s| + Cut(segments[1..], j);
      if !(at + 16 <= c < end + 2) {
        BadCutMeaning(at, end, c, segments[1..], j - 1);
      }
    }
  }
}
