/** POST requests as a browser writes them: a request line, the body's length, the body. */
module HttpPost {
  import opened Bytes
  import opened CStrings
  import opened Numbers
  import opened HttpRequest

  predicate RequestLine(line: string) {
    StartsWith(line, POST) && NoNul(line) && '\r' !in line && StrStr(line, CONTENT_LENGTH, 0).None?
  }

  lemma LineWithoutLength(rest: string)
    requires NoNul(rest) && '\r' !in rest && 'C' !in rest
    ensures RequestLine(POST + rest)
  {
    var line := POST + rest;
    assert line[..5] == POST;
    assert 'C' !in POST && '\r' !in POST && NoNul(POST);
    assert 'C' !in line;
    forall j: nat ensures !OccursAt(line, CONTENT_LENGTH, j) {
      OccursWithFirst(line, CONTENT_LENGTH, j);
    }
  }

  /** The page's own form is submitted with such a line. */
  lemma PageLine()
    ensures RequestLine(POST + "/clock-config HTTP/1.1")
  {
    hide RequestLine;
    LineWithoutLength("/clock-config HTTP/1.1");
  }

  function PostOf(line: string, body: string): string {
    line + CRLF + CONTENT_LENGTH + Decimal(|body|) + BLANK_LINE + body
  }

  // Where the announced length begins and ends in such a POST.

  function LengthAt(line: string): nat {
    |line| + 2
  }

  function LengthEnd(line: string, body: string): nat {
    LengthAt(line) + 16 + |Decimal(|body|)|
  }

  /** The parts of a POST, where they lie. */
  ghost predicate Laid(m: string, line: string, digits: string, body: string) {
    var at := |line| + 2;
    var end := at + 16 + |digits|;
    && |m| == end + 4 + |body| && m[..|line|] == line && m[|line|..at] == CRLF && m[at..at + 16] == CONTENT_LENGTH
    && m[at + 16..end] == digits && m[end..end + 4] == BLANK_LINE && m[end + 4..] == body
  }

  lemma SixParts(a: string, b: string, c: string, d: string, e: string, f: string)
    ensures var m, i := a + b + c + d + e + f, |a| + |b|;
            && m[..|a|] == a && m[|a|..i] == b && m[i..i + |c|] == c && m[i + |c|..i + |c| + |d|] == d
            && m[i + |c| + |d|..i + |c| + |d| + |e|] == e && m[i + |c| + |d| + |e|..] == f
  {
    assert a + b + c + d + e + f == a + (b + (c + (d + (e + f))));
  }

  lemma PostLaid(line: string, body: string)
    ensures Laid(PostOf(line, body), line, Decimal(|body|), body)
  {
    SixParts(line, CRLF, CONTENT_LENGTH, Decimal(|body|), BLANK_LINE, body);
  }

  /** No carriage return before the blank line but the one behind the request line. */
  lemma Returns(m: string, line: string, digits: string, body: string)
    requires Laid(m, line, digits, body) && '\r' !in line && '\r' !in digits
    ensures var end := |line| + 18 + |digits|;
            && (forall j :: 0 <= j < end && m[j] == '\r' ==> j == |line|) && m[|line|] == '\r' && m[|line| + 2] == 'C'
  {
    var at, end := |line| + 2, |line| + 18 + |digits|;
    assert '\r' !in CONTENT_LENGTH && m[0..|line|] == m[..|line|];
    SliceLacks(m, 0, |line|, '\r');
    SliceLacks(m, at, at + 16, '\r');
    SliceLacks(m, at + 16, end, '\r');
    assert m[|line|] == m[|line|..at][0] && m[|line| + 1] == m[|line|..at][1] && m[at] == m[at..at + 16][0];
  }

  lemma BlankReturns(m: string, j: nat)
    ensures OccursAt(m, BLANK_LINE, j) ==> m[j] == '\r' && m[j + 2] == '\r'
  {
    if OccursAt(m, BLANK_LINE, j) {
      assert m[j] == m[j..j + 4][0] && m[j + 2] == m[j..j + 4][2];
    }
  }

  lemma LengthFound(m: string, line: string, digits: string, body: string)
    requires Laid(m, line, digits, body) && RequestLine(line) && '\r' !in digits
    ensures StrStr(m, CONTENT_LENGTH, 0) == Some(|line| + 2)
  {
    var at := |line| + 2;
    Returns(m, line, digits, body);
    forall j | 0 <= j < at ensures !OccursAt(m, CONTENT_LENGTH, j) {
      if j + 16 <= |line| {
        assert m[..|line|][j..j + 16] == m[j..j + 16];
        assert !OccursAt(line, CONTENT_LENGTH, j);
      } else if j <= |line| {
        assert m[|line|] == m[j..j + 16][|line| - j];
        assert CONTENT_LENGTH[|line| - j] != '\r';
      } else {
        assert m[j] == m[|line|..at][1];
        OccursWithFirst(m, CONTENT_LENGTH, j);
      }
    }
    StrStrIs(m, CONTENT_LENGTH, 0, at);
  }

  lemma BreaksFound(m: string, line: string, digits: string, body: string)
    requires Laid(m, line, digits, body) && '\r' !in line && '\r' !in digits
    ensures var end := |line| + 18 + |digits|;
            StrStr(m, CRLF, |line| + 2) == Some(end) && StrStr(m, BLANK_LINE, 0) == Some(end)
  {
    var end := |line| + 18 + |digits|;
    Returns(m, line, digits, body);
    BlankIsLineEnd(m, end);
    forall j | |line| + 2 <= j < end ensures !OccursAt(m, CRLF, j) {
      OccursWithFirst(m, CRLF, j);
    }
    forall j | 0 <= j < end ensures !OccursAt(m, BLANK_LINE, j) {
      BlankReturns(m, j);
    }
    StrStrIs(m, CRLF, |line| + 2, end);
    StrStrIs(m, BLANK_LINE, 0, end);
  }

  lemma PostNoNul(line: string, body: string)
    requires NoNul(line) && NoNul(body)
    ensures NoNul(PostOf(line, body))
  {
    var digits := Decimal(|body|);
    DecimalIsPlain(|body|);
    assert NoNul(CRLF) && NoNul(CONTENT_LENGTH) && NoNul(digits) && NoNul(BLANK_LINE);
    NoNulAppend(line, CRLF);
    NoNulAppend(line + CRLF, CONTENT_LENGTH);
    NoNulAppend(line + CRLF + CONTENT_LENGTH, digits);
    NoNulAppend(line + CRLF + CONTENT_LENGTH + digits, BLANK_LINE);
    NoNulAppend(line + CRLF + CONTENT_LENGTH + digits + BLANK_LINE, body);
  }

  lemma LengthRead(m: string, line: string, body: string)
    requires Laid(m, line, Decimal(|body|), body) && |body| < 10_000
    requires StrStr(m, CONTENT_LENGTH, 0) == Some(LengthAt(line))
    requires StrStr(m, CRLF, LengthAt(line)) == Some(LengthEnd(line, body))
    ensures ExpectedLength(m) == Some(|body|)
  {
    hide Decimal, ParseLongBounded, StrStr;
    DecimalIsPlain(|body|);
    DecimalLength(|body|);
    DecimalRoundTrip(|body|, 0, LONG_MAX);
  }

  /** Every body without NUL that fits the buffer with its request line can be posted. */
  lemma PostIsWhole(line: string, body: string)
    requires RequestLine(line) && NoNul(body) && |line| + |body| + 28 < BUFFER_SIZE
    ensures var m, end := PostOf(line, body), LengthEnd(line, body);
            WholePost(m, LengthAt(line), end, end) && end + 4 <= |m| && m[end + 4..] == body
  {
    hide StrStr, Decimal, ExpectedLength, StartsWith;
    var m, digits := PostOf(line, body), Decimal(|body|);
    PostLaid(line, body);
    DecimalIsPlain(|body|);
    DecimalLength(|body|);
    assert '\r' !in digits;
    LengthFound(m, line, digits, body);
    BreaksFound(m, line, digits, body);
    LengthRead(m, line, body);
    PostNoNul(line, body);
    StartsLikeLine(m, line, POST);
  }

  lemma StartsLikeLine(m: string, line: string, prefix: string)
    requires |line| <= |m| && m[..|line|] == line && StartsWith(line, prefix)
    ensures StartsWith(m, prefix)
  {
    assert m[..|prefix|] == line[..|prefix|];
  }

  /** Cut in two inside the announced length, each such POST closes its connection. */
  lemma BadCutCloses(line: string, body: string, c: nat)
    requires RequestLine(line) && NoNul(body) && |line| + |body| + 28 < BUFFER_SIZE
    requires LengthAt(line) + 16 <= c < LengthEnd(line, body) + 2
    ensures c <= |PostOf(line, body)|
    ensures var m := PostOf(line, body); Verdicts(Judge, "", [m[..c], m[c..]]) == [Reject]
  {
    hide WholePost, Judge, PostOf, RequestLine;
    var m, at, end := PostOf(line, body), LengthAt(line), LengthEnd(line, body);
    PostIsWhole(line, body);
    var segments := [m[..c], m[c..]];
    TwoParts(m, c);
    SegmentationIsIrrelevant(m, at, end, end, segments);
    assert FirstBadCut(at, end, 0, segments) == 0;
    var vs := Verdicts(Judge, "", segments);
    assert vs == [vs[0]];
  }

  lemma TwoParts(m: string, c: nat)
    requires c <= |m|
    ensures Concat([m[..c], m[c..]]) == m
  {
    var a, b := m[..c], m[c..];
    assert [a, b][1..] == [b] && [b][1..] == [];
    assert Concat([b]) == b + "" == b;
    assert a + b == m;
  }
}
