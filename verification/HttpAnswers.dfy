/** What each request is answered with, in its own characters. */
module HttpAnswers {
  import opened Bytes
  import opened CStrings
  import opened FormMeaning
  import opened HttpRequest
  import opened Numbers

  ghost predicate Begins(m: string, prefix: string) {
    exists rest :: m == prefix + rest
  }

  lemma BeginsIsStart(m: string, prefix: string)
    ensures Begins(m, prefix) <==> StartsWith(m, prefix)
  {
    if StartsWith(m, prefix) {
      assert m == prefix + m[|prefix|..];
    }
    forall rest | m == prefix + rest ensures StartsWith(m, prefix) {
      assert m[..|prefix|] == prefix;
    }
  }

  /** The first occurrence of `pat` from position `from` on is at `k`. */
  ghost predicate First(m: string, pat: string, from: nat, k: nat) {
    from <= k && OccursAt(m, pat, k) && forall j :: from <= j < k ==> !OccursAt(m, pat, j)
  }

  lemma FoundIsFirst(m: string, pat: string, from: nat)
    ensures forall k: nat :: StrStr(m, pat, from) == Some(k) <==> First(m, pat, from, k)
    ensures StrStr(m, pat, from).None? <==> forall k: nat :: !First(m, pat, from, k)
  {
    forall k: nat ensures StrStr(m, pat, from) == Some(k) <==> First(m, pat, from, k) {
      if First(m, pat, from, k) {
        StrStrIs(m, pat, from, k);
      }
    }
  }

  // ----- GET and everything else -----

  /** A request other than a POST waits for its first line break. Then it is answered with the page exactly if
      it begins with "GET /clock-config" or "GET / ", and by the redirect otherwise. */
  lemma GetMeaning(m: string)
    ensures !Begins(m, "POST ") ==>
              && (Judge(m) == Wait <==> forall k: nat :: !OccursAt(m, "\r\n", k))
              && (Judge(m) == Page <==> (exists k: nat :: OccursAt(m, "\r\n", k))
                                        && (Begins(m, "GET /clock-config") || Begins(m, "GET / ")))
              && (Judge(m) == Redirect <==> (exists k: nat :: OccursAt(m, "\r\n", k))
                                            && !Begins(m, "GET /clock-config") && !Begins(m, "GET / "))
  {
    hide Begins, StartsWith, StrStr, ExpectedLength;
    BeginsIsStart(m, "POST ");
    BeginsIsStart(m, "GET /clock-config");
    BeginsIsStart(m, "GET / ");
    assert forall k: nat :: OccursAt(m, CRLF, k) <==> OccursAt(m, "\r\n", k);
  }

  /** The header of the redirect, which names the access point's address `gw`. */
  function RedirectHeader(gw: string): string {
    "HTTP/1.1 302 Found\r\nLocation: http://" + gw + "/clock-config" + "\r\nConnection: close\r\n\r\n"
  }

  /** The redirect leads somewhere: asking for the path it names, with anything behind, gets the page. */
  lemma RedirectLeadsToPage(gw: string, path: string, rest: string)
    requires RedirectHeader(gw)
             == "HTTP/1.1 302 Found\r\nLocation: http://" + gw + path + "\r\nConnection: close\r\n\r\n"
    requires exists k: nat :: OccursAt("GET " + path + rest, "\r\n", k)
    ensures Judge("GET " + path + rest) == Page
  {
    hide Judge, Begins;
    SamePath("HTTP/1.1 302 Found\r\nLocation: http://" + gw, path, "\r\nConnection: close\r\n\r\n");
    var m := "GET " + path + rest;
    GetBegins(m, rest);
    GetMeaning(m);
  }

  lemma SamePath(head: string, path: string, tail: string)
    requires head + "/clock-config" + tail == head + path + tail
    ensures path == "/clock-config"
  {
    var a, b := head + "/clock-config" + tail, head + path + tail;
    assert |a| == |b|;
    assert a[|head|..|head| + 13] == "/clock-config" && b[|head|..|head| + 13] == path;
  }

  lemma GetBegins(m: string, rest: string)
    requires m == "GET " + "/clock-config" + rest
    ensures Begins(m, "GET /clock-config") && !Begins(m, "POST ")
  {
    assert m == "GET /clock-config" + rest;
    assert m[0] == 'G';
  }

  // ----- POST -----

  /** The request announces a body of `n` characters: none, or the number behind the first "Content-Length: ",
      in 1 to 15 characters before the line ends, cut down to the largest long. */
  ghost predicate Announces(m: string, n: int) {
    || (n == 0 && forall at: nat :: !First(m, "Content-Length: ", 0, at))
    || (exists at: nat, end: nat :: First(m, "Content-Length: ", 0, at) && First(m, "\r\n", at, end)
                                    && LengthIs(m, at + 16, end, n))
  }

  ghost predicate LengthIs(m: string, from: nat, end: nat, n: int) {
    && from < end < from + 16 && end <= |m|
    && exists v :: IsNumberOf(m[from..end], v) && v >= 0 && n == if v > 2_147_483_647 then 2_147_483_647 else v
  }

  lemma AnnouncedLength(m: string, n: int)
    ensures ExpectedLength(m) == Some(n) <==> Announces(m, n)
  {
    hide StrStr, IsNumberOf, ParseLongBounded, First;
    FoundIsFirst(m, "Content-Length: ", 0);
    var at := StrStr(m, CONTENT_LENGTH, 0);
    if at.Some? {
      FoundIsFirst(m, "\r\n", at.value);
      var end := StrStr(m, CRLF, at.value);
      if end.Some? {
        LineEndBehind(m, at.value);
        ParsedUpToLong(m[at.value + 16..end.value]);
      }
    }
  }

  /** `body` is what stands behind the first blank line. */
  ghost predicate HasBody(m: string, body: string) {
    exists blank: nat :: First(m, "\r\n\r\n", 0, blank) && body == m[blank + 4..]
  }

  lemma BodyFound(m: string)
    ensures var blank := StrStr(m, BLANK_LINE, 0);
            forall body :: HasBody(m, body) <==> blank.Some? && body == m[blank.value + 4..]
  {
    hide StrStr;
    FoundIsFirst(m, "\r\n\r\n", 0);
  }

  /** A POST closes its connection exactly if it announces no proper length; it yields its form exactly if as
      much as it announces stands behind the blank line; otherwise it waits. */
  lemma PostMeaning(m: string, body: string)
    ensures Begins(m, "POST ") ==>
              && (Judge(m) == Reject <==> forall n: int :: !Announces(m, n))
              && (Judge(m) == Form(body) <==> HasBody(m, body) && exists n: int :: Announces(m, n) && n <= |body|)
              && (Judge(m) == Wait <==> (exists n: int :: Announces(m, n))
                                        && forall n: int, b: string :: Announces(m, n) && HasBody(m, b) ==> |b| < n)
  {
    hide Begins, StartsWith, StrStr, ExpectedLength, Announces, HasBody;
    BeginsIsStart(m, "POST ");
    BodyFound(m);
    forall n: int ensures ExpectedLength(m) == Some(n) <==> Announces(m, n) {
      AnnouncedLength(m, n);
    }
    if ExpectedLength(m).Some? {
      assert Announces(m, ExpectedLength(m).value);
    }
  }

  /** The header in front of the page. */
  function OkHeader(): string {
    "HTTP/1.1 200 OK\r\n" + "Content-Type: text/html; charset=utf-8\r\n" + "Connection: close\r\n\r\n"
  }

  lemma HeadersNoNul(gw: string)
    requires NoNul(gw)
    ensures NoNul(OkHeader()) && NoNul(RedirectHeader(gw))
    ensures 0 < |OkHeader()| < BUFFER_SIZE && 0 < |RedirectHeader(gw)| <= |gw| + 78
  {
    var a, b, c := "HTTP/1.1 200 OK\r\n", "Content-Type: text/html; charset=utf-8\r\n", "Connection: close\r\n\r\n";
    assert NoNul(a) && NoNul(b) && NoNul(c);
    NoNulAppend(a, b);
    NoNulAppend(a + b, c);
    var d, e, f := "HTTP/1.1 302 Found\r\nLocation: http://", "/clock-config", "\r\nConnection: close\r\n\r\n";
    assert NoNul(d) && NoNul(e) && NoNul(f);
    NoNulAppend(d, gw);
    NoNulAppend(d + gw, e);
    NoNulAppend(d + gw + e, f);
  }
}
