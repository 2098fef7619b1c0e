/** The portal's TCP callbacks in src/wifi.c on the server state they update. */
module TcpServer {
  import opened Bytes
  import opened CStrings
  import opened FlashConfig
  import opened FormMeaning
  import opened FormParser
  import opened HttpAnswers
  import opened HttpRequest
  import opened Numbers
  import Pools = ConnectionPool
  import opened ConnectionPool

  /** tcp_connect_state_t; `attached` is a non-null server_state. */
  datatype Connection = Connection(pcb: Option<nat>, sentLen: int, headers: string,
                                   headerLen: int, resultLen: int, attached: bool)

  const CLEARED := Connection(None, 0, "", 0, 0, false)

  datatype Response = Nothing | Closed(err: ErrT) | BadRequest | Saved | SaveFailed | PageSent | Redirected

  /** The configuration a POST starts from: the running one, or the defaults. */
  function Base(flashConfig: Option<Config>): Config {
    if flashConfig.Some? then flashConfig.value else DEFAULTS
  }

  /** What a verdict makes store_config store. */
  function StoredFor(base: Config, v: Verdict): seq<Config>
    requires Sized(base)
  {
    if v.Form? && ApplyForm(base, v.body).Some? then [ApplyForm(base, v.body).value] else []
  }

  function StoredForAll(base: Config, vs: seq<Verdict>): seq<Config>
    requires Sized(base)
  {
    if vs == [] then [] else StoredFor(base, vs[0]) + StoredForAll(base, vs[1..])
  }

  lemma {:induction false} OnlyTheLastStores(base: Config, vs: seq<Verdict>, n: nat, last: Verdict)
    requires Sized(base) && WaitsThen(vs, n, last)
    ensures StoredForAll(base, vs) == StoredFor(base, last)
    decreases n
  {
    if n == 0 {
      assert vs[1..] == [];
    } else {
      OnlyTheLastStores(base, vs[1..], n - 1, last);
    }
  }

  /** A whole POST stores at most one configuration, on its last segment, and the same one however it was
      cut; a cut inside the Content-Length value stores nothing. */
  lemma PostStoresOnce(base: Config, m: string, at: nat, end: nat, blank: nat, segments: seq<string>)
    requires Sized(base) && WholePost(m, at, end, blank) && Concat(segments) == m
    requires forall i :: 0 <= i < |segments| ==> segments[i] != ""
    ensures blank + 4 <= |m|
    ensures var vs := Verdicts(Judge, "", segments); var stored := StoredForAll(base, vs);
            && (forall i :: 0 <= i < |vs| - 1 ==> StoredFor(base, vs[i]) == [])
            && stored == if FirstBadCut(at, end, 0, segments) < |segments| then []
                         else StoredFor(base, Form(m[blank + 4..]))
  {
    SegmentationIsIrrelevant(m, at, end, blank, segments);
    var vs, k := Verdicts(Judge, "", segments), FirstBadCut(at, end, 0, segments);
    if k < |segments| {
      OnlyTheLastStores(base, vs, k, Reject);
    } else {
      OnlyTheLastStores(base, vs, |segments| - 1, Form(m[blank + 4..]));
    }
  }

  // ----- who called store_config -----

  /** A call of store_config, and the slot of the connection whose callback made it. */
  datatype StoreCall = StoreCall(slot: nat, config: Config)

  function Calls(slot: nat, configs: seq<Config>): seq<StoreCall> {
    if configs == [] then [] else [StoreCall(slot, configs[0])] + Calls(slot, configs[1..])
  }

  /** What the callbacks of one slot have stored. */
  function MadeBy(calls: seq<StoreCall>, slot: nat): seq<Config> {
    if calls == [] then [] else Own(calls[0], slot) + MadeBy(calls[1..], slot)
  }

  function Own(call: StoreCall, slot: nat): seq<Config> {
    if call.slot == slot then [call.config] else []
  }

  lemma {:induction false} MadeByAppend(a: seq<StoreCall>, b: seq<StoreCall>, slot: nat)
    ensures MadeBy(a + b, slot) == MadeBy(a, slot) + MadeBy(b, slot)
  {
    hide Own;
    if a == [] {
      assert a + b == b;
    } else {
      assert (a + b)[1..] == a[1..] + b;
      MadeByAppend(a[1..], b, slot);
      Assoc(Own(a[0], slot), MadeBy(a[1..], slot), MadeBy(b, slot));
    }
  }

  lemma {:induction false} MadeByCalls(owner: nat, configs: seq<Config>, slot: nat)
    ensures MadeBy(Calls(owner, configs), slot) == if owner == slot then configs else []
  {
    if configs != [] {
      MadeByCalls(owner, configs[1..], slot);
      assert Calls(owner, configs)[1..] == Calls(owner, configs[1..]);
    }
  }

  /** After callbacks of slot `owner`. */
  lemma MadeByMore(calls: seq<StoreCall>, owner: nat, configs: seq<Config>, slot: nat)
    ensures MadeBy(calls + Calls(owner, configs), slot)
            == MadeBy(calls, slot) + if owner == slot then configs else []
  {
    MadeByAppend(calls, Calls(owner, configs), slot);
    MadeByCalls(owner, configs, slot);
  }

  // ----- the server -----

  /** What lwIP can call: a client arrives, or something happens to the connection in a slot. */
  datatype Callback =
    | Arrived(pcb: Option<nat>, failed: bool)
    | Received(slot: nat, p: Option<string>, storeOk: bool, closeFails: bool)
    | Acknowledged(slot: nat, len: nat, closeFails: bool)
    | Polled(slot: nat, closeFails: bool)
    | Failed(slot: nat)

  predicate Concerns(c: Callback, i: nat) {
    !c.Arrived? && c.slot == i
  }

  class Server {
    var activeConnections: int
    const connections: array<Connection>
    const flashConfig: Option<Config>
    // the texts of the two replies to GET, and the expanded page
    const okHeader: string
    const redirectHeader: string
    const page: string
    var complete: bool
    // the calls of store_config so far
    var stored: seq<StoreCall>

    /** A slot holds a connection exactly while its callbacks are registered; requests fit their buffer. */
    ghost predicate Valid()
      reads this, connections
    {
      && connections.Length == MAX_CONNECTIONS
      && (forall i :: 0 <= i < MAX_CONNECTIONS ==>
            && (connections[i].attached <==> connections[i].pcb.Some?)
            && |connections[i].headers| < BUFFER_SIZE && NoNul(connections[i].headers))
      && NoNul(okHeader) && NoNul(redirectHeader)
      && Sized(Base(flashConfig))
      && Consistent(PoolOf())
    }

    ghost function PoolOf(): Pool
      requires connections.Length == MAX_CONNECTIONS
      reads this, connections
    {
      Pool(activeConnections,
           seq(MAX_CONNECTIONS, i requires 0 <= i < MAX_CONNECTIONS reads this, connections =>
             connections[i].pcb.Some?))
    }

    /** `gw` is the access point's address in text. */
    constructor (flashConfig: Option<Config>, gw: string, page: string)
      requires Sized(Base(flashConfig)) && NoNul(gw)
      ensures Valid() && fresh(connections) && PoolOf() == EMPTY && !complete && stored == []
      ensures this.flashConfig == flashConfig && this.page == page
      ensures okHeader == OkHeader() && redirectHeader == RedirectHeader(gw)
    {
      HeadersNoNul(gw);
      activeConnections := 0;
      connections := new Connection[MAX_CONNECTIONS](i => CLEARED);
      this.flashConfig := flashConfig;
      okHeader, redirectHeader, this.page := OkHeader(), RedirectHeader(gw), page;
      complete, stored := false, [];
      new;
      assert PoolOf().taken == [false, false, false, false];
    }

    /** tcp_server_accept */
    method AcceptClient(pcb: Option<nat>, failed: bool) returns (r: ErrT)
      requires Valid()
      modifies this`activeConnections, connections
      ensures Valid() && r != ErrMem
      ensures (PoolOf(), r) == Pools.Step(old(PoolOf()), Accept(!failed && pcb.Some?))
      ensures r == ErrOk ==>
                var i := FirstFree(old(PoolOf()).taken);
                connections[..] == old(connections[..])[i := Connection(pcb, 0, "", 0, 0, true)]
      ensures r != ErrOk ==> connections[..] == old(connections[..])
    {
      ghost var p := PoolOf();
      StepConsistent(p, Accept(!failed && pcb.Some?));
      if failed || pcb.None? {
        return ErrVal;
      }
      activeConnections := activeConnections + 1;
      if activeConnections > MAX_CONNECTIONS {
        activeConnections := activeConnections - 1;
        return ErrAbrt;
      }
      var i := 0;
      while i < MAX_CONNECTIONS && connections[i].pcb.Some?
        invariant i <= MAX_CONNECTIONS && forall j :: 0 <= j < i ==> p.taken[j]
      {
        i := i + 1;
      }
      assert i < MAX_CONNECTIONS ==> !p.taken[i];
      assert i == FirstFree(p.taken);
      if i == MAX_CONNECTIONS {
        return ErrMem;
      }
      connections[i] := CLEARED;
      connections[i] := connections[i].(attached := true, pcb := pcb);
      assert PoolOf().taken == p.taken[i := true];
      return ErrOk;
    }

    /** tcp_close_client_connection for the connection in slot `i`; without a pcb when it is already gone. */
    method CloseClient(i: nat, pcb: Option<nat>, closeErr: ErrT, closeFails: bool) returns (r: ErrT)
      requires Valid() && i < MAX_CONNECTIONS && connections[i].attached
      modifies this`activeConnections, connections
      ensures Valid() && PoolOf() == Pools.Step(old(PoolOf()), Close(i)).0
      ensures connections[..] == old(connections[..])[i := CLEARED]
      ensures r == if pcb.Some? && closeFails then ErrAbrt else closeErr
    {
      ghost var p := PoolOf();
      assert p.taken[i];
      StepConsistent(p, Close(i));
      r := closeErr;
      if connections[i].attached {
        activeConnections := activeConnections - 1;
      }
      if pcb.Some? && closeFails {
        r := ErrAbrt;
      }
      connections[i] := CLEARED;
      assert PoolOf().taken == p.taken[i := false];
    }

    /** tcp_server_sent; true when the connection was closed. */
    method ClientSent(i: nat, len: nat, closeFails: bool) returns (closed: bool)
      requires Valid() && i < MAX_CONNECTIONS && connections[i].attached
      modifies this`activeConnections, connections
      ensures Valid()
      ensures closed <==> old(connections[i].sentLen) + len >= old(connections[i].headerLen + connections[i].resultLen)
      ensures PoolOf() == if closed then Pools.Step(old(PoolOf()), Close(i)).0 else old(PoolOf())
      ensures var c := old(connections[i]);
              connections[..] == old(connections[..])[i := if closed then CLEARED else c.(sentLen := c.sentLen + len)]
    {
      ghost var p := PoolOf();
      connections[i] := connections[i].(sentLen := connections[i].sentLen + len);
      assert PoolOf().taken == p.taken;
      if connections[i].sentLen >= connections[i].headerLen + connections[i].resultLen {
        var _ := CloseClient(i, connections[i].pcb, ErrOk, closeFails);
        return true;
      }
      return false;
    }

    /** tcp_server_poll: an idle connection is closed. */
    method ClientPoll(i: nat, closeFails: bool) returns (r: ErrT)
      requires Valid() && i < MAX_CONNECTIONS && connections[i].attached
      modifies this`activeConnections, connections
      ensures Valid() && PoolOf() == Pools.Step(old(PoolOf()), Close(i)).0
      ensures connections[..] == old(connections[..])[i := CLEARED]
    {
      r := CloseClient(i, connections[i].pcb, ErrOk, closeFails);
    }

    /** tcp_server_err: the pcb is gone already. */
    method ClientErr(i: nat)
      requires Valid() && i < MAX_CONNECTIONS && connections[i].attached
      modifies this`activeConnections, connections
      ensures Valid() && PoolOf() == Pools.Step(old(PoolOf()), Close(i)).0
      ensures connections[..] == old(connections[..])[i := CLEARED]
    {
      var _ := CloseClient(i, None, ErrVal, false);
    }

    /** Route A of tcp_server_recv: the form in a complete POST. */
    method SubmitForm(i: nat, formBody: string, storeOk: bool) returns (r: Response)
      requires Valid() && NoNul(formBody) && |formBody| < BUFFER_SIZE
      modifies this`complete, this`stored
      ensures Valid() && PoolOf() == old(PoolOf())
      ensures stored == old(stored) + Calls(i, StoredFor(Base(flashConfig), Form(formBody)))
      ensures r == if ApplyForm(Base(flashConfig), formBody).None? then BadRequest
                   else if storeOk then Saved else SaveFailed
      ensures complete == (old(complete) || r == Saved)
      ensures r == BadRequest <==> HasBadNumber(formBody)
      ensures HasBadNumber(formBody) ==> stored == old(stored)
    {
      RefusedExactly(Base(flashConfig), formBody);
      ghost var p := PoolOf();
      var body := new char[BUFFER_SIZE];
      forall k | 0 <= k < |formBody| {
        body[k] := formBody[k];
      }
      body[|formBody|] := NUL;
      assert body[..|formBody|] == formBody;
      var config := ParseForm(body, |formBody|, Base(flashConfig));
      if config.None? {
        assert PoolOf().taken == p.taken;
        return BadRequest;
      }
      stored := stored + [StoreCall(i, config.value)];
      assert [config.value][1..] == [];
      complete := complete || storeOk;
      assert PoolOf().taken == p.taken;
      return if storeOk then Saved else SaveFailed;
    }

    predicate Sendable(header: string) {
      0 < |header| < BUFFER_SIZE
    }

    /** What tcp_server_recv answers once the request reads `h`. */
    ghost function Reaction(h: string, storeOk: bool, closeFails: bool): Response
      requires Sized(Base(flashConfig))
    {
      match Judge(h)
      case Wait => Nothing
      case Reject => Closed(if closeFails then ErrAbrt else ErrVal)
      case Form(body) =>
        if ApplyForm(Base(flashConfig), body).None? then BadRequest else if storeOk then Saved else SaveFailed
      case Page => if Sendable(okHeader) then PageSent else Closed(if closeFails then ErrAbrt else ErrMem)
      case Redirect => if Sendable(redirectHeader) then Redirected else Closed(if closeFails then ErrAbrt else ErrMem)
    }

    /** The slot afterwards: a reply to a GET overwrites the request in its buffer. */
    ghost function SlotAfter(c: Connection, h: string, r: Response): Connection {
      match r
      case Closed(_) => CLEARED
      case PageSent => c.(headers := okHeader, headerLen := |okHeader|, resultLen := |page|)
      case Redirected => c.(headers := redirectHeader, headerLen := |redirectHeader|)
      case _ => c.(headers := h)
    }

    /** tcp_server_recv on the connection in slot `i`. A missing buffer means the client closed. Only a
        complete POST stores anything; the slot is freed exactly when the connection is closed. */
    method ClientRecv(i: nat, p: Option<string>, storeOk: bool, closeFails: bool) returns (r: Response)
      requires Valid() && i < MAX_CONNECTIONS && connections[i].attached
      modifies this`activeConnections, this`complete, this`stored, connections
      ensures Valid()
      ensures p.None? ==> r == Closed(if old(connections[i]).pcb.Some? && closeFails then ErrAbrt else ErrOk)
                          && stored == old(stored) && connections[..] == old(connections[..])[i := CLEARED]
      ensures p.Some? ==>
                var h := Append(old(connections[i]).headers, p.value);
                && r == Reaction(h, storeOk, closeFails)
                && stored == old(stored) + Calls(i, StoredFor(Base(flashConfig), Judge(h)))
                && connections[..] == old(connections[..])[i := SlotAfter(old(connections[i]), h, r)]
      ensures complete == (old(complete) || r == Saved)
      ensures complete == (old(complete) || (storeOk && stored != old(stored)))
      ensures PoolOf() == if r.Closed? then Pools.Step(old(PoolOf()), Close(i)).0 else old(PoolOf())
    {
      hide Judge, Append, ApplyForm, Pools.Step;
      if p.None? {
        var err := CloseClient(i, connections[i].pcb, ErrOk, closeFails);
        return Closed(err);
      }
      StoreSegment(i, p.value);
      var request := connections[i].headers;
      var verdict := JudgeRequest(request);
      if verdict == Wait {
        return Nothing;
      } else if verdict == Reject {
        var err := CloseClient(i, connections[i].pcb, ErrVal, closeFails);
        return Closed(err);
      } else if verdict.Form? {
        r := SubmitForm(i, verdict.body, storeOk);
      } else if verdict == Page {
        r := AnswerGet(i, okHeader, |page|, PageSent, closeFails);
      } else {
        r := AnswerGet(i, redirectHeader, connections[i].resultLen, Redirected, closeFails);
      }
    }

    /** Appending what fits; an empty buffer changes nothing. */
    method StoreSegment(i: nat, segment: string)
      requires Valid() && i < MAX_CONNECTIONS && connections[i].attached
      modifies connections
      ensures Valid() && PoolOf() == old(PoolOf())
      ensures var c := old(connections[i]);
              connections[..] == old(connections[..])[i := c.(headers := Append(c.headers, segment))]
    {
      ghost var p := PoolOf();
      if |segment| > 0 {
        var current := connections[i].headers;
        connections[i] := connections[i].(headers := Append(current, segment));
      } else {
        assert connections[i].headers + segment == connections[i].headers;
      }
      assert PoolOf().taken == p.taken;
    }

    /** The checks on the request, in the code's order. */
    method JudgeRequest(request: string) returns (v: Verdict)
      requires NoNul(request) && |request| < BUFFER_SIZE
      ensures v == Judge(request)
      ensures v.Form? ==> NoNul(v.body) && |v.body| < BUFFER_SIZE
    {
      if StartsWith(request, POST) {
        var expected := 0;
        var at := StrStr(request, CONTENT_LENGTH, 0);
        if at.Some? {
          var lineEnd := StrStr(request, CRLF, at.value);
          if lineEnd.None? {
            return Reject;
          }
          LineEndBehind(request, at.value);
          var rawLen := lineEnd.value - (at.value + 16);
          if rawLen == 0 || rawLen >= LENGTH_BUFFER {
            return Reject;
          }
          var parsed := ParseLongBounded(request[at.value + 16..lineEnd.value], 0, LONG_MAX);
          if parsed.None? {
            return Reject;
          }
          expected := parsed.value;
        }
        var body := StrStr(request, BLANK_LINE, 0);
        if body.None? || |request| - (body.value + 4) < expected {
          return Wait;
        }
        return Form(request[body.value + 4..]);
      }
      if StrStr(request, CRLF, 0).None? {
        return Wait;
      }
      return if WantsPage(request) then Page else Redirect;
    }

    /** Routes B and C: the reply's header replaces the request in the buffer. */
    method AnswerGet(i: nat, header: string, resultLen: int, sent: Response, closeFails: bool) returns (r: Response)
      requires Valid() && i < MAX_CONNECTIONS && connections[i].attached && NoNul(header)
      modifies this`activeConnections, connections
      ensures Valid()
      ensures r == if Sendable(header) then sent
                   else Closed(if old(connections[i]).pcb.Some? && closeFails then ErrAbrt else ErrMem)
      ensures var replied := old(connections[i]).(headers := header, headerLen := |header|, resultLen := resultLen);
              connections[..] == old(connections[..])[i := if Sendable(header) then replied else CLEARED]
      ensures PoolOf() == if Sendable(header) then old(PoolOf()) else Pools.Step(old(PoolOf()), Close(i)).0
    {
      ghost var p := PoolOf();
      if |header| == 0 || |header| >= BUFFER_SIZE {
        var err := CloseClient(i, connections[i].pcb, ErrMem, closeFails);
        return Closed(err);
      }
      connections[i] := connections[i].(headers := header, headerLen := |header|, resultLen := resultLen);
      assert PoolOf().taken == p.taken;
      return sent;
    }

    // ----- a whole GET, from its first byte to the last acknowledgement -----

    /** The client acknowledges the reply bit by bit. */
    method Acknowledge(i: nat, lens: seq<nat>, closeFails: bool) returns (closed: bool)
      requires Valid() && i < MAX_CONNECTIONS && connections[i].attached
      modifies this`activeConnections, connections
      ensures Valid()
      ensures var c := old(connections[i]);
              closed <==> lens != [] && c.sentLen + Total(lens) >= c.headerLen + c.resultLen
      ensures if closed then connections[i] == CLEARED else connections[i].attached
    {
      var k := 0;
      while k < |lens|
        invariant k <= |lens| && Valid() && connections[i].attached
        invariant connections[i].headerLen == old(connections[i].headerLen)
        invariant connections[i].resultLen == old(connections[i].resultLen)
        invariant connections[i].sentLen == old(connections[i].sentLen) + Total(lens[..k])
        invariant k > 0 ==> connections[i].sentLen < connections[i].headerLen + connections[i].resultLen
      {
        TotalUpTo(lens, k);
        var done := ClientSent(i, lens[k], closeFails);
        if done {
          return true;
        }
        k := k + 1;
      }
      assert lens[..k] == lens;
      return false;
    }

    /** On a new connection a request for the page is answered with it, any other GET by the redirect; the
        connection is then closed exactly when the client has acknowledged the header and, for the page, all of
        it. */
    method GetOnce(i: nat, request: string, lens: seq<nat>, storeOk: bool, closeFails: bool)
        returns (r: Response, closed: bool)
      requires Valid() && i < MAX_CONNECTIONS && connections[i].attached && connections[i].headers == ""
      requires connections[i].sentLen == 0 && connections[i].resultLen == 0
      requires NoNul(request) && |request| <= 8_191 && !Begins(request, "POST ")
      requires exists k: nat :: OccursAt(request, "\r\n", k)
      requires Sendable(okHeader) && Sendable(redirectHeader)
      modifies this`activeConnections, this`complete, this`stored, connections
      ensures Valid() && stored == old(stored)
      ensures r == if Begins(request, "GET /clock-config") || Begins(request, "GET / ") then PageSent else Redirected
      ensures closed <==> lens != [] && Total(lens) >= if r == PageSent then |okHeader| + |page| else |redirectHeader|
    {
      hide Judge, Append, Begins, ApplyForm, Pools.Step;
      AppendTakes("", request);
      assert "" + request == request;
      GetMeaning(request);
      r := ClientRecv(i, Some(request), storeOk, closeFails);
      closed := Acknowledge(i, lens, closeFails);
    }

    // ----- a POST among the callbacks of the other slots -----

    /** A callback that concerns other slots leaves slot `i` and what it has stored alone. Callbacks are
        registered only while a connection lasts. */
    method HandleOther(c: Callback, ghost i: nat)
      requires Valid() && i < MAX_CONNECTIONS && connections[i].attached && !Concerns(c, i)
      modifies this`activeConnections, this`complete, this`stored, connections
      ensures Valid() && connections[i] == old(connections[i]) && MadeBy(stored, i) == MadeBy(old(stored), i)
    {
      hide Judge, ApplyForm, Pools.Step;
      if c.Arrived? {
        assert PoolOf().taken[i];
        var _ := AcceptClient(c.pcb, c.failed);
      } else if c.slot < MAX_CONNECTIONS && connections[c.slot].attached {
        match c
        case Received(slot, p, storeOk, closeFails) =>
          ghost var h := Append(connections[slot].headers, if p.Some? then p.value else "");
          ghost var configs := if p.Some? then StoredFor(Base(flashConfig), Judge(h)) else [];
          var _ := ClientRecv(slot, p, storeOk, closeFails);
          assert stored == old(stored) + Calls(slot, configs);
          MadeByMore(old(stored), slot, configs, i);
        case Acknowledged(slot, len, closeFails) => var _ := ClientSent(slot, len, closeFails);
        case Polled(slot, closeFails) => var _ := ClientPoll(slot, closeFails);
        case Failed(slot) => ClientErr(slot);
      }
    }

    method HandleOthers(cs: seq<Callback>, ghost i: nat)
      requires Valid() && i < MAX_CONNECTIONS && connections[i].attached
      requires forall k :: 0 <= k < |cs| ==> !Concerns(cs[k], i)
      modifies this`activeConnections, this`complete, this`stored, connections
      ensures Valid() && connections[i] == old(connections[i]) && MadeBy(stored, i) == MadeBy(old(stored), i)
    {
      for k := 0 to |cs|
        invariant Valid() && connections[i] == old(connections[i]) && MadeBy(stored, i) == MadeBy(old(stored), i)
      {
        HandleOther(cs[k], i);
      }
    }

    /** Callbacks of other slots, then a segment for slot `i` that does not complete a GET. */
    method ReceiveOne(i: nat, segment: string, others: seq<Callback>, storeOk: bool, closeFails: bool)
        returns (closed: bool)
      requires Valid() && i < MAX_CONNECTIONS && connections[i].attached
      requires forall k :: 0 <= k < |others| ==> !Concerns(others[k], i)
      requires NoReply(Judge(Append(connections[i].headers, segment)))
      modifies this`activeConnections, this`complete, this`stored, connections
      ensures Valid()
      ensures var h := Append(old(connections[i].headers), segment);
              && MadeBy(stored, i) == MadeBy(old(stored), i) + StoredFor(Base(flashConfig), Judge(h))
              && (closed <==> Judge(h) == Reject)
              && if closed then connections[i] == CLEARED else connections[i].attached && connections[i].headers == h
    {
      hide Judge, Append, ApplyForm, Pools.Step, MadeBy, StoredFor;
      HandleOthers(others, i);
      ghost var before, h := stored, Append(connections[i].headers, segment);
      var r := ClientRecv(i, Some(segment), storeOk, closeFails);
      MadeByMore(before, i, StoredFor(Base(flashConfig), Judge(h)), i);
      closed := r.Closed?;
    }

    /** The segments of one request arrive at slot `i`, any callbacks of other slots in front of each: what
        slot `i` stores is what the verdicts on its own segments make it store. */
    method ReceiveAll(i: nat, segments: seq<string>, between: seq<seq<Callback>>, storeOk: bool, closeFails: bool)
        returns (closed: bool)
      requires Valid() && i < MAX_CONNECTIONS && connections[i].attached && Others(between, i)
      requires |between| == |segments| && Collects(Verdicts(Judge, connections[i].headers, segments))
      modifies this`activeConnections, this`complete, this`stored, connections
      ensures Valid()
      ensures var vs := Verdicts(Judge, old(connections[i].headers), segments);
              && MadeBy(stored, i) == MadeBy(old(stored), i) + StoredForAll(Base(flashConfig), vs)
              && (closed <==> Reject in vs)
      ensures if closed then connections[i] == CLEARED else connections[i].attached
    {
      hide Judge, Append, ApplyForm, MadeBy, StoredFor, StoredForAll, Verdicts, Collects;
      ghost var base, vs := Base(flashConfig), Verdicts(Judge, connections[i].headers, segments);
      ghost var all := MadeBy(stored, i) + StoredForAll(base, vs);
      assert segments[0..] == segments;
      for k := 0 to |segments|
        invariant Valid() && connections[i].attached
        invariant var left := Verdicts(Judge, connections[i].headers, segments[k..]);
                  && Collects(left) && (Reject in left <==> Reject in vs)
                  && MadeBy(stored, i) + StoredForAll(base, left) == all
      {
        FirstVerdict(base, connections[i].headers, segments[k..]);
        assert segments[k..][1..] == segments[k + 1..];
        closed := ReceiveOne(i, segments[k], between[k], storeOk, closeFails);
        if closed {
          return;
        }
      }
      NoVerdicts(base, connections[i].headers);
      assert segments[|segments|..] == [];
      return false;
    }

    /** A whole POST arrives at a new connection in slot `i`, cut into segments among any callbacks of other
        slots: slot `i` stores the form once if it is accepted, however the POST is cut, unless a cut inside
        the Content-Length value closes the connection. */
    method ReceivePost(i: nat, segments: seq<string>, between: seq<seq<Callback>>, storeOk: bool, closeFails: bool,
                       ghost m: string, ghost at: nat, ghost end: nat, ghost blank: nat)
        returns (closed: bool)
      requires Valid() && i < MAX_CONNECTIONS && connections[i].attached && connections[i].headers == ""
      requires |between| == |segments| && Others(between, i)
      requires WholePost(m, at, end, blank) && Concat(segments) == m
      requires forall k :: 0 <= k < |segments| ==> segments[k] != ""
      modifies this`activeConnections, this`complete, this`stored, connections
      ensures Valid() && blank + 4 <= |m|
      ensures closed <==> FirstBadCut(at, end, 0, segments) < |segments|
      ensures MadeBy(stored, i) == MadeBy(old(stored), i)
                                   + if closed then [] else StoredFor(Base(flashConfig), Form(m[blank + 4..]))
      ensures HasBadNumber(m[blank + 4..]) ==> MadeBy(stored, i) == MadeBy(old(stored), i)
    {
      RefusedStoresNothing(Base(flashConfig), m[blank + 4..]);
      hide Judge, ApplyForm, MadeBy, StoredFor, StoredForAll, Verdicts, FirstBadCut, WholePost;
      PostStoresOnce(Base(flashConfig), m, at, end, blank, segments);
      PostCollects(m, at, end, blank, segments);
      closed := ReceiveAll(i, segments, between, storeOk, closeFails);
    }
  }

  lemma RefusedStoresNothing(base: Config, body: string)
    requires Sized(base)
    ensures HasBadNumber(body) <==> StoredFor(base, Form(body)) == []
  {
    RefusedExactly(base, body);
  }

  lemma PostCollects(m: string, at: nat, end: nat, blank: nat, segments: seq<string>)
    requires WholePost(m, at, end, blank) && Concat(segments) == m
    requires forall k :: 0 <= k < |segments| ==> segments[k] != ""
    ensures var vs := Verdicts(Judge, "", segments);
            Collects(vs) && (Reject in vs <==> FirstBadCut(at, end, 0, segments) < |segments|)
  {
    hide Judge, Verdicts, FirstBadCut, WholePost, WaitsThen, Collects;
    SegmentationIsIrrelevant(m, at, end, blank, segments);
    var vs, k := Verdicts(Judge, "", segments), FirstBadCut(at, end, 0, segments);
    if k < |segments| {
      WaitsCollect(vs, k, Reject);
    } else {
      WaitsCollect(vs, |segments| - 1, Form(m[blank + 4..]));
    }
  }

  lemma WaitsCollect(vs: seq<Verdict>, n: nat, last: Verdict)
    requires WaitsThen(vs, n, last) && NoReply(last)
    ensures Collects(vs) && (Reject in vs <==> last == Reject)
  {
    assert vs[n] == last;
  }

  function Total(lens: seq<nat>): nat {
    if lens == [] then 0 else Total(lens[..|lens| - 1]) + lens[|lens| - 1]
  }

  lemma {:induction false} TotalUpTo(lens: seq<nat>, k: nat)
    requires k < |lens|
    ensures Total(lens[..k + 1]) == Total(lens[..k]) + lens[k] && Total(lens[..k + 1]) <= Total(lens)
    decreases |lens|
  {
    var front := lens[..|lens| - 1];
    assert lens[..k + 1][..k] == lens[..k];
    if k + 1 < |lens| {
      TotalUpTo(front, k);
      assert front[..k + 1] == lens[..k + 1];
    } else {
      assert lens[..k + 1] == lens;
    }
  }

  predicate Others(between: seq<seq<Callback>>, i: nat) {
    forall k, l :: 0 <= k < |between| && 0 <= l < |between[k]| ==> !Concerns(between[k][l], i)
  }

  /** A GET is not answered, which would put the reply where the request was. */
  predicate NoReply(v: Verdict) {
    !v.Page? && !v.Redirect?
  }

  predicate Collects(vs: seq<Verdict>) {
    forall i :: 0 <= i < |vs| ==> NoReply(vs[i])
  }

  lemma FirstVerdict(base: Config, headers: string, segments: seq<string>)
    requires Sized(base) && |headers| < BUFFER_SIZE && segments != []
    ensures var h := Append(headers, segments[0]);
            var v, vs, rest := Judge(h), Verdicts(Judge, headers, segments), Verdicts(Judge, h, segments[1..]);
            && StoredForAll(base, vs) == StoredFor(base, v) + (if v == Reject then [] else StoredForAll(base, rest))
            && (Reject in vs <==> v == Reject || Reject in rest)
            && (Collects(vs) ==> NoReply(v) && (v != Reject ==> Collects(rest)))
  {
    hide Judge, Append, StoredFor;
    var h := Append(headers, segments[0]);
    var v, vs, rest := Judge(h), Verdicts(Judge, headers, segments), Verdicts(Judge, h, segments[1..]);
    assert vs[0] == v;
    if v == Reject {
      assert vs[1..] == [];
    } else {
      assert vs == [v] + rest && vs[1..] == rest;
    }
  }

  lemma NoVerdicts(base: Config, headers: string)
    requires Sized(base) && |headers| < BUFFER_SIZE
    ensures Verdicts(Judge, headers, []) == [] && StoredForAll(base, []) == []
  {
  }
}
