/** The bookkeeping of the portal's connection slots in src/wifi.c: tcp_server_accept and
    tcp_close_client_connection keep a counter beside the slots it counts. */
module ConnectionPool {
  import opened Bytes

  const MAX_CONNECTIONS := 4

  type Slots = s: seq<bool> | |s| == MAX_CONNECTIONS witness [false, false, false, false]

  /** The counter, and which slots hold a connection. */
  datatype Pool = Pool(active: int, taken: Slots)

  /** A client connects (validly or not), or the connection in a slot ends for whatever reason: all sent,
      closed by the client, refused, idle, or failed. */
  datatype Event = Accept(valid: bool) | Close(slot: nat)

  const EMPTY := Pool(0, [false, false, false, false])

  function FirstFree(taken: seq<bool>): (r: nat)
    ensures r <= |taken| && (r < |taken| ==> !taken[r]) && forall i :: 0 <= i < r ==> taken[i]
  {
    if taken == [] || !taken[0] then 0 else 1 + FirstFree(taken[1..])
  }

  /** tcp_server_accept for a client that arrived without error. */
  function AcceptValid(p: Pool): (Pool, ErrT) {
    if p.active + 1 > MAX_CONNECTIONS then (p, ErrAbrt)
    else
      var i := FirstFree(p.taken);
      if i == MAX_CONNECTIONS then (p.(active := p.active + 1), ErrMem)
      else (Pool(p.active + 1, p.taken[i := true]), ErrOk)
  }

  function Step(p: Pool, e: Event): (Pool, ErrT) {
    match e
    case Accept(valid) => if valid then AcceptValid(p) else (p, ErrVal)
    case Close(slot) =>
      // the callbacks that close a connection are registered only while it lasts
      if slot < MAX_CONNECTIONS && p.taken[slot]
      then (Pool(p.active - 1, p.taken[slot := false]), ErrOk)
      else (p, ErrOk)
  }

  ghost function PoolAt(events: seq<Event>, n: nat): Pool
    requires n <= |events|
  {
    if n == 0 then EMPTY else Step(PoolAt(events, n - 1), events[n - 1]).0
  }

  function Taken(taken: seq<bool>): nat {
    if taken == [] then 0 else (if taken[0] then 1 else 0) + Taken(taken[1..])
  }

  lemma {:induction false} TakenUpdate(taken: seq<bool>, i: nat, b: bool)
    requires i < |taken|
    ensures Taken(taken[i := b]) == Taken(taken) + (if b then 1 else 0) - (if taken[i] then 1 else 0)
  {
    if i > 0 {
      TakenUpdate(taken[1..], i - 1, b);
      assert taken[i := b][1..] == taken[1..][i - 1 := b];
    }
  }

  lemma {:induction false} TakenBound(taken: seq<bool>)
    ensures Taken(taken) <= |taken|
    ensures Taken(taken) == |taken| <==> FirstFree(taken) == |taken|
  {
    if taken != [] {
      TakenBound(taken[1..]);
    }
  }

  predicate Consistent(p: Pool) {
    p.active == Taken(p.taken)
  }

  lemma StepConsistent(p: Pool, e: Event)
    requires Consistent(p)
    ensures Consistent(Step(p, e).0) && 0 <= p.active <= MAX_CONNECTIONS
    ensures e.Accept? && e.valid ==> (Step(p, e).1 == ErrAbrt <==> forall i :: 0 <= i < MAX_CONNECTIONS ==> p.taken[i])
    ensures Step(p, e).1 != ErrMem
  {
    TakenBound(p.taken);
    var i := FirstFree(p.taken);
    if i < MAX_CONNECTIONS {
      TakenUpdate(p.taken, i, true);
    }
    if e.Close? && e.slot < MAX_CONNECTIONS {
      TakenUpdate(p.taken, e.slot, false);
    }
  }

  /** In every run from the empty server: the counter is the number of slots in use, at most 4; a valid
      client is turned away exactly when every slot is in use; and running out of slots although the
      counter allowed one more never happens. */
  lemma {:induction false} CounterIsExact(events: seq<Event>, n: nat)
    requires n <= |events|
    ensures var p := PoolAt(events, n);
            && p.active == Taken(p.taken) && 0 <= p.active <= 4 == |p.taken|
            && (n < |events| ==> Step(p, events[n]).1 != ErrMem)
            && (n < |events| && events[n] == Accept(true) ==>
                  (Step(p, events[n]).1 == ErrAbrt <==> forall i :: 0 <= i < MAX_CONNECTIONS ==> p.taken[i]))
  {
    if n > 0 {
      CounterIsExact(events, n - 1);
      StepConsistent(PoolAt(events, n - 1), events[n - 1]);
    }
    StepConsistent(PoolAt(events, n), if n < |events| then events[n] else Accept(false));
  }
}
