/** The pool of client connections: many callers, each a small state machine whose steps are the
    critical sections of net/tcp_client.go, interleaved in any order. */
module TcpPool {
  import opened Bytes

  /** Who answers for a connection. Bookkeeping of the model: the program does not store it. */
  datatype Owner = InPool | Caller(k: nat) | Lost(k: nat) | Nobody

  /** `open` is the unset close flag, `used` is isOldConn, and `owed` counts the requests that were
      sent and whose caller is still to read the response. */
  datatype Sock = Sock(addr: string, open: bool, used: bool, owed: int, owner: Owner)

  /** Where a caller is; `left` counts the passes of the retry loop that are left, this one included. */
  datatype Stage =
    | Asking(left: nat)
    | Dialing(left: nat)
    | Ready(conn: nat, left: nat)
    | Sending(conn: nat, left: nat)
    | Receiving(conn: nat, left: nat)
    | Retrying(conn: nat, left: nat)
    | Ending(conn: nat, failed: bool)
    | Done(failed: bool)

  /** One request. `took` lists the connections it took from the pool or dialled, `gave` those it put
      into the pool, `lost` those it stopped referring to without closing them or putting them back. */
  datatype Call = Call(addr: string, oneWay: bool, at: Stage, took: seq<nat>, gave: seq<nat>, lost: seq<nat>)

  /** `entered` and `gone` log, per address, the connections that were put into and left the pool. */
  datatype State = State(
    limit: int, pool: map<string, seq<nat>>, socks: seq<Sock>, calls: seq<Call>,
    entered: map<string, seq<nat>>, gone: map<string, seq<nat>>)

  /** A connection attempt is refused, succeeds, or succeeds but cannot set keep-alive. */
  datatype Dialled = Refused | Connected | NoKeepAlive

  /** Sending or receiving succeeds, fails within 50 ms, or fails later. */
  datatype Outcome = Fine | Quick | Slow

  datatype Step =
    | Begin(addr: string, oneWay: bool)
    | Take(k: nat)
    | Dial(k: nat, how: Dialled)
    | Deadline(k: nat, ok: bool)
    | Send(k: nat, outcome: Outcome)
    | Receive(k: nat, outcome: Outcome)
    | Purge(k: nat)
    | Finish(k: nat)

  const TRIES: nat := 2

  predicate ByCall(e: Step, k: nat) {
    !e.Begin? && e.k == k
  }

  function At(m: map<string, seq<nat>>, a: string): seq<nat> {
    if a in m then m[a] else []
  }

  function Holds(c: Call): Option<nat> {
    match c.at
    case Ready(conn, _) => Some(conn)
    case Sending(conn, _) => Some(conn)
    case Receiving(conn, _) => Some(conn)
    case Retrying(conn, _) => Some(conn)
    case Ending(conn, _) => Some(conn)
    case _ => None
  }

  // ----- the steps -----

  predicate Can(s: State, e: Step) {
    e.Begin? || (
      e.k < |s.calls|
      && var at := s.calls[e.k].at;
      match e
      case Take(_) => at.Asking? && (var q := At(s.pool, s.calls[e.k].addr); q != [] ==> q[0] < |s.socks|)
      case Dial(_, _) => at.Dialing?
      case Deadline(_, _) => at.Ready? && at.conn < |s.socks|
      case Send(_, _) => at.Sending? && at.conn < |s.socks|
      case Receive(_, _) => at.Receiving? && at.conn < |s.socks|
      case Purge(_) => at.Retrying? && at.conn < |s.socks|
      case Finish(_) => at.Ending? && at.conn < |s.socks|)
  }

  function Close(socks: seq<Sock>, c: nat, owner: Owner): seq<Sock>
    requires c < |socks|
  {
    socks[c := socks[c].(open := false, owner := owner)]
  }

  function CloseEach(socks: seq<Sock>, q: seq<nat>): (r: seq<Sock>)
    ensures |r| == |socks|
    ensures forall i | 0 <= i < |r| :: r[i] == if i in q then socks[i].(open := false, owner := Nobody) else socks[i]
  {
    seq(|socks|, i requires 0 <= i < |socks| => if i in q then socks[i].(open := false, owner := Nobody) else socks[i])
  }

  function DoTake(s: State, k: nat): State
    requires Can(s, Take(k))
  {
    var call := s.calls[k];
    var a, q, n := call.addr, At(s.pool, call.addr), call.at.left;
    if q == [] then
      s.(calls := s.calls[k := call.(at := Dialing(n))])
    else
      s.(pool := s.pool[a := q[1..]],
         gone := s.gone[a := At(s.gone, a) + [q[0]]],
         socks := s.socks[q[0] := s.socks[q[0]].(owner := Caller(k))],
         calls := s.calls[k := call.(at := Ready(q[0], n), took := call.took + [q[0]])])
  }

  /** A connection that could not set keep-alive is returned together with the error: a request closes
      it at its end, a request without response returns at once and forgets it. */
  function DoDial(s: State, k: nat, how: Dialled): State
    requires Can(s, Dial(k, how))
  {
    var call, c := s.calls[k], |s.socks|;
    var took := call.took + [c];
    match how
    case Refused => s.(calls := s.calls[k := call.(at := Done(true))])
    case Connected =>
      s.(socks := s.socks + [Sock(call.addr, true, false, 0, Caller(k))],
         calls := s.calls[k := call.(at := Ready(c, call.at.left), took := took)])
    case NoKeepAlive =>
      if call.oneWay then
        s.(socks := s.socks + [Sock(call.addr, true, false, 0, Lost(k))],
           calls := s.calls[k := call.(at := Done(true), took := took, lost := call.lost + [c])])
      else
        s.(socks := s.socks + [Sock(call.addr, true, false, 0, Caller(k))],
           calls := s.calls[k := call.(at := Ending(c, true), took := took)])
  }

  /** After an error that comes at once: a reused connection may be stale, so try again. */
  function Failed(sock: Sock, c: nat, left: nat): Stage {
    if sock.used then Retrying(c, left) else Ending(c, true)
  }

  function DoDeadline(s: State, k: nat, ok: bool): State
    requires Can(s, Deadline(k, ok))
  {
    var call := s.calls[k];
    var c, n := call.at.conn, call.at.left;
    s.(calls := s.calls[k := call.(at := if ok then Sending(c, n) else Failed(s.socks[c], c, n))])
  }

  function DoSend(s: State, k: nat, outcome: Outcome): State
    requires Can(s, Send(k, outcome))
  {
    var call := s.calls[k];
    var c, n := call.at.conn, call.at.left;
    var sock := s.socks[c];
    match outcome
    case Fine =>
      if call.oneWay then s.(calls := s.calls[k := call.(at := Ending(c, false))])
      else s.(socks := s.socks[c := sock.(owed := sock.owed + 1)],
              calls := s.calls[k := call.(at := Receiving(c, n))])
    case _ =>
      s.(socks := Close(s.socks, c, sock.owner),
         calls := s.calls[k := call.(at := if outcome.Quick? then Failed(sock, c, n) else Ending(c, true))])
  }

  function DoReceive(s: State, k: nat, outcome: Outcome): State
    requires Can(s, Receive(k, outcome))
  {
    var call := s.calls[k];
    var c, n := call.at.conn, call.at.left;
    var sock := s.socks[c];
    match outcome
    case Fine =>
      s.(socks := s.socks[c := sock.(owed := sock.owed - 1)],
         calls := s.calls[k := call.(at := Ending(c, false))])
    case _ =>
      s.(socks := Close(s.socks, c, sock.owner),
         calls := s.calls[k := call.(at := if outcome.Quick? then Failed(sock, c, n) else Ending(c, true))])
  }

  /** `continue` after a failure: the caller's connection is overwritten by the next pass, or closed
      at the end when there is none. */
  function NextPass(s: State, k: nat): State
    requires Can(s, Purge(k))
  {
    var call := s.calls[k];
    var c, n := call.at.conn, call.at.left;
    if n <= 1 then
      s.(calls := s.calls[k := call.(at := Ending(c, true))])
    else if s.socks[c].open then
      s.(socks := s.socks[c := s.socks[c].(owner := Lost(k))],
         calls := s.calls[k := call.(at := Asking(n - 1), lost := call.lost + [c])])
    else
      s.(socks := s.socks[c := s.socks[c].(owner := Nobody)],
         calls := s.calls[k := call.(at := Asking(n - 1))])
  }

  /** Close and drop everything pooled for the address, then go on to the next pass. */
  function DoPurge(s: State, k: nat): State
    requires Can(s, Purge(k))
  {
    var a := s.calls[k].addr;
    var q := At(s.pool, a);
    NextPass(s.(pool := s.pool - {a}, socks := CloseEach(s.socks, q), gone := s.gone[a := At(s.gone, a) + q]), k)
  }

  function DoFinish(s: State, k: nat): State
    requires Can(s, Finish(k))
  {
    var call := s.calls[k];
    var a, c := call.addr, call.at.conn;
    var q := At(s.pool, a);
    if call.at.failed || |q| >= s.limit then
      s.(socks := Close(s.socks, c, Nobody), calls := s.calls[k := call.(at := Done(call.at.failed))])
    else
      s.(socks := s.socks[c := s.socks[c].(used := true, owner := InPool)],
         pool := s.pool[a := q + [c]], entered := s.entered[a := At(s.entered, a) + [c]],
         calls := s.calls[k := call.(at := Done(false), gave := call.gave + [c])])
  }

  function Do(s: State, e: Step): State
    requires Can(s, e)
  {
    match e
    case Begin(a, oneWay) => s.(calls := s.calls + [Call(a, oneWay, Asking(TRIES), [], [], [])])
    case Take(k) => DoTake(s, k)
    case Dial(k, how) => DoDial(s, k, how)
    case Deadline(k, ok) => DoDeadline(s, k, ok)
    case Send(k, outcome) => DoSend(s, k, outcome)
    case Receive(k, outcome) => DoReceive(s, k, outcome)
    case Purge(k) => DoPurge(s, k)
    case Finish(k) => DoFinish(s, k)
  }

  // ----- the invariant -----

  predicate NoDuplicates(q: seq<nat>) {
    forall i, j | 0 <= i < j < |q| :: q[i] != q[j]
  }

  predicate Pooled(s: State, a: string, c: nat) {
    c < |s.socks| && s.socks[c].owner == InPool && s.socks[c].addr == a
  }

  predicate QueueOk(s: State, a: string) {
    var q := At(s.pool, a);
    && NoDuplicates(q)
    && (forall c | c in q :: Pooled(s, a, c))
    && (|q| <= s.limit || q == [])
    && At(s.gone, a) + q == At(s.entered, a)
  }

  predicate SockOk(s: State, c: nat)
    requires c < |s.socks|
  {
    var sock := s.socks[c];
    match sock.owner
    case InPool => sock.open && sock.used && sock.owed == 0 && c in At(s.pool, sock.addr)
    case Caller(k) => k < |s.calls| && Holds(s.calls[k]) == Some(c)
    case Lost(k) => k < |s.calls| && sock.open && c in s.calls[k].lost
    case Nobody => !sock.open
  }

  /** What a caller may rely on about the connection it holds. */
  predicate HoldingOk(s: State, k: nat)
    requires k < |s.calls|
  {
    var call := s.calls[k];
    && (call.at.Asking? || call.at.Dialing? ==> 1 <= call.at.left <= TRIES)
    && match Holds(call)
       case None => true
       case Some(c) =>
         && c < |s.socks|
         && var sock := s.socks[c];
         && sock.owner == Caller(k) && sock.addr == call.addr
         && (call.at.Ready? || call.at.Sending? ==> sock.open && sock.owed == 0)
         && (call.at.Receiving? ==> sock.open && sock.owed == 1 && !call.oneWay)
         && (call.at.Ending? && !call.at.failed ==> sock.open && sock.owed == 0)
         && (call.at.Retrying? ==> sock.used)
         && (!call.at.Ending? ==> 1 <= call.at.left <= TRIES)
  }

  predicate LostOk(s: State, k: nat, c: nat) {
    c < |s.socks| && s.socks[c].owner == Lost(k)
  }

  /** A connection the call took is still held, closed, given back by it, or lost. */
  predicate TookOk(s: State, call: Call, c: nat) {
    && c < |s.socks| && s.socks[c].addr == call.addr
    && (Holds(call) == Some(c) || !s.socks[c].open || c in call.gave || c in call.lost)
  }

  predicate CallOk(s: State, k: nat)
    requires k < |s.calls|
  {
    && HoldingOk(s, k)
    && (forall c | c in s.calls[k].lost :: LostOk(s, k, c))
    && (forall c | c in s.calls[k].gave :: c in At(s.entered, s.calls[k].addr))
    && (forall c | c in s.calls[k].took :: TookOk(s, s.calls[k], c))
  }

  ghost predicate QueuesOk(s: State) {
    forall a :: QueueOk(s, a)
  }

  predicate SocksOk(s: State) {
    forall c: nat | c < |s.socks| :: SockOk(s, c)
  }

  predicate CallsOk(s: State) {
    forall k: nat | k < |s.calls| :: CallOk(s, k)
  }

  ghost predicate Inv(s: State) {
    QueuesOk(s) && SocksOk(s) && CallsOk(s)
  }

  // ----- every step keeps the invariant -----

  /** A step of call k for address a: it leaves other calls, other addresses, and every connection
      owned by another call alone. */
  ghost predicate Local(s: State, t: State, k: nat, a: string) {
    && k < |s.calls| <= |t.calls| && t.limit == s.limit
    && (forall j: nat | j < |s.calls| && j != k :: t.calls[j] == s.calls[j])
    && (forall b | b != a :: At(t.pool, b) == At(s.pool, b) && At(t.gone, b) == At(s.gone, b))
    && (forall b | b != a :: At(t.entered, b) == At(s.entered, b))
    && |s.socks| <= |t.socks|
    && (forall c: nat | c < |s.socks| :: SockLocal(s.socks[c], t.socks[c], k, a))
    && (forall c | c in At(s.entered, a) :: c in At(t.entered, a))
  }

  predicate SockLocal(x: Sock, y: Sock, k: nat, a: string) {
    && y.addr == x.addr && (y.open ==> x.open)
    && (x.owner.Lost? || (x.owner.Caller? && x.owner.k != k) || (x.addr != a && x.owner != Caller(k)) ==> y == x)
  }

  lemma OtherCalls(s: State, t: State, k: nat, a: string)
    requires Inv(s) && Local(s, t, k, a)
    ensures forall j: nat | j < |s.calls| && j != k :: CallOk(t, j)
  {
    forall j: nat | j < |s.calls| && j != k
      ensures CallOk(t, j)
    {
      assert CallOk(s, j);
      forall c | c in s.calls[j].took
        ensures TookOk(t, t.calls[j], c)
      {
        assert TookOk(s, s.calls[j], c) && SockLocal(s.socks[c], t.socks[c], k, a);
      }
      forall c | c in s.calls[j].lost
        ensures LostOk(t, j, c)
      {
        assert LostOk(s, j, c) && SockLocal(s.socks[c], t.socks[c], k, a);
      }
    }
  }

  lemma OtherQueues(s: State, t: State, k: nat, a: string)
    requires Inv(s) && Local(s, t, k, a) && QueueOk(t, a)
    ensures QueuesOk(t)
  {
    forall b
      ensures QueueOk(t, b)
    {
      if b != a {
        assert QueueOk(s, b);
        forall c | c in At(t.pool, b)
          ensures Pooled(t, b, c)
        {
          assert Pooled(s, b, c) && SockLocal(s.socks[c], t.socks[c], k, a);
        }
      }
    }
  }

  /** Only the connections the step changed need a look. */
  lemma OtherSocks(s: State, t: State, k: nat, a: string)
    requires Inv(s) && Local(s, t, k, a)
    requires forall c: nat | c < |t.socks| && (c < |s.socks| ==> t.socks[c] != s.socks[c]) :: SockOk(t, c)
    requires forall c: nat | c < |s.socks| && t.socks[c] == s.socks[c] && c in At(s.pool, a) :: c in At(t.pool, a)
    requires match Holds(s.calls[k])
             case None => true
             case Some(c) => c < |t.socks| && SockOk(t, c)
    requires forall c | c in s.calls[k].lost :: c in t.calls[k].lost
    ensures SocksOk(t)
  {
    forall c: nat | c < |t.socks|
      ensures SockOk(t, c)
    {
      if c < |s.socks| && t.socks[c] == s.socks[c] {
        assert SockOk(s, c);
      }
    }
  }

  /** The call that steps: what it took earlier is still accounted for. */
  lemma OwnCall(s: State, t: State, k: nat, a: string)
    requires Inv(s) && Local(s, t, k, a) && s.calls[k].addr == a == t.calls[k].addr && HoldingOk(t, k)
    requires t.calls[k].lost == s.calls[k].lost
             || (exists c :: t.calls[k].lost == s.calls[k].lost + [c] && LostOk(t, k, c))
    requires t.calls[k].gave == s.calls[k].gave
             || (exists c :: t.calls[k].gave == s.calls[k].gave + [c] && c in At(t.entered, a))
    requires t.calls[k].took == s.calls[k].took
             || (exists c :: t.calls[k].took == s.calls[k].took + [c] && TookOk(t, t.calls[k], c))
    requires match Holds(s.calls[k])
             case None => true
             case Some(c) => c < |t.socks| && (Holds(t.calls[k]) == Some(c) || !t.socks[c].open
                                               || c in t.calls[k].gave || c in t.calls[k].lost)
    ensures CallOk(t, k)
  {
    assert CallOk(s, k);
    forall c | c in t.calls[k].took
      ensures TookOk(t, t.calls[k], c)
    {
      if c in s.calls[k].took {
        assert TookOk(s, s.calls[k], c) && SockLocal(s.socks[c], t.socks[c], k, a);
      }
    }
    forall c | c in t.calls[k].lost
      ensures LostOk(t, k, c)
    {
      if c in s.calls[k].lost {
        assert LostOk(s, k, c) && SockLocal(s.socks[c], t.socks[c], k, a);
      }
    }
  }

  lemma BeginKeeps(s: State, a: string, oneWay: bool)
    requires Inv(s)
    ensures Inv(Do(s, Begin(a, oneWay)))
  {
    var t := Do(s, Begin(a, oneWay));
    forall b
      ensures QueueOk(t, b)
    {
      assert QueueOk(s, b);
    }
    forall c: nat | c < |t.socks|
      ensures SockOk(t, c)
    {
      assert SockOk(s, c);
    }
    forall j: nat | j < |s.calls|
      ensures CallOk(t, j)
    {
      assert CallOk(s, j);
    }
  }

  /** What the invariant says about a pooled connection. */
  lemma InQueue(s: State, a: string, c: nat)
    requires Inv(s) && c in At(s.pool, a)
    ensures Pooled(s, a, c) && SockOk(s, c)
  {
    assert QueueOk(s, a);
  }

  lemma TakeQueue(s: State, k: nat)
    requires Inv(s) && Can(s, Take(k)) && At(s.pool, s.calls[k].addr) != []
    ensures QueueOk(DoTake(s, k), s.calls[k].addr)
  {
    var t, a := DoTake(s, k), s.calls[k].addr;
    var q := At(s.pool, a);
    assert QueueOk(s, a);
    assert At(s.gone, a) + q == At(t.gone, a) + At(t.pool, a);
    forall c | c in At(t.pool, a)
      ensures Pooled(t, a, c)
    {
      assert Pooled(s, a, c);
    }
  }

  lemma Together(s: State, t: State, k: nat, a: string)
    requires Inv(s) && Local(s, t, k, a) && |t.calls| == |s.calls|
    requires QueueOk(t, a) && SocksOk(t) && CallOk(t, k)
    ensures Inv(t)
  {
    OtherCalls(s, t, k, a);
    OtherQueues(s, t, k, a);
  }

  lemma TakeLocal(s: State, k: nat)
    requires Inv(s) && Can(s, Take(k))
    ensures Local(s, DoTake(s, k), k, s.calls[k].addr) && QueueOk(DoTake(s, k), s.calls[k].addr)
  {
    var a := s.calls[k].addr;
    var q := At(s.pool, a);
    if q == [] {
      assert QueueOk(s, a);
    } else {
      assert q[0] in q;
      InQueue(s, a, q[0]);
      TakeQueue(s, k);
    }
  }

  lemma TakeKeeps(s: State, k: nat)
    requires Inv(s) && Can(s, Take(k))
    ensures Inv(Do(s, Take(k)))
  {
    var t, a := DoTake(s, k), s.calls[k].addr;
    var q := At(s.pool, a);
    assert CallOk(s, k);
    TakeLocal(s, k);
    if q != [] {
      assert q[0] in q;
      InQueue(s, a, q[0]);
    }
    OtherSocks(s, t, k, a);
    OwnCall(s, t, k, a);
    Together(s, t, k, a);
  }

  lemma DialLocal(s: State, k: nat, how: Dialled)
    requires Inv(s) && Can(s, Dial(k, how))
    ensures Local(s, DoDial(s, k, how), k, s.calls[k].addr) && QueueOk(DoDial(s, k, how), s.calls[k].addr)
  {
    var t, a := DoDial(s, k, how), s.calls[k].addr;
    assert QueueOk(s, a);
    forall c | c in At(t.pool, a)
      ensures Pooled(t, a, c)
    {
      assert Pooled(s, a, c);
    }
  }

  lemma DialOwn(s: State, k: nat, how: Dialled)
    requires Inv(s) && Can(s, Dial(k, how)) && Local(s, DoDial(s, k, how), k, s.calls[k].addr)
    ensures CallOk(DoDial(s, k, how), k)
  {
    var t, c := DoDial(s, k, how), |s.socks|;
    assert CallOk(s, k);
    if !how.Refused? {
      assert TookOk(t, t.calls[k], c);
    }
    OwnCall(s, t, k, s.calls[k].addr);
  }

  lemma DialSocks(s: State, k: nat, how: Dialled)
    requires Inv(s) && Can(s, Dial(k, how)) && Local(s, DoDial(s, k, how), k, s.calls[k].addr)
    ensures SocksOk(DoDial(s, k, how))
  {
    OtherSocks(s, DoDial(s, k, how), k, s.calls[k].addr);
  }

  lemma DialKeeps(s: State, k: nat, how: Dialled)
    requires Inv(s) && Can(s, Dial(k, how))
    ensures Inv(Do(s, Dial(k, how)))
  {
    DialLocal(s, k, how);
    DialOwn(s, k, how);
    DialSocks(s, k, how);
    Together(s, DoDial(s, k, how), k, s.calls[k].addr);
  }

  /** A step that changes only the connection its caller holds, and keeps holding it. */
  lemma HeldKeeps(s: State, t: State, k: nat, c: nat)
    requires Inv(s) && k < |s.calls| && Holds(s.calls[k]) == Some(c) && c < |s.socks| == |t.socks|
    requires t == s.(calls := t.calls, socks := t.socks)
    requires |t.calls| == |s.calls| && t.socks == s.socks[c := t.socks[c]] && t.calls == s.calls[k := t.calls[k]]
    requires t.socks[c].addr == s.socks[c].addr && t.socks[c].owner == s.socks[c].owner
    requires t.socks[c].open ==> s.socks[c].open
    requires t.calls[k] == s.calls[k].(at := t.calls[k].at) && Holds(t.calls[k]) == Some(c)
    requires HoldingOk(t, k)
    ensures Inv(t)
  {
    var a := s.calls[k].addr;
    assert CallOk(s, k) && QueueOk(s, a);
    forall d | d in At(t.pool, a)
      ensures Pooled(t, a, d)
    {
      assert Pooled(s, a, d);
    }
    assert Local(s, t, k, a);
    OtherSocks(s, t, k, a);
    OwnCall(s, t, k, a);
    Together(s, t, k, a);
  }

  lemma DeadlineKeeps(s: State, k: nat, ok: bool)
    requires Inv(s) && Can(s, Deadline(k, ok))
    ensures Inv(Do(s, Deadline(k, ok)))
  {
    assert CallOk(s, k);
    HeldKeeps(s, DoDeadline(s, k, ok), k, s.calls[k].at.conn);
  }

  lemma SendKeeps(s: State, k: nat, outcome: Outcome)
    requires Inv(s) && Can(s, Send(k, outcome))
    ensures Inv(Do(s, Send(k, outcome)))
  {
    assert CallOk(s, k);
    HeldKeeps(s, DoSend(s, k, outcome), k, s.calls[k].at.conn);
  }

  lemma ReceiveKeeps(s: State, k: nat, outcome: Outcome)
    requires Inv(s) && Can(s, Receive(k, outcome))
    ensures Inv(Do(s, Receive(k, outcome)))
  {
    assert CallOk(s, k);
    HeldKeeps(s, DoReceive(s, k, outcome), k, s.calls[k].at.conn);
  }

  lemma PurgeQueue(s: State, k: nat)
    requires Inv(s) && Can(s, Purge(k))
    ensures QueueOk(DoPurge(s, k), s.calls[k].addr)
  {
    var t, a := DoPurge(s, k), s.calls[k].addr;
    assert QueueOk(s, a);
    assert At(t.pool, a) == [];
    assert At(t.gone, a) + [] == At(s.gone, a) + At(s.pool, a);
  }

  lemma PurgeLocal(s: State, k: nat)
    requires Inv(s) && Can(s, Purge(k))
    ensures Local(s, DoPurge(s, k), k, s.calls[k].addr)
  {
    var t, a := DoPurge(s, k), s.calls[k].addr;
    assert HoldingOk(s, k) by {
      assert CallOk(s, k);
    }
    forall c: nat | c < |s.socks|
      ensures SockLocal(s.socks[c], t.socks[c], k, a)
    {
      if c in At(s.pool, a) {
        InQueue(s, a, c);
      }
    }
  }

  lemma PurgeSocks(s: State, k: nat)
    requires Inv(s) && Can(s, Purge(k)) && Local(s, DoPurge(s, k), k, s.calls[k].addr)
    ensures SocksOk(DoPurge(s, k))
  {
    var t, a, d := DoPurge(s, k), s.calls[k].addr, s.calls[k].at.conn;
    assert HoldingOk(s, k) by {
      assert CallOk(s, k);
    }
    if d in At(s.pool, a) {
      InQueue(s, a, d);
    }
    forall c: nat | c < |t.socks|
      ensures SockOk(t, c)
    {
      assert SockOk(s, c);
      if c in At(s.pool, a) {
        InQueue(s, a, c);
      }
    }
  }

  lemma PurgeOwn(s: State, k: nat)
    requires Inv(s) && Can(s, Purge(k)) && Local(s, DoPurge(s, k), k, s.calls[k].addr)
    ensures CallOk(DoPurge(s, k), k)
  {
    var t, a, d := DoPurge(s, k), s.calls[k].addr, s.calls[k].at.conn;
    assert HoldingOk(s, k) by {
      assert CallOk(s, k);
    }
    if d in At(s.pool, a) {
      InQueue(s, a, d);
    }
    OwnCall(s, t, k, a);
  }

  lemma PurgeKeeps(s: State, k: nat)
    requires Inv(s) && Can(s, Purge(k))
    ensures Inv(Do(s, Purge(k)))
  {
    var t, a := DoPurge(s, k), s.calls[k].addr;
    PurgeQueue(s, k);
    PurgeLocal(s, k);
    PurgeSocks(s, k);
    PurgeOwn(s, k);
    Together(s, t, k, a);
  }

  lemma AppendDistinct(q: seq<nat>, c: nat)
    requires NoDuplicates(q) && c !in q
    ensures NoDuplicates(q + [c])
  {
  }

  lemma FinishQueue(s: State, k: nat)
    requires Inv(s) && Can(s, Finish(k))
    ensures QueueOk(DoFinish(s, k), s.calls[k].addr)
  {
    var t, a, c := DoFinish(s, k), s.calls[k].addr, s.calls[k].at.conn;
    var q := At(s.pool, a);
    assert HoldingOk(s, k) by {
      assert CallOk(s, k);
    }
    assert QueueOk(s, a);
    if c in q {
      InQueue(s, a, c);
    }
    AppendDistinct(q, c);
    forall d | d in At(t.pool, a)
      ensures Pooled(t, a, d)
    {
      if d in q {
        assert Pooled(s, a, d);
      }
    }
    assert At(s.gone, a) + (q + [c]) == At(s.gone, a) + q + [c];
  }

  lemma FinishOwn(s: State, k: nat)
    requires Inv(s) && Can(s, Finish(k)) && Local(s, DoFinish(s, k), k, s.calls[k].addr)
    ensures CallOk(DoFinish(s, k), k)
  {
    assert CallOk(s, k);
    OwnCall(s, DoFinish(s, k), k, s.calls[k].addr);
  }

  lemma FinishSocks(s: State, k: nat)
    requires Inv(s) && Can(s, Finish(k)) && Local(s, DoFinish(s, k), k, s.calls[k].addr)
    ensures SocksOk(DoFinish(s, k))
  {
    var t, a, c := DoFinish(s, k), s.calls[k].addr, s.calls[k].at.conn;
    assert HoldingOk(s, k) by {
      assert CallOk(s, k);
    }
    assert t.socks[c].owner.InPool? ==> c in At(t.pool, a);
    OtherSocks(s, t, k, a);
  }

  lemma FinishLocal(s: State, k: nat)
    requires Inv(s) && Can(s, Finish(k))
    ensures Local(s, DoFinish(s, k), k, s.calls[k].addr)
  {
    assert HoldingOk(s, k) by {
      assert CallOk(s, k);
    }
  }

  lemma FinishKeeps(s: State, k: nat)
    requires Inv(s) && Can(s, Finish(k))
    ensures Inv(Do(s, Finish(k)))
  {
    FinishLocal(s, k);
    FinishQueue(s, k);
    FinishSocks(s, k);
    FinishOwn(s, k);
    Together(s, DoFinish(s, k), k, s.calls[k].addr);
  }

  lemma SameLimit(s: State, e: Step)
    requires Can(s, e)
    ensures Do(s, e).limit == s.limit
  {
  }

  /** Every step of every caller keeps the invariant. */
  lemma StepKeeps(s: State, e: Step)
    requires Inv(s) && Can(s, e)
    ensures Inv(Do(s, e))
  {
    match e
    case Begin(a, oneWay) => BeginKeeps(s, a, oneWay);
    case Take(k) => TakeKeeps(s, k);
    case Dial(k, how) => DialKeeps(s, k, how);
    case Deadline(k, ok) => DeadlineKeeps(s, k, ok);
    case Send(k, outcome) => SendKeeps(s, k, outcome);
    case Receive(k, outcome) => ReceiveKeeps(s, k, outcome);
    case Purge(k) => PurgeKeeps(s, k);
    case Finish(k) => FinishKeeps(s, k);
  }

  // ----- runs -----

  function Empty(limit: int): State {
    State(limit, map[], [], [], map[], map[])
  }

  predicate Runs(s: State, trace: seq<Step>)
    decreases |trace|, 0
  {
    trace == [] || (Runs(s, trace[..|trace| - 1]) && Can(After(s, trace[..|trace| - 1]), trace[|trace| - 1]))
  }

  function After(s: State, trace: seq<Step>): State
    requires Runs(s, trace)
    decreases |trace|, 1
  {
    if trace == [] then s else Do(After(s, trace[..|trace| - 1]), trace[|trace| - 1])
  }

  lemma Extend(limit: int, trace: seq<Step>, e: Step)
    requires Runs(Empty(limit), trace) && Can(After(Empty(limit), trace), e)
    ensures Runs(Empty(limit), trace + [e])
    ensures After(Empty(limit), trace + [e]) == Do(After(Empty(limit), trace), e)
  {
    assert (trace + [e])[..|trace|] == trace;
  }

  /** The invariant holds in every state of every interleaving. */
  lemma {:induction false} RunKeeps(limit: int, trace: seq<Step>)
    requires Runs(Empty(limit), trace)
    ensures Inv(After(Empty(limit), trace)) && After(Empty(limit), trace).limit == limit
  {
    if trace != [] {
      var prefix := trace[..|trace| - 1];
      RunKeeps(limit, prefix);
      StepKeeps(After(Empty(limit), prefix), trace[|trace| - 1]);
      SameLimit(After(Empty(limit), prefix), trace[|trace| - 1]);
    }
  }

  predicate InSlot(s: State, a: string, i: nat, c: nat) {
    i < |At(s.pool, a)| && At(s.pool, a)[i] == c
  }

  predicate HeldBy(s: State, k: nat, c: nat) {
    k < |s.calls| && Holds(s.calls[k]) == Some(c)
  }

  predicate LostBy(s: State, k: nat, c: nat) {
    k < |s.calls| && c in s.calls[k].lost
  }

  /** Every open connection is in exactly one pool slot, or held by exactly one caller, or was lost by
      exactly one, and only one of the three; a pooled connection is open and pooled for the address
      it was dialled to. */
  lemma OnePlace(s: State, c: nat)
    requires Inv(s) && c < |s.socks|
    ensures s.socks[c].open ==>
      (exists a, i :: InSlot(s, a, i, c)) || (exists k :: HeldBy(s, k, c)) || (exists k :: LostBy(s, k, c))
    ensures forall a, i | InSlot(s, a, i, c) :: s.socks[c].open && s.socks[c].addr == a && s.socks[c].owed == 0
    ensures forall a, i, b, j | InSlot(s, a, i, c) && InSlot(s, b, j, c) :: a == b && i == j
    ensures forall k, j | HeldBy(s, k, c) && HeldBy(s, j, c) :: k == j
    ensures forall k, j | LostBy(s, k, c) && LostBy(s, j, c) :: k == j
    ensures forall a, i, k | InSlot(s, a, i, c) :: !HeldBy(s, k, c) && !LostBy(s, k, c)
    ensures forall k, j | HeldBy(s, k, c) :: !LostBy(s, j, c)
  {
    var sock := s.socks[c];
    assert SockOk(s, c);
    if sock.owner.InPool? {
      var i: nat :| i < |At(s.pool, sock.addr)| && At(s.pool, sock.addr)[i] == c;
      assert InSlot(s, sock.addr, i, c);
    } else if sock.owner.Caller? {
      assert HeldBy(s, sock.owner.k, c);
    } else if sock.owner.Lost? {
      assert LostBy(s, sock.owner.k, c);
    }
    forall a, i | InSlot(s, a, i, c)
      ensures sock.owner == InPool && sock.addr == a && NoDuplicates(At(s.pool, a))
    {
      InQueue(s, a, c);
      assert QueueOk(s, a);
    }
    forall k | HeldBy(s, k, c)
      ensures sock.owner == Caller(k)
    {
      assert CallOk(s, k);
    }
    forall k | LostBy(s, k, c)
      ensures sock.owner == Lost(k)
    {
      assert CallOk(s, k) && LostOk(s, k, c);
    }
  }

  lemma DeadlineLocal(s: State, k: nat, ok: bool)
    requires Inv(s) && Can(s, Deadline(k, ok))
    ensures Local(s, DoDeadline(s, k, ok), k, s.calls[k].addr)
  {
  }

  lemma SendLocal(s: State, k: nat, outcome: Outcome)
    requires Inv(s) && Can(s, Send(k, outcome))
    ensures Local(s, DoSend(s, k, outcome), k, s.calls[k].addr)
  {
    assert HoldingOk(s, k) by {
      assert CallOk(s, k);
    }
  }

  lemma ReceiveLocal(s: State, k: nat, outcome: Outcome)
    requires Inv(s) && Can(s, Receive(k, outcome))
    ensures Local(s, DoReceive(s, k, outcome), k, s.calls[k].addr)
  {
    assert HoldingOk(s, k) by {
      assert CallOk(s, k);
    }
  }

  lemma StepLocal(s: State, e: Step)
    requires Inv(s) && Can(s, e) && !e.Begin?
    ensures Local(s, Do(s, e), e.k, s.calls[e.k].addr)
  {
    match e
    case Begin(_, _) =>
    case Take(k) => TakeLocal(s, k);
    case Dial(k, how) => DialLocal(s, k, how);
    case Deadline(k, ok) => DeadlineLocal(s, k, ok);
    case Send(k, outcome) => SendLocal(s, k, outcome);
    case Receive(k, outcome) => ReceiveLocal(s, k, outcome);
    case Purge(k) => PurgeLocal(s, k);
    case Finish(k) => FinishLocal(s, k);
  }

  /** No step of another caller touches a caller's connection or its place in the loop. */
  lemma HeldUntouched(s: State, e: Step, k: nat)
    requires Inv(s) && Can(s, e) && k < |s.calls| && !ByCall(e, k)
    ensures k < |Do(s, e).calls| && Do(s, e).calls[k] == s.calls[k]
    ensures match Holds(s.calls[k])
            case None => true
            case Some(c) => c < |s.socks| <= |Do(s, e).socks| && Do(s, e).socks[c] == s.socks[c]
  {
    var h := Holds(s.calls[k]);
    assert HoldingOk(s, k) by {
      assert CallOk(s, k);
    }
    if !e.Begin? {
      StepLocal(s, e);
      if h.Some? {
        assert SockLocal(s.socks[h.value], Do(s, e).socks[h.value], e.k, s.calls[e.k].addr);
      }
    }
  }

  /** Every address queue is first in, first out: what left it and what is in it are, in order, what
      entered it; so a Take gets the connection that entered first among those still there. */
  lemma TakesOldest(s: State, k: nat)
    requires Inv(s) && Can(s, Take(k)) && At(s.pool, s.calls[k].addr) != []
    ensures var a, t := s.calls[k].addr, Do(s, Take(k));
            && At(s.gone, a) <= At(s.entered, a) && |At(s.gone, a)| < |At(s.entered, a)|
            && Holds(t.calls[k]) == Some(At(s.entered, a)[|At(s.gone, a)|])
            && At(t.gone, a) + At(t.pool, a) == At(t.entered, a) == At(s.entered, a)
            && At(s.pool, a) == [At(s.entered, a)[|At(s.gone, a)|]] + At(t.pool, a)
  {
    var a := s.calls[k].addr;
    assert QueueOk(s, a);
    TakeQueue(s, k);
    assert At(s.entered, a)[|At(s.gone, a)|] == At(s.pool, a)[0];
  }

  // ----- what a retry finds -----

  /** Between s and t every connection pooled for the address was closed and taken out of the pool, and nothing else
      was closed or taken out. */
  ghost predicate Emptied(s: State, t: State, a: string) {
    && a !in t.pool
    && (forall b | b != a :: (b in t.pool <==> b in s.pool) && (b in s.pool ==> t.pool[b] == s.pool[b]))
    && |t.socks| == |s.socks|
    && (forall c: nat | c < |s.socks| :: t.socks[c].open <==> s.socks[c].open && c !in At(s.pool, a))
  }

  lemma PurgeEmpties(s: State, k: nat)
    requires Can(s, Purge(k))
    ensures Emptied(s, Do(s, Purge(k)), s.calls[k].addr)
  {
    var a := s.calls[k].addr;
    var q := At(s.pool, a);
    var u := s.(pool := s.pool - {a}, socks := CloseEach(s.socks, q), gone := s.gone[a := At(s.gone, a) + q]);
    assert NextPass(u, k).pool == u.pool;
  }

  /** No step puts a connection back for the address. */
  predicate NonePutBack(s: State, es: seq<Step>, a: string)
    requires Runs(s, es)
  {
    es != [] ==>
      var before, e := es[..|es| - 1], es[|es| - 1];
      NonePutBack(s, before, a) && (e.Finish? ==> After(s, before).calls[e.k].addr != a)
  }

  /** Only a step that puts one back makes an empty queue longer. */
  lemma EmptyStep(s: State, e: Step, a: string)
    requires Inv(s) && Can(s, e) && At(s.pool, a) == [] && (e.Finish? ==> s.calls[e.k].addr != a)
    ensures At(Do(s, e).pool, a) == []
  {
    if !e.Begin? && s.calls[e.k].addr != a {
      StepLocal(s, e);
    } else if e.Purge? {
      PurgeEmpties(s, e.k);
    }
  }

  /** Steps of others leave a caller where it is and, if none of them puts a connection back, an empty queue empty. */
  lemma {:induction false} StaysEmpty(s: State, es: seq<Step>, k: nat)
    requires Inv(s) && k < |s.calls| && At(s.pool, s.calls[k].addr) == []
    requires Runs(s, es) && NonePutBack(s, es, s.calls[k].addr) && forall e | e in es :: !ByCall(e, k)
    ensures var t := After(s, es);
            Inv(t) && k < |t.calls| && t.calls[k] == s.calls[k] && At(t.pool, s.calls[k].addr) == []
  {
    if es != [] {
      var before, e := es[..|es| - 1], es[|es| - 1];
      StaysEmpty(s, before, k);
      StepKeeps(After(s, before), e);
      HeldUntouched(After(s, before), e, k);
      EmptyStep(After(s, before), e, s.calls[k].addr);
    }
  }

  /** A caller that met a stale connection with a pass left purges, and what it does next, however many steps of
      others come between, finds nothing in the pool and goes on to dial, unless one of them put a connection back. */
  lemma DialsAfterPurge(limit: int, trace: seq<Step>, k: nat, es: seq<Step>)
    requires Runs(Empty(limit), trace) && Can(After(Empty(limit), trace), Purge(k))
    requires var s := After(Empty(limit), trace);
             var t := Do(s, Purge(k));
             && s.calls[k].at.left > 1 && Runs(t, es) && NonePutBack(t, es, s.calls[k].addr)
             && forall e | e in es :: !ByCall(e, k)
    ensures var s := After(Empty(limit), trace);
            var u := After(Do(s, Purge(k)), es);
            && k < |u.calls| && At(u.pool, s.calls[k].addr) == [] && Can(u, Take(k))
            && Do(u, Take(k)).calls[k].at == Dialing(s.calls[k].at.left - 1)
            && Do(u, Take(k)).socks == u.socks
  {
    var s := After(Empty(limit), trace);
    var t := Do(s, Purge(k));
    assert Inv(s) && Inv(t) by {
      RunKeeps(limit, trace);
      StepKeeps(s, Purge(k));
    }
    assert At(t.pool, s.calls[k].addr) == [] by {
      PurgeEmpties(s, k);
    }
    assert t.calls[k].addr == s.calls[k].addr && t.calls[k].at == Asking(s.calls[k].at.left - 1);
    StaysEmpty(t, es, k);
  }

  /** The passes a caller has begun. */
  function Passes(trace: seq<Step>, k: nat): nat {
    if trace == [] then 0
    else Passes(trace[..|trace| - 1], k) + if trace[|trace| - 1] == Take(k) then 1 else 0
  }

  /** Two passes at most: those begun and those left make two. */
  predicate PassesOk(at: Stage, passes: nat) {
    match at
    case Asking(left) => passes + left == 2 && left > 0
    case Dialing(left) => passes + left == 3 && passes > 0 && left > 0
    case Ready(_, left) => passes + left == 3 && passes > 0 && left > 0
    case Sending(_, left) => passes + left == 3 && passes > 0 && left > 0
    case Receiving(_, left) => passes + left == 3 && passes > 0 && left > 0
    case Retrying(_, left) => passes + left == 3 && passes > 0 && left > 0
    case Ending(_, _) => 1 <= passes <= 2
    case Done(_) => 1 <= passes <= 2
  }

  lemma PassesStep(s: State, e: Step, k: nat, passes: nat)
    requires Can(s, e) && ByCall(e, k) && PassesOk(s.calls[k].at, passes)
    ensures PassesOk(Do(s, e).calls[k].at, passes + if e.Take? then 1 else 0)
  {
    match e
    case Take(_) => PassesTake(s, k, passes);
    case Dial(_, how) => PassesDial(s, k, how, passes);
    case Deadline(_, ok) => PassesWork(s, k, ok, Fine, passes);
    case Send(_, outcome) => PassesWork(s, k, true, outcome, passes);
    case Receive(_, outcome) => PassesWork(s, k, true, outcome, passes);
    case Purge(_) => PassesPurge(s, k, passes);
    case Finish(_) => PassesFinish(s, k, passes);
  }

  lemma PassesTake(s: State, k: nat, passes: nat)
    requires Can(s, Take(k)) && PassesOk(s.calls[k].at, passes)
    ensures PassesOk(DoTake(s, k).calls[k].at, passes + 1)
  {
  }

  lemma PassesDial(s: State, k: nat, how: Dialled, passes: nat)
    requires Can(s, Dial(k, how)) && PassesOk(s.calls[k].at, passes)
    ensures PassesOk(DoDial(s, k, how).calls[k].at, passes)
  {
  }

  lemma PassesWork(s: State, k: nat, ok: bool, outcome: Outcome, passes: nat)
    requires k < |s.calls| && PassesOk(s.calls[k].at, passes)
    ensures Can(s, Deadline(k, ok)) ==> PassesOk(DoDeadline(s, k, ok).calls[k].at, passes)
    ensures Can(s, Send(k, outcome)) ==> PassesOk(DoSend(s, k, outcome).calls[k].at, passes)
    ensures Can(s, Receive(k, outcome)) ==> PassesOk(DoReceive(s, k, outcome).calls[k].at, passes)
  {
  }

  lemma PassesPurge(s: State, k: nat, passes: nat)
    requires Can(s, Purge(k)) && PassesOk(s.calls[k].at, passes)
    ensures PassesOk(DoPurge(s, k).calls[k].at, passes)
  {
  }

  lemma PassesFinish(s: State, k: nat, passes: nat)
    requires Can(s, Finish(k)) && PassesOk(s.calls[k].at, passes)
    ensures PassesOk(DoFinish(s, k).calls[k].at, passes)
  {
  }

  lemma PassesOfOther(s: State, e: Step, k: nat)
    requires Inv(s) && Can(s, e) && !ByCall(e, k)
    ensures k < |s.calls| ==> k < |Do(s, e).calls| && Do(s, e).calls[k] == s.calls[k]
    ensures |s.calls| <= k < |Do(s, e).calls| ==> Do(s, e).calls[k].at == Asking(2)
  {
    if k < |s.calls| {
      HeldUntouched(s, e, k);
    } else if !e.Begin? {
      SameCalls(s, e);
    }
  }

  lemma SameCalls(s: State, e: Step)
    requires Can(s, e) && !e.Begin?
    ensures |Do(s, e).calls| == |s.calls|
  {
    match e
    case Begin(_, _) =>
    case Take(_) =>
    case Dial(_, _) =>
    case Deadline(_, _) =>
    case Send(_, _) =>
    case Receive(_, _) =>
    case Purge(_) =>
    case Finish(_) =>
  }

  lemma {:induction false} PassesCounted(limit: int, trace: seq<Step>, k: nat)
    requires Runs(Empty(limit), trace)
    ensures var s := After(Empty(limit), trace);
            if k < |s.calls| then PassesOk(s.calls[k].at, Passes(trace, k)) else Passes(trace, k) == 0
  {
    if trace != [] {
      var before, e := trace[..|trace| - 1], trace[|trace| - 1];
      var s := After(Empty(limit), before);
      PassesCounted(limit, before, k);
      RunKeeps(limit, before);
      if ByCall(e, k) {
        PassesStep(s, e, k, Passes(before, k));
        SameCalls(s, e);
      } else {
        PassesOfOther(s, e, k);
      }
    }
  }

  /** A stale connection costs a request its first pass and ends it on its second: of the two, it goes on exactly
      after the first. */
  lemma RetriesOnce(limit: int, trace: seq<Step>, k: nat)
    requires Runs(Empty(limit), trace) && Can(After(Empty(limit), trace), Purge(k))
    ensures var s := After(Empty(limit), trace);
            && 1 <= Passes(trace, k) <= 2
            && Do(s, Purge(k)).calls[k].at ==
               if Passes(trace, k) == 1 then Asking(1) else Ending(s.calls[k].at.conn, true)
  {
    PassesCounted(limit, trace, k);
  }

  // ----- progress -----

  /** How many of its own steps a call can still make. */
  function Rank(at: Stage): nat {
    match at
    case Asking(n) => 6 * n + 6
    case Dialing(n) => 6 * n + 5
    case Ready(_, n) => 6 * n + 4
    case Sending(_, n) => 6 * n + 3
    case Receiving(_, n) => 6 * n + 2
    case Retrying(_, n) => 6 * n + 1
    case Ending(_, _) => 1
    case Done(_) => 0
  }

  lemma RankDial(s: State, k: nat, how: Dialled)
    requires Can(s, Dial(k, how))
    ensures Rank(DoDial(s, k, how).calls[k].at) < Rank(s.calls[k].at)
  {
  }

  lemma RankWork(s: State, k: nat, ok: bool, outcome: Outcome)
    ensures Can(s, Deadline(k, ok)) ==> Rank(DoDeadline(s, k, ok).calls[k].at) < Rank(s.calls[k].at)
    ensures Can(s, Send(k, outcome)) ==> Rank(DoSend(s, k, outcome).calls[k].at) < Rank(s.calls[k].at)
    ensures Can(s, Receive(k, outcome)) ==> Rank(DoReceive(s, k, outcome).calls[k].at) < Rank(s.calls[k].at)
  {
  }

  lemma RankPurge(s: State, k: nat)
    requires Can(s, Purge(k)) && s.calls[k].at.left >= 1
    ensures Rank(DoPurge(s, k).calls[k].at) < Rank(s.calls[k].at)
  {
  }

  lemma RankFalls(s: State, e: Step)
    requires Inv(s) && Can(s, e) && !e.Begin?
    ensures Rank(Do(s, e).calls[e.k].at) < Rank(s.calls[e.k].at) <= 18
  {
    assert HoldingOk(s, e.k) by {
      assert CallOk(s, e.k);
    }
    match e
    case Begin(_, _) =>
    case Take(k) =>
    case Dial(k, how) => RankDial(s, k, how);
    case Deadline(k, ok) => RankWork(s, k, ok, Fine);
    case Send(k, outcome) => RankWork(s, k, true, outcome);
    case Receive(k, outcome) => RankWork(s, k, true, outcome);
    case Purge(k) => RankPurge(s, k);
    case Finish(k) =>
  }

  function NextOf(at: Stage, k: nat): Step {
    match at
    case Asking(_) => Take(k)
    case Dialing(_) => Dial(k, Connected)
    case Ready(_, _) => Deadline(k, true)
    case Sending(_, _) => Send(k, Fine)
    case Receiving(_, _) => Receive(k, Fine)
    case Retrying(_, _) => Purge(k)
    case _ => Finish(k)
  }

  /** A caller that has not returned can always take its next step, and every step brings it closer to
      returning; so it returns after at most 18 steps of its own, whatever the others do. */
  lemma Progress(s: State, k: nat)
    requires Inv(s) && k < |s.calls|
    ensures !s.calls[k].at.Done? ==> exists e: Step :: ByCall(e, k) && Can(s, e)
    ensures forall e: Step | ByCall(e, k) && Can(s, e) :: Rank(Do(s, e).calls[k].at) < Rank(s.calls[k].at) <= 18
  {
    var call := s.calls[k];
    assert HoldingOk(s, k) by {
      assert CallOk(s, k);
    }
    var q := At(s.pool, call.addr);
    if q != [] {
      assert q[0] in q;
      InQueue(s, call.addr, q[0]);
    }
    if !call.at.Done? {
      assert Can(s, NextOf(call.at, k));
    }
    forall e: Step | ByCall(e, k) && Can(s, e)
      ensures Rank(Do(s, e).calls[k].at) < Rank(call.at) <= 18
    {
      RankFalls(s, e);
    }
  }

  // ----- which requests lose a connection -----

  /** The two steps after which a caller loses its connection: SetDeadline fails on a reused connection
      and a pass is left, or keep-alive fails in a request without response. */
  predicate Spoils(s: State, e: Step, k: nat) {
    && Can(s, e) && ByCall(e, k)
    && match e
       case Deadline(_, ok) => !ok && s.socks[s.calls[k].at.conn].used && s.calls[k].at.left > 1
       case Dial(_, how) => how.NoKeepAlive? && s.calls[k].oneWay
       case _ => false
  }

  predicate Spoiled(s: State, trace: seq<Step>, k: nat)
    requires Runs(s, trace)
  {
    trace != []
    && var before := trace[..|trace| - 1];
       Spoiled(s, before, k) || Spoils(After(s, before), trace[|trace| - 1], k)
  }

  /** A connection is lost, or will be by the caller's next step. */
  predicate Losing(s: State, k: nat) {
    k < |s.calls| && (s.calls[k].lost != []
      || (s.calls[k].at.Retrying? && s.calls[k].at.left > 1
          && s.calls[k].at.conn < |s.socks| && s.socks[s.calls[k].at.conn].open))
  }

  lemma LosingPurge(s: State, k: nat)
    requires Inv(s) && Can(s, Purge(k))
    ensures Losing(DoPurge(s, k), k) <==> Losing(s, k)
  {
    var call := s.calls[k];
    assert HoldingOk(s, k) by {
      assert CallOk(s, k);
    }
    if call.at.conn in At(s.pool, call.addr) {
      InQueue(s, call.addr, call.at.conn);
    }
  }

  lemma LosingDial(s: State, k: nat, how: Dialled)
    requires Can(s, Dial(k, how))
    ensures Losing(DoDial(s, k, how), k) <==> Losing(s, k) || Spoils(s, Dial(k, how), k)
  {
  }

  lemma LosingDeadline(s: State, k: nat, ok: bool)
    requires Inv(s) && Can(s, Deadline(k, ok))
    ensures Losing(DoDeadline(s, k, ok), k) <==> Losing(s, k) || Spoils(s, Deadline(k, ok), k)
  {
    assert CallOk(s, k) && HoldingOk(s, k);
  }

  lemma LosingWork(s: State, k: nat, outcome: Outcome)
    ensures Can(s, Send(k, outcome)) ==> (Losing(DoSend(s, k, outcome), k) <==> Losing(s, k))
    ensures Can(s, Receive(k, outcome)) ==> (Losing(DoReceive(s, k, outcome), k) <==> Losing(s, k))
  {
  }

  lemma LosingEnds(s: State, k: nat)
    ensures Can(s, Take(k)) ==> (Losing(DoTake(s, k), k) <==> Losing(s, k))
    ensures Can(s, Finish(k)) ==> (Losing(DoFinish(s, k), k) <==> Losing(s, k))
  {
  }

  lemma LosingOwnStep(s: State, e: Step)
    requires Inv(s) && Can(s, e) && !e.Begin?
    ensures Losing(Do(s, e), e.k) <==> Losing(s, e.k) || Spoils(s, e, e.k)
  {
    match e
    case Begin(_, _) =>
    case Take(k) => LosingEnds(s, k);
    case Dial(k, how) => LosingDial(s, k, how);
    case Deadline(k, ok) => LosingDeadline(s, k, ok);
    case Send(k, outcome) => LosingWork(s, k, outcome);
    case Receive(k, outcome) => LosingWork(s, k, outcome);
    case Purge(k) => LosingPurge(s, k);
    case Finish(k) => LosingEnds(s, k);
  }

  lemma LosingStep(s: State, e: Step, k: nat)
    requires Inv(s) && Can(s, e)
    ensures Losing(Do(s, e), k) <==> Losing(s, k) || Spoils(s, e, k)
  {
    if ByCall(e, k) {
      LosingOwnStep(s, e);
    } else if k < |s.calls| {
      HeldUntouched(s, e, k);
      assert HoldingOk(s, k) by {
        assert CallOk(s, k);
      }
    }
  }

  lemma {:induction false} LosingExactly(limit: int, trace: seq<Step>, k: nat)
    requires Runs(Empty(limit), trace)
    ensures Losing(After(Empty(limit), trace), k) <==> Spoiled(Empty(limit), trace, k)
  {
    if trace != [] {
      var before := trace[..|trace| - 1];
      LosingExactly(limit, before, k);
      RunKeeps(limit, before);
      LosingStep(After(Empty(limit), before), trace[|trace| - 1], k);
    }
  }

  /** A request that has returned put back or closed every connection it took if and only if it met
      neither of the two failures; one it lost stays open, in no slot and in nobody's hands. */
  lemma ReturnedRequest(limit: int, trace: seq<Step>, k: nat)
    requires Runs(Empty(limit), trace)
    requires var s := After(Empty(limit), trace); k < |s.calls| && s.calls[k].at.Done?
    ensures var s := After(Empty(limit), trace); var call := s.calls[k];
            && (Spoiled(Empty(limit), trace, k) <==> call.lost != [])
            && (forall c | c in call.took && c !in call.lost :: c < |s.socks| && (!s.socks[c].open || c in call.gave))
            && (forall c | c in call.gave :: c in At(s.entered, call.addr))
            && (forall c | c in call.lost :: c < |s.socks| && s.socks[c].open
                  && (forall a, i :: !InSlot(s, a, i, c)) && (forall j :: !HeldBy(s, j, c)))
  {
    var s := After(Empty(limit), trace);
    var call := s.calls[k];
    RunKeeps(limit, trace);
    LosingExactly(limit, trace, k);
    assert CallOk(s, k);
    forall c | c in call.took && c !in call.lost
      ensures c < |s.socks| && (!s.socks[c].open || c in call.gave)
    {
      assert TookOk(s, call, c);
    }
    forall c | c in call.lost
      ensures c < |s.socks| && s.socks[c].open && (forall a, i :: !InSlot(s, a, i, c)) && (forall j :: !HeldBy(s, j, c))
    {
      assert LostOk(s, k, c) && SockOk(s, c) && LostBy(s, k, c);
      OnePlace(s, c);
    }
  }

  /** A request without response whose new connection cannot set keep-alive returns and leaves that
      connection open, unpooled and unheld. */
  lemma LosesItsConnection(limit: int, a: string)
    ensures var trace := [Begin(a, true), Take(0), Dial(0, NoKeepAlive)];
            && Runs(Empty(limit), trace)
            && var s := After(Empty(limit), trace);
               s.calls[0].at.Done? && s.calls[0].lost == [0] && s.socks[0].open
  {
    var begin, take, dial := Begin(a, true), Take(0), Dial(0, NoKeepAlive);
    Extend(limit, [], begin);
    Extend(limit, [begin], take);
    Extend(limit, [begin] + [take], dial);
    assert [begin] == [] + [begin];
    assert [begin] + [take] + [dial] == [begin, take, dial];
  }

  lemma Advance(s: State, trace: seq<Step>, now: State, e: Step) returns (longer: seq<Step>, next: State)
    requires s == Empty(s.limit) && Runs(s, trace) && After(s, trace) == now && Can(now, e)
    ensures Runs(s, longer) && After(s, longer) == next == Do(now, e)
  {
    Extend(s.limit, trace, e);
    longer, next := trace + [e], Do(now, e);
  }

  lemma OneConnected(limit: int, a: string) returns (trace: seq<Step>, now: State)
    ensures Runs(Empty(limit), trace) && After(Empty(limit), trace) == now
    ensures now.limit == limit && now.pool == map[] && now.socks == [Sock(a, true, false, 0, Caller(0))]
    ensures now.calls == [Call(a, true, Ready(0, 2), [0], [], [])]
  {
    var s := Empty(limit);
    trace, now := Advance(s, [], s, Begin(a, true));
    assert now.calls == [Call(a, true, Asking(2), [], [], [])] && now.pool == map[];
    trace, now := Advance(s, trace, now, Take(0));
    assert now.calls == [Call(a, true, Dialing(2), [], [], [])] && now.socks == [];
    trace, now := Advance(s, trace, now, Dial(0, Connected));
    assert [] + [0] == [0];
  }

  /** A request that succeeds and leaves its connection in the pool. */
  lemma OneSuccess(limit: int, a: string) returns (trace: seq<Step>, now: State)
    requires limit > 0
    ensures Runs(Empty(limit), trace) && After(Empty(limit), trace) == now
    ensures now.limit == limit && now.pool == map[a := [0]] && now.socks == [Sock(a, true, true, 0, InPool)]
    ensures now.calls == [Call(a, true, Done(false), [0], [0], [])]
  {
    var s := Empty(limit);
    trace, now := OneConnected(limit, a);
    trace, now := Advance(s, trace, now, Deadline(0, true));
    assert now.calls == [Call(a, true, Sending(0, 2), [0], [], [])];
    trace, now := Advance(s, trace, now, Send(0, Fine));
    assert now.calls == [Call(a, true, Ending(0, false), [0], [], [])];
    assert now.socks == [Sock(a, true, false, 0, Caller(0))];
    assert At(now.pool, a) == [] && [] + [0] == [0];
    trace, now := Advance(s, trace, now, Finish(0));
  }

  /** The next request takes that connection, SetDeadline fails on it, and no new one can be dialled: the
      request returns and the connection stays open, unpooled and unheld. */
  lemma DeadlineLosesIt(limit: int, a: string) returns (trace: seq<Step>)
    requires limit > 0
    ensures Runs(Empty(limit), trace)
    ensures var s := After(Empty(limit), trace);
            |s.calls| == 2 && s.calls[1].at == Done(true) && s.calls[1].lost == [0]
            && |s.socks| == 1 && s.socks[0].open && At(s.pool, a) == []
  {
    var s, now := Empty(limit), Empty(limit);
    trace, now := OneSuccess(limit, a);
    trace, now := Advance(s, trace, now, Begin(a, true));
    trace, now := Advance(s, trace, now, Take(1));
    assert now.calls[1] == Call(a, true, Ready(0, 2), [0], [], []) && At(now.pool, a) == [];
    trace, now := Advance(s, trace, now, Deadline(1, false));
    trace, now := Advance(s, trace, now, Purge(1));
    assert now.calls[1] == Call(a, true, Asking(1), [0], [], [0]) && At(now.pool, a) == [];
    trace, now := Advance(s, trace, now, Take(1));
    trace, now := Advance(s, trace, now, Dial(1, Refused));
  }
}
