/** The client pool as the program runs it: the pool and the connections are updated in place, and
    between any two critical sections of a request other callers take any number of steps. */
module TcpClient {
  import opened Bytes
  import opened TcpPool

  /** `copy(connections, connections[1:])` over the n connections in use: the in-place shift that takes
      the first connection out of a queue. */
  method PopFront(connections: array<nat>, n: nat) returns (first: nat)
    requires 0 < n <= connections.Length
    modifies connections
    ensures [first] + connections[..n - 1] == old(connections[..n])
    ensures connections[n - 1..] == old(connections[n - 1..])
  {
    first := connections[0];
    for i := 0 to n - 1
      invariant forall j | 0 <= j < i :: connections[j] == old(connections[j + 1])
      invariant forall j | i <= j < connections.Length :: connections[j] == old(connections[j])
    {
      connections[i] := connections[i + 1];
    }
  }

  class Client {
    const limit: int
    var pool: map<string, seq<nat>>
    var socks: seq<Sock>
    var calls: seq<Call>
    var entered: map<string, seq<nat>>
    var gone: map<string, seq<nat>>
    /** The steps taken so far by all callers. */
    ghost var trace: seq<Step>

    function Now(): State
      reads this
    {
      State(limit, pool, socks, calls, entered, gone)
    }

    /** The fields are what the steps of some interleaving made of the empty pool. */
    ghost predicate Valid()
      reads this
    {
      Runs(Empty(limit), trace) && Now() == After(Empty(limit), trace)
    }

    lemma Invariant()
      requires Valid()
      ensures Inv(Now())
    {
      RunKeeps(limit, trace);
    }

    constructor (limit: int)
      ensures Valid() && this.limit == limit && trace == []
    {
      this.limit := limit;
      pool, socks, calls, entered, gone, trace := map[], [], [], map[], map[], [];
    }

    /** Writes down the step that the fields have just taken from s. */
    ghost method Log(s: State, e: Step)
      requires Runs(Empty(limit), trace) && s == After(Empty(limit), trace) && Can(s, e) && Now() == Do(s, e)
      modifies this`trace
      ensures Valid() && trace == old(trace) + [e]
    {
      Extend(limit, trace, e);
      trace := trace + [e];
    }

    /** A step of another caller. */
    method Apply(e: Step)
      requires Valid() && Can(Now(), e)
      modifies this
      ensures Valid() && trace == old(trace) + [e] && Now() == Do(old(Now()), e)
    {
      ghost var s := Now();
      var t := Do(Now(), e);
      SameLimit(Now(), e);
      pool, socks, calls, entered, gone := t.pool, t.socks, t.calls, t.entered, t.gone;
      Log(s, e);
    }

    /** Any number of steps of callers other than k. */
    method Others(k: nat)
      requires Valid() && k < |calls|
      modifies this
      ensures Valid() && old(trace) <= trace && k < |calls| && calls[k] == old(calls[k])
    {
      var plan: seq<Step> := *;
      ghost var before, mine := trace, calls[k];
      for i := 0 to |plan|
        invariant Valid() && before <= trace && k < |calls| && calls[k] == mine
      {
        var e := plan[i];
        if Can(Now(), e) && !ByCall(e, k) {
          Invariant();
          HeldUntouched(Now(), e, k);
          Apply(e);
        }
      }
    }

    method Start(addr: string, oneWay: bool) returns (k: nat)
      requires Valid()
      modifies this
      ensures Valid() && trace == old(trace) + [Begin(addr, oneWay)]
      ensures k == |old(calls)| && calls == old(calls) + [Call(addr, oneWay, Asking(2), [], [], [])]
    {
      Extend(limit, trace, Begin(addr, oneWay));
      trace := trace + [Begin(addr, oneWay)];
      k := |calls|;
      calls := calls + [Call(addr, oneWay, Asking(TRIES), [], [], [])];
    }

    /** The critical section of newClientTcpConnection. */
    method FromPool(k: nat) returns (c: Option<nat>)
      requires Valid() && k < |calls| && calls[k].at.Asking?
      modifies this
      ensures Valid() && trace == old(trace) + [Take(k)]
      ensures Now() == Do(old(Now()), Take(k))
      ensures var a, left := old(calls[k].addr), old(calls[k].at.left);
              if a !in old(pool) || old(pool)[a] == [] then
                c == None && pool == old(pool) && calls[k].at == Dialing(left)
              else
                && c == Some(old(pool)[a][0]) && pool == old(pool)[a := old(pool)[a][1..]]
                && calls[k].at == Ready(c.value, left)
    {
      var call := calls[k];
      var a := call.addr;
      ghost var s := Now();
      Invariant();
      if a in pool && |pool[a]| > 0 {
        var connections := pool[a];
        var first := connections[0];
        assert first in At(pool, a);
        InQueue(Now(), a, first);
        c := Some(first);
        pool := pool[a := connections[1..]];
        gone := gone[a := At(gone, a) + [first]];
        socks := socks[first := socks[first].(owner := Caller(k))];
        calls := calls[k := call.(at := Ready(first, call.at.left), took := call.took + [first])];
      } else {
        c := None;
        calls := calls[k := call.(at := Dialing(call.at.left))];
      }
      Log(s, Take(k));
    }

    /** connectServer: on a keep-alive error the connection comes back together with the error. */
    method Connect(k: nat) returns (c: Option<nat>, failed: bool)
      requires Valid() && k < |calls| && calls[k].at.Dialing?
      modifies this
      ensures Valid() && old(trace) < trace && |calls| == |old(calls)|
      ensures calls[k].addr == old(calls[k].addr) && calls[k].oneWay == old(calls[k].oneWay)
      ensures match c
              case None => true
              case Some(n) => n == |old(socks)| == |socks| - 1 && socks[..n] == old(socks)
                              && socks[n].open && !socks[n].used && socks[n].addr == calls[k].addr
      ensures if c.None? then failed && calls[k].at == Done(true)
              else if !failed then calls[k].at == Ready(c.value, old(calls[k].at.left))
              else if calls[k].oneWay then calls[k].at == Done(true) && c.value in calls[k].lost
              else calls[k].at == Ending(c.value, true)
    {
      var call, n := calls[k], |socks|;
      ghost var s := Now();
      var refused: bool := *;
      if refused {
        calls := calls[k := call.(at := Done(true))];
        Log(s, Dial(k, Refused));
        return None, true;
      }
      var keepAlive: bool := *;
      c, failed := Some(n), !keepAlive;
      if keepAlive {
        socks := socks + [Sock(call.addr, true, false, 0, Caller(k))];
        calls := calls[k := call.(at := Ready(n, call.at.left), took := call.took + [n])];
        Log(s, Dial(k, Connected));
      } else {
        socks := socks + [Sock(call.addr, true, false, 0, if call.oneWay then Lost(k) else Caller(k))];
        calls := calls[k := if call.oneWay
                            then call.(at := Done(true), took := call.took + [n], lost := call.lost + [n])
                            else call.(at := Ending(n, true), took := call.took + [n])];
        Log(s, Dial(k, NoKeepAlive));
      }
    }

    /** newClientTcpConnection: the oldest pooled connection, or a new one dialled outside the lock. */
    method NewConnection(k: nat) returns (c: Option<nat>, failed: bool)
      requires Valid() && k < |calls| && calls[k].at.Asking?
      modifies this
      ensures Valid() && old(trace) < trace && k < |calls|
      ensures calls[k].addr == old(calls[k].addr) && calls[k].oneWay == old(calls[k].oneWay)
      ensures if c.None? then failed && calls[k].at == Done(true)
              else if !failed then calls[k].at == Ready(c.value, old(calls[k].at.left))
              else if calls[k].oneWay then calls[k].at == Done(true)
              else calls[k].at == Ending(c.value, true)
    {
      failed := false;
      c := FromPool(k);
      if c.None? {
        Others(k);
        c, failed := Connect(k);
      }
    }

    /** The result of an operation on the caller's connection: where the caller goes next. */
    ghost predicate Worked(k: nat, was: Call, failed: bool, quick: bool, next: Stage)
      requires k < |calls| && Holds(was).Some? && !was.at.Ending?
      reads this
    {
      var c := Holds(was).value;
      && c < |socks| && calls[k].addr == was.addr && calls[k].oneWay == was.oneWay
      && calls[k].at == if !failed then next
                        else if quick && socks[c].used then Retrying(c, was.at.left)
                        else Ending(c, true)
    }

    method SetDeadline(k: nat) returns (failed: bool)
      requires Valid() && k < |calls| && calls[k].at.Ready?
      modifies this
      ensures Valid() && old(trace) < trace && k < |calls|
      ensures Worked(k, old(calls[k]), failed, true, Sending(old(calls[k].at.conn), old(calls[k].at.left)))
    {
      var call := calls[k];
      var c := call.at.conn;
      ghost var s := Now();
      Invariant();
      assert CallOk(s, k);
      failed := *;
      calls := calls[k := call.(at := if failed then Failed(socks[c], c, call.at.left) else Sending(c, call.at.left))];
      Log(s, Deadline(k, !failed));
    }

    /** Send: a connection whose write failed is closed. */
    method SendPacket(k: nat) returns (failed: bool, quick: bool)
      requires Valid() && k < |calls| && calls[k].at.Sending?
      modifies this
      ensures Valid() && old(trace) < trace && k < |calls|
      ensures var at := old(calls[k].at);
        Worked(k, old(calls[k]), failed, quick,
               if old(calls[k].oneWay) then Ending(at.conn, false) else Receiving(at.conn, at.left))
      ensures failed ==> !socks[old(calls[k].at.conn)].open
    {
      var call := calls[k];
      var c, n := call.at.conn, call.at.left;
      Invariant();
      assert CallOk(Now(), k);
      failed, quick := *, *;
      var outcome := if !failed then Fine else if quick then Quick else Slow;
      ghost var s := Now();
      if failed {
        socks := socks[c := socks[c].(open := false)];
        calls := calls[k := call.(at := if quick then Failed(socks[c], c, n) else Ending(c, true))];
      } else if call.oneWay {
        calls := calls[k := call.(at := Ending(c, false))];
      } else {
        socks := socks[c := socks[c].(owed := socks[c].owed + 1)];
        calls := calls[k := call.(at := Receiving(c, n))];
      }
      Log(s, Send(k, outcome));
    }

    /** Receive: a connection whose read failed is closed. */
    method ReceivePacket(k: nat) returns (failed: bool, quick: bool)
      requires Valid() && k < |calls| && calls[k].at.Receiving?
      modifies this
      ensures Valid() && old(trace) < trace && k < |calls|
      ensures Worked(k, old(calls[k]), failed, quick, Ending(old(calls[k].at.conn), false))
      ensures failed ==> !socks[old(calls[k].at.conn)].open
    {
      var call := calls[k];
      var c, n := call.at.conn, call.at.left;
      Invariant();
      assert CallOk(Now(), k);
      failed, quick := *, *;
      var outcome := if !failed then Fine else if quick then Quick else Slow;
      ghost var s := Now();
      if failed {
        socks := socks[c := socks[c].(open := false)];
        calls := calls[k := call.(at := if quick then Failed(socks[c], c, n) else Ending(c, true))];
      } else {
        socks := socks[c := socks[c].(owed := socks[c].owed - 1)];
        calls := calls[k := call.(at := Ending(c, false))];
      }
      Log(s, Receive(k, outcome));
    }

    method CloseEvery(connections: seq<nat>)
      requires forall c | c in connections :: c < |socks|
      modifies this`socks
      ensures socks == CloseEach(old(socks), connections)
    {
      ghost var before := socks;
      for i := 0 to |connections|
        invariant socks == CloseEach(before, connections[..i])
      {
        var c := connections[i];
        assert c in connections;
        socks := socks[c := socks[c].(open := false, owner := Nobody)];
        assert connections[..i + 1] == connections[..i] + [c];
      }
      assert connections[..|connections|] == connections;
    }

    /** closeClientTcpConnection. */
    method CloseAll(a: string)
      requires forall c | c in At(pool, a) :: c < |socks|
      modifies this`pool, this`socks, this`gone
      ensures pool == old(pool) - {a} && socks == CloseEach(old(socks), At(old(pool), a))
      ensures gone == old(gone)[a := At(old(gone), a) + At(old(pool), a)]
    {
      var connections := At(pool, a);
      if a in pool {
        CloseEvery(connections);
        pool := pool - {a};
      }
      gone := gone[a := At(gone, a) + connections];
    }

    method Leave(k: nat)
      requires Can(Now(), Purge(k))
      modifies this`socks, this`calls
      ensures Now() == NextPass(old(Now()), k)
      ensures k < |calls| && calls[k].addr == old(calls[k].addr) && calls[k].oneWay == old(calls[k].oneWay)
      ensures var at := old(calls[k].at);
              calls[k].at == if at.left <= 1 then Ending(at.conn, true) else Asking(at.left - 1)
    {
      var call := calls[k];
      var mine, n := call.at.conn, call.at.left;
      if n <= 1 {
        calls := calls[k := call.(at := Ending(mine, true))];
      } else if socks[mine].open {
        socks := socks[mine := socks[mine].(owner := Lost(k))];
        calls := calls[k := call.(at := Asking(n - 1), lost := call.lost + [mine])];
      } else {
        socks := socks[mine := socks[mine].(owner := Nobody)];
        calls := calls[k := call.(at := Asking(n - 1))];
      }
    }

    /** closeClientTcpConnection within the caller's loop, which then goes on to its next pass. */
    method Retry(k: nat)
      requires Valid() && k < |calls| && calls[k].at.Retrying?
      modifies this
      ensures Valid() && trace == old(trace) + [Purge(k)] && k < |calls| && Now() == Do(old(Now()), Purge(k))
      ensures calls[k].addr == old(calls[k].addr) && calls[k].oneWay == old(calls[k].oneWay)
      ensures var at := old(calls[k].at);
              calls[k].at == if at.left <= 1 then Ending(at.conn, true) else Asking(at.left - 1)
      ensures Emptied(old(Now()), Now(), calls[k].addr)
      ensures calls[k].addr !in pool
    {
      var a := calls[k].addr;
      ghost var s := Now();
      Invariant();
      assert CallOk(s, k);
      forall c | c in At(pool, a)
        ensures c < |socks|
      {
        InQueue(Now(), a, c);
      }
      CloseAll(a);
      Leave(k);
      Log(s, Purge(k));
      PurgeEmpties(s, k);
    }

    /** The end of a request: freeClientTcpConnection when all went well, otherwise close. */
    method Settle(k: nat)
      requires Valid() && k < |calls| && calls[k].at.Ending?
      modifies this
      ensures Valid() && old(trace) < trace && k < |calls| && calls[k].at == Done(old(calls[k].at.failed))
      ensures calls[k].addr == old(calls[k].addr) && calls[k].oneWay == old(calls[k].oneWay)
      ensures old(calls[k].at.conn) < |socks|
      ensures var c, a := old(calls[k].at.conn), calls[k].addr;
              if old(calls[k].at.failed) || |At(old(pool), a)| >= limit then !socks[c].open && pool == old(pool)
              else socks[c].open && socks[c].used && At(pool, a) == At(old(pool), a) + [c]
    {
      var call := calls[k];
      var a, c := call.addr, call.at.conn;
      Invariant();
      ghost var s := Now();
      assert CallOk(s, k);
      var connections := At(pool, a);
      if call.at.failed || |connections| >= limit {
        socks := socks[c := socks[c].(open := false, owner := Nobody)];
        calls := calls[k := call.(at := Done(call.at.failed))];
      } else {
        socks := socks[c := socks[c].(used := true, owner := InPool)];
        pool := pool[a := connections + [c]];
        entered := entered[a := At(entered, a) + [c]];
        calls := calls[k := call.(at := Done(false), gave := call.gave + [c])];
      }
      Log(s, Finish(k));
    }

    /** SetDeadline, Send and Receive on the connection of this pass; `stale` when an error came at once
        and the connection had been reused. */
    method Exchange(k: nat) returns (failed: bool, stale: bool)
      requires Valid() && k < |calls| && calls[k].at.Ready?
      modifies this
      ensures Valid() && old(trace) < trace && k < |calls|
      ensures calls[k].addr == old(calls[k].addr) && calls[k].oneWay == old(calls[k].oneWay)
      ensures var at := old(calls[k].at);
              calls[k].at == if stale then Retrying(at.conn, at.left) else Ending(at.conn, failed)
      ensures stale ==> failed
    {
      var c, oneWay := calls[k].at.conn, calls[k].oneWay;
      var quick := true;
      failed := SetDeadline(k);
      if !failed {
        Others(k);
        failed, quick := SendPacket(k);
        if !failed && !oneWay {
          Others(k);
          failed, quick := ReceivePacket(k);
        }
      }
      stale := failed && quick && socks[c].used;
    }

    /** One pass of the retry loop. A request without response that gets no connection returns at once. */
    method Attempt(k: nat) returns (connection: Option<nat>, failed: bool, again: bool, returned: bool)
      requires Valid() && k < |calls| && calls[k].at.Asking?
      modifies this
      ensures Valid() && old(trace) < trace && k < |calls|
      ensures calls[k].addr == old(calls[k].addr) && calls[k].oneWay == old(calls[k].oneWay)
      ensures if returned then failed && !again && calls[k].at == Done(true)
              else if connection.None? then failed && !again && calls[k].at == Done(true)
              else if again && old(calls[k].at.left) > 1 then failed && calls[k].at == Asking(old(calls[k].at.left) - 1)
              else calls[k].at == Ending(connection.value, failed) && (again ==> failed)
    {
      again, returned := false, false;
      connection, failed := NewConnection(k);
      if failed {
        returned := calls[k].oneWay;
        return;
      }
      Others(k);
      failed, again := Exchange(k);
      if again {
        Others(k);
        Retry(k);
      }
    }

    /** sendClientRequest, and with oneWay sendClientRequestNoResponse: at most two passes, between
        whose steps other callers do what they like. */
    method Request(addr: string, oneWay: bool) returns (k: nat, ok: bool)
      requires Valid()
      modifies this
      ensures Valid() && old(trace) < trace
      ensures k == |old(calls)| < |calls| && calls[k].at == Done(!ok)
      ensures calls[k].addr == addr && calls[k].oneWay == oneWay && 1 <= Passes(trace, k) <= 2
    {
      k := Start(addr, oneWay);
      var connection: Option<nat>, failed, again, returned := None, false, true, false;
      var i := 0;
      while again && i < 2
        invariant 0 <= i <= 2 && Valid() && old(trace) < trace
        invariant k < |calls| && calls[k].addr == addr && calls[k].oneWay == oneWay
        invariant again && i < 2 ==> !returned && calls[k].at == Asking(2 - i)
        invariant !again || i == 2 ==>
          if returned || connection.None? then failed && calls[k].at == Done(true)
          else calls[k].at == Ending(connection.value, failed)
        decreases 2 - i
      {
        i := i + 1;
        Others(k);
        connection, failed, again, returned := Attempt(k);
      }
      ok := !failed;
      if !returned && connection.Some? {
        Others(k);
        Settle(k);
      }
      PassesCounted(limit, trace, k);
    }
  }
}
