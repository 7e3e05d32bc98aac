/** net/ratelimiter/bucket.go: a token bucket with debt and lazy refill, and bounds on what it lets
    through over whole runs. A time is the number of nanoseconds since the bucket was made. */
module TokenBucket {
  import opened Numbers

  /** The three numbers fixed when the bucket is made. */
  datatype Params = Params(capacity: int, fillInterval: int, increment: int)

  datatype State = State(avail: int, availTick: int)

  datatype Request = Request(n: int, now: nat)

  predicate ParamsOk(p: Params) {
    p.capacity > 0 && p.fillInterval > 0 && p.increment > 0
  }

  function Tick(p: Params, now: nat): (t: nat)
    requires ParamsOk(p)
  {
    now / p.fillInterval
  }

  function Min(a: int, b: int): int {
    if a <= b then a else b
  }

  /** `adjust`: a full bucket is left alone, its tick included. */
  function Adjusted(p: Params, s: State, tick: int): State {
    if s.avail >= p.capacity then s
    else State(Min(p.capacity, s.avail + (tick - s.availTick) * p.increment), tick)
  }

  function Left(p: Params, s: State, r: Request): int
    requires ParamsOk(p)
  {
    Adjusted(p, s, Tick(p, r.now)).avail - r.n
  }

  /** The tick at which the request is let through: its own, or the end of the debt it leaves. */
  function ReleaseTick(p: Params, s: State, r: Request): int
    requires ParamsOk(p)
  {
    var left := Left(p, s, r);
    Tick(p, r.now) + if left >= 0 then 0 else (-left) / p.increment
  }

  /** The state after one call of Cal. */
  function Next(p: Params, s: State, r: Request): State
    requires ParamsOk(p)
  {
    if r.n <= 0 then s
    else Adjusted(p, s, Tick(p, r.now)).(avail := Left(p, s, r))
  }

  /** The bucket as the source keeps it. */
  class Bucket {
    const params: Params
    var avail: int
    var availTick: int

    ghost predicate Valid()
      reads this
    {
      ParamsOk(params)
    }

    ghost function Now(): State
      reads this
    {
      State(avail, availTick)
    }

    constructor (p: Params)
      requires ParamsOk(p)
      ensures Valid() && params == p && Now() == State(p.capacity, 0)
    {
      params := p;
      avail, availTick := p.capacity, 0;
    }

    method Adjust(now: nat) returns (currentTick: nat)
      requires Valid()
      modifies this
      ensures Valid() && currentTick == Tick(params, now) && Now() == Adjusted(params, old(Now()), currentTick)
      ensures old(avail) >= params.capacity ==> avail == old(avail) && availTick == old(availTick)
      ensures old(avail) < params.capacity ==>
                var refilled := old(avail) + (now / params.fillInterval - old(availTick)) * params.increment;
                && availTick == now / params.fillInterval
                && avail == if refilled <= params.capacity then refilled else params.capacity
    {
      currentTick := now / params.fillInterval;
      if avail >= params.capacity {
        return;
      }
      avail := avail + (currentTick - availTick) * params.increment;
      if avail > params.capacity {
        avail := params.capacity;
      }
      availTick := currentTick;
    }

    /** Cal: the time to wait. It ends in the tick interval that closes with the release tick. */
    method Cal(n: int, now: nat) returns (wait: int)
      requires Valid()
      modifies this
      ensures Valid() && Now() == Next(params, old(Now()), Request(n, now))
      ensures n <= 0 || Left(params, old(Now()), Request(n, now)) >= 0 ==> wait == 0
      ensures n > 0 && Left(params, old(Now()), Request(n, now)) < 0 ==>
                var ahead := ReleaseTick(params, old(Now()), Request(n, now)) - Tick(params, now);
                (ahead - 1) * params.fillInterval < wait <= ahead * params.fillInterval
      ensures n > 0 && Left(params, old(Now()), Request(n, now)) < 0 ==>
                now + wait == ReleaseTick(params, old(Now()), Request(n, now)) * params.fillInterval
      ensures 0 < n <= params.capacity ==>
                old(avail) + (now / params.fillInterval - old(availTick)) * params.increment >= n ==> wait == 0
    {
      if n <= 0 {
        return 0;
      }
      var currentTick := Adjust(now);
      var left := avail - n;
      if left >= 0 {
        avail := left;
        return 0;
      }
      var endTick := currentTick + (-left) / params.increment;
      var endTime := endTick * params.fillInterval;
      wait := endTime - now;
      avail := left;
      WaitBounds(endTick, now, params.fillInterval);
    }
  }

  lemma WaitBounds(endTick: int, now: nat, interval: int)
    requires interval > 0
    ensures var c := now / interval;
            (endTick - c - 1) * interval < endTick * interval - now <= (endTick - c) * interval
  {
    var c := now / interval;
    assert now == c * interval + now % interval;
    assert (endTick - c) * interval == endTick * interval - c * interval;
    assert (endTick - c - 1) * interval == (endTick - c) * interval - interval;
  }

  /** NewBucketWithIncrement: no bucket for a non-positive argument. */
  method NewBucket(p: Params) returns (b: Bucket?)
    ensures b != null <==> ParamsOk(p)
    ensures b != null ==> fresh(b) && b.Valid() && b.params == p && b.Now() == State(p.capacity, 0)
  {
    if p.fillInterval <= 0 || p.capacity <= 0 || p.increment <= 0 {
      return null;
    }
    b := new Bucket(p);
  }

  // ----- runs -----

  /** Requests in the order they take the lock, the clock not going back. */
  predicate InOrder(rs: seq<Request>) {
    forall i, j | 0 <= i < j < |rs| :: rs[i].now <= rs[j].now
  }

  /** The state after the first k requests. */
  function After(p: Params, rs: seq<Request>, k: nat): State
    requires ParamsOk(p) && k <= |rs|
  {
    if k == 0 then State(p.capacity, 0) else Next(p, After(p, rs, k - 1), rs[k - 1])
  }

  /** The units charged by requests i up to but not including j. */
  function Charged(rs: seq<Request>, i: nat, j: nat): int
    requires i <= j <= |rs|
  {
    if i == j then 0 else Charged(rs, i, j - 1) + if rs[j - 1].n > 0 then rs[j - 1].n else 0
  }

  function ReleasedAt(p: Params, rs: seq<Request>, k: nat): int
    requires ParamsOk(p) && k < |rs|
  {
    ReleaseTick(p, After(p, rs, k), rs[k])
  }

  /** The units of those among the first k requests that have been let through by tick t. */
  function ReleasedBy(p: Params, rs: seq<Request>, k: nat, t: int): int
    requires ParamsOk(p) && k <= |rs|
  {
    if k == 0 then 0
    else ReleasedBy(p, rs, k - 1, t) + if rs[k - 1].n > 0 && ReleasedAt(p, rs, k - 1) <= t then rs[k - 1].n else 0
  }

  lemma TickMonotone(p: Params, a: nat, b: nat)
    requires ParamsOk(p) && a <= b
    ensures Tick(p, a) <= Tick(p, b)
  {
    var x, y, d := Tick(p, a), Tick(p, b), p.fillInterval;
    assert a == x * d + a % d && b == y * d + b % d;
    assert (y + 1) * d == y * d + d;
    if x > y {
      MulMonotone(y + 1, x, d);
    }
  }

  /** Refilling twice at the same tick is refilling once. */
  lemma AdjustTwice(p: Params, s: State, tick: int)
    ensures Adjusted(p, Adjusted(p, s, tick), tick) == Adjusted(p, s, tick)
  {
    var a := Adjusted(p, s, tick);
    if a.availTick == tick {
      assert (tick - a.availTick) * p.increment == 0;
    }
  }

  /** What every run keeps: never more than the capacity available, a refill tick no later than the clock. */
  lemma {:induction false} RunKeeps(p: Params, rs: seq<Request>, k: nat)
    requires ParamsOk(p) && InOrder(rs) && k <= |rs|
    ensures var s := After(p, rs, k);
            && s.avail <= p.capacity && s.availTick >= 0
            && forall j | k <= j < |rs| :: s.availTick <= Tick(p, rs[j].now)
  {
    if k > 0 {
      RunKeeps(p, rs, k - 1);
      forall j | k <= j < |rs|
        ensures Tick(p, rs[k - 1].now) <= Tick(p, rs[j].now)
      {
        TickMonotone(p, rs[k - 1].now, rs[j].now);
      }
    }
  }

  /** The debt a request leaves lasts until the tick after its release. */
  lemma DebtBound(left: int, increment: int)
    requires left < 0 && increment > 0
    ensures -left < ((-left) / increment + 1) * increment
  {
    var q := (-left) / increment;
    assert -left == q * increment + (-left) % increment;
    assert (q + 1) * increment == q * increment + increment;
  }

  lemma TicksBetween(x: int, y: int, z: int, increment: int)
    ensures (z - x) * increment == (y - x) * increment + (z - y) * increment
  {
  }

  /** The step both run bounds share: units charged plus units available grow by at most one increment
      for each tick the refill has counted, so a request stays below its release tick's allowance. */
  lemma StepBound(p: Params, s: State, r: Request, charged: int, allowance: int, from: int)
    requires ParamsOk(p) && r.n > 0 && s.availTick <= Tick(p, r.now)
    requires charged + s.avail <= allowance + (s.availTick - from) * p.increment
    ensures var x := Next(p, s, r);
            charged + r.n + x.avail <= allowance + (x.availTick - from) * p.increment
    ensures charged + r.n < allowance + (ReleaseTick(p, s, r) + 1 - from) * p.increment
  {
    var c := Tick(p, r.now);
    var a := Adjusted(p, s, c);
    var left := a.avail - r.n;
    var inc := p.increment;
    TicksBetween(from, s.availTick, c, inc);
    assert charged + a.avail <= allowance + (a.availTick - from) * inc;
    MulMonotone(a.availTick - from, c - from, inc);
    TicksBetween(from, c, ReleaseTick(p, s, r) + 1, inc);
    if left < 0 {
      DebtBound(left, inc);
    }
  }

  lemma {:induction false} ChargedPlusAvailable(p: Params, rs: seq<Request>, k: nat)
    requires ParamsOk(p) && InOrder(rs) && k <= |rs|
    ensures Charged(rs, 0, k) + After(p, rs, k).avail <= p.capacity + After(p, rs, k).availTick * p.increment
  {
    if k > 0 {
      ChargedPlusAvailable(p, rs, k - 1);
      RunKeeps(p, rs, k - 1);
      if rs[k - 1].n > 0 {
        StepBound(p, After(p, rs, k - 1), rs[k - 1], Charged(rs, 0, k - 1), p.capacity, 0);
      }
    }
  }

  /** Total: everything charged up to and including a request stays below the capacity plus one
      increment for each tick up to its release. */
  lemma TotalBound(p: Params, rs: seq<Request>, k: nat)
    requires ParamsOk(p) && InOrder(rs) && k < |rs| && rs[k].n > 0
    ensures Charged(rs, 0, k + 1) < p.capacity + (ReleasedAt(p, rs, k) + 1) * p.increment
  {
    ChargedPlusAvailable(p, rs, k);
    RunKeeps(p, rs, k);
    StepBound(p, After(p, rs, k), rs[k], Charged(rs, 0, k), p.capacity, 0);
  }

  lemma {:induction false} ReleasedAtMostCharged(p: Params, rs: seq<Request>, k: nat, t: int)
    requires ParamsOk(p) && k <= |rs|
    ensures 0 <= ReleasedBy(p, rs, k, t) <= Charged(rs, 0, k)
  {
    if k > 0 {
      ReleasedAtMostCharged(p, rs, k - 1, t);
    }
  }

  /** The units let through by tick t stay below the capacity plus t+1 increments, whatever the order of release. */
  lemma {:induction false} ReleasedBound(p: Params, rs: seq<Request>, k: nat, t: nat)
    requires ParamsOk(p) && InOrder(rs) && k <= |rs|
    ensures ReleasedBy(p, rs, k, t) < p.capacity + (t + 1) * p.increment
  {
    MulMonotone(1, t + 1, p.increment);
    if k == 0 {
    } else if rs[k - 1].n > 0 && ReleasedAt(p, rs, k - 1) <= t {
      TotalBound(p, rs, k - 1);
      ReleasedAtMostCharged(p, rs, k - 1, t);
      MulMonotone(ReleasedAt(p, rs, k - 1) + 1, t + 1, p.increment);
    } else {
      ReleasedBound(p, rs, k - 1, t);
    }
  }

  /** The request finds the bucket full, whose refill tick `adjust` then leaves behind. */
  predicate FullBehind(p: Params, s: State, r: Request)
    requires ParamsOk(p)
  {
    s.avail >= p.capacity && s.availTick < Tick(p, r.now)
  }

  predicate FoundBehind(p: Params, rs: seq<Request>, i: nat)
    requires ParamsOk(p) && i < |rs|
  {
    FullBehind(p, After(p, rs, i), rs[i])
  }

  /** What the window starting at request i may exceed: the capacity, and once more the units of request i
      when it found the bucket full and behind. */
  function Allowance(p: Params, rs: seq<Request>, i: nat): int
    requires ParamsOk(p) && i < |rs|
  {
    p.capacity + if FoundBehind(p, rs, i) then rs[i].n else 0
  }

  lemma Refilled(p: Params, s: State, r: Request)
    requires ParamsOk(p) && r.n > 0 && !FullBehind(p, s, r) && s.avail <= p.capacity && s.availTick <= Tick(p, r.now)
    ensures Next(p, s, r).availTick == Tick(p, r.now) && Next(p, s, r).avail + r.n <= p.capacity
  {
  }

  lemma WindowStart(p: Params, rs: seq<Request>, i: nat)
    requires ParamsOk(p) && InOrder(rs) && i < |rs| && rs[i].n > 0
    ensures var s, c := After(p, rs, i + 1), Tick(p, rs[i].now);
            && Charged(rs, i, i + 1) == rs[i].n
            && if FoundBehind(p, rs, i) then s.avail == p.capacity - rs[i].n
               else rs[i].n + s.avail <= p.capacity + (s.availTick - c) * p.increment
  {
    RunKeeps(p, rs, i);
    assert Charged(rs, i, i) == 0;
    if !FoundBehind(p, rs, i) {
      var x, c := After(p, rs, i + 1), Tick(p, rs[i].now);
      Refilled(p, After(p, rs, i), rs[i]);
      assert (x.availTick - c) * p.increment == 0 * p.increment;
    }
  }

  /** After request i either nothing was charged since, the bucket having been full, or the window's
      charges and the units available are within its allowance. */
  lemma {:induction false} WindowInvariant(p: Params, rs: seq<Request>, i: nat, k: nat)
    requires ParamsOk(p) && InOrder(rs) && i < k <= |rs| && rs[i].n > 0
    ensures var s, c := After(p, rs, k), Tick(p, rs[i].now);
            || (FoundBehind(p, rs, i) && s.avail == p.capacity - rs[i].n && Charged(rs, i, k) == rs[i].n)
            || Charged(rs, i, k) + s.avail <= Allowance(p, rs, i) + (s.availTick - c) * p.increment
  {
    if k == i + 1 {
      WindowStart(p, rs, i);
    } else {
      WindowInvariant(p, rs, i, k - 1);
      if rs[k - 1].n > 0 {
        WindowStep(p, rs, i, k - 1);
      }
    }
  }

  /** One more request in the window. */
  lemma WindowStep(p: Params, rs: seq<Request>, i: nat, k: nat)
    requires ParamsOk(p) && InOrder(rs) && i < k < |rs| && rs[i].n > 0 && rs[k].n > 0
    requires var s, c := After(p, rs, k), Tick(p, rs[i].now);
             || (FoundBehind(p, rs, i) && s.avail == p.capacity - rs[i].n && Charged(rs, i, k) == rs[i].n)
             || Charged(rs, i, k) + s.avail <= Allowance(p, rs, i) + (s.availTick - c) * p.increment
    ensures var x, c := After(p, rs, k + 1), Tick(p, rs[i].now);
            && Charged(rs, i, k + 1) + x.avail <= Allowance(p, rs, i) + (x.availTick - c) * p.increment
            && Charged(rs, i, k + 1) < Allowance(p, rs, i) + (ReleasedAt(p, rs, k) + 1 - c) * p.increment
  {
    var s, r, c := After(p, rs, k), rs[k], Tick(p, rs[i].now);
    RunKeeps(p, rs, k);
    if Charged(rs, i, k) + s.avail <= Allowance(p, rs, i) + (s.availTick - c) * p.increment {
      StepBound(p, s, r, Charged(rs, i, k), Allowance(p, rs, i), c);
    } else {
      // The first refill after the full bucket fills it at most up to its capacity.
      var a := Adjusted(p, s, Tick(p, r.now));
      TickMonotone(p, rs[i].now, r.now);
      MulMonotone(0, a.availTick - c, p.increment);
      AdjustTwice(p, s, Tick(p, r.now));
      StepBound(p, a, r, Charged(rs, i, k), Allowance(p, rs, i), c);
    }
  }

  /** Window: the units charged from request i through j stay below the capacity plus one increment for
      each tick from i's own to j's release, plus i's own units when i found the bucket full and behind. */
  lemma WindowBound(p: Params, rs: seq<Request>, i: nat, j: nat)
    requires ParamsOk(p) && InOrder(rs) && i <= j < |rs| && rs[i].n > 0 && rs[j].n > 0
    ensures Charged(rs, i, j + 1)
            < p.capacity + (if FoundBehind(p, rs, i) then rs[i].n else 0)
              + (ReleasedAt(p, rs, j) + 1 - Tick(p, rs[i].now)) * p.increment
    ensures rs[i].n <= p.capacity ==>
              Charged(rs, i, j + 1) < 2 * p.capacity + (ReleasedAt(p, rs, j) + 1 - Tick(p, rs[i].now)) * p.increment
  {
    if i < j {
      WindowInvariant(p, rs, i, j);
      WindowStep(p, rs, i, j);
    } else {
      SingleRequest(p, rs, i);
    }
  }

  /** Refilling first changes nothing of what a request does. */
  lemma RefillFirst(p: Params, s: State, r: Request)
    requires ParamsOk(p)
    ensures var a := Adjusted(p, s, Tick(p, r.now));
            ReleaseTick(p, a, r) == ReleaseTick(p, s, r) && (r.n > 0 ==> Next(p, a, r) == Next(p, s, r))
  {
    AdjustTwice(p, s, Tick(p, r.now));
  }

  lemma ReleasedLater(p: Params, s: State, r: Request)
    requires ParamsOk(p)
    ensures ReleaseTick(p, s, r) >= Tick(p, r.now)
  {
    var left := Left(p, s, r);
    if left < 0 {
      SmallDebt(-left, p.increment);
    }
  }

  lemma RefilledBound(p: Params, s: State, r: Request)
    requires ParamsOk(p) && r.n > 0 && !FullBehind(p, s, r) && s.avail <= p.capacity && s.availTick <= Tick(p, r.now)
    ensures r.n < p.capacity + (ReleaseTick(p, s, r) + 1 - Tick(p, r.now)) * p.increment
  {
    var c := Tick(p, r.now);
    var a := Adjusted(p, s, c);
    assert a.availTick == c && a.avail <= p.capacity + 0 * p.increment;
    RefillFirst(p, s, r);
    StepBound(p, a, r, 0, p.capacity, c);
  }

  /** The window of one request. */
  lemma SingleRequest(p: Params, rs: seq<Request>, i: nat)
    requires ParamsOk(p) && InOrder(rs) && i < |rs| && rs[i].n > 0
    ensures Charged(rs, i, i + 1) == rs[i].n
            < Allowance(p, rs, i) + (ReleasedAt(p, rs, i) + 1 - Tick(p, rs[i].now)) * p.increment
  {
    var s, r, c := After(p, rs, i), rs[i], Tick(p, rs[i].now);
    RunKeeps(p, rs, i);
    assert Charged(rs, i, i) == 0;
    if FoundBehind(p, rs, i) {
      ReleasedLater(p, s, r);
      MulMonotone(1, ReleasedAt(p, rs, i) + 1 - c, p.increment);
    } else {
      RefilledBound(p, s, r);
    }
  }

  /** Once a request has been charged the bucket is never full again when a request comes. */
  lemma {:induction false} NeverFullAgain(p: Params, rs: seq<Request>, i: nat, k: nat)
    requires ParamsOk(p) && i < k <= |rs| && rs[i].n > 0 && After(p, rs, i).avail <= p.capacity
    ensures After(p, rs, k).avail < p.capacity
  {
    if k > i + 1 {
      NeverFullAgain(p, rs, i, k - 1);
    }
  }

  /** The units charged from request i through j stay below one capacity and one increment for each tick
      from i's own to j's release. */
  predicate WithinOne(p: Params, rs: seq<Request>, i: nat, j: nat)
    requires ParamsOk(p) && i <= j < |rs|
  {
    Charged(rs, i, j + 1) < p.capacity + (ReleasedAt(p, rs, j) + 1 - Tick(p, rs[i].now)) * p.increment
  }

  lemma {:induction false} AfterPrefix(p: Params, rs: seq<Request>, more: seq<Request>, k: nat)
    requires ParamsOk(p) && k <= |rs|
    ensures After(p, rs + more, k) == After(p, rs, k)
  {
    if k > 0 {
      AfterPrefix(p, rs, more, k - 1);
    }
  }

  /** However the run goes on, every window from its last request on stays within one capacity. */
  ghost predicate AlwaysWithinOne(p: Params, rs: seq<Request>)
    requires ParamsOk(p) && rs != []
  {
    forall more: seq<Request>, j: nat | InOrder(rs + more) && |rs| - 1 <= j < |rs + more| && (rs + more)[j].n > 0 ::
      WithinOne(p, rs + more, |rs| - 1, j)
  }

  /** What to ask for at once, behind a request that found the bucket full and behind, to exceed one capacity. */
  function Excess(p: Params, s: State, r: Request): (next: Request)
    requires ParamsOk(p)
    ensures next.n > 0 && next.now == r.now
  {
    var left := Adjusted(p, Next(p, s, r), Tick(p, r.now)).avail + p.increment - 1;
    Request(if left > 0 then left else 1, r.now)
  }

  lemma ExcessReleased(p: Params, s: State, r: Request)
    requires ParamsOk(p)
    ensures var x, c := Next(p, s, r), Tick(p, r.now);
            var a := Adjusted(p, x, c).avail;
            (ReleaseTick(p, x, Excess(p, s, r)) - c) * p.increment <= if a + p.increment - 1 > 0 then 0 else 1 - a
  {
    var x, c, d := Next(p, s, r), Tick(p, r.now), p.increment;
    var left := Left(p, x, Excess(p, s, r));
    if left < 0 {
      SmallDebt(-left, d);
      assert -left == ((-left) / d) * d + (-left) % d;
    }
  }

  lemma ExcessExceeds(p: Params, s: State, r: Request)
    requires ParamsOk(p) && r.n > 0 && s.avail == p.capacity && FullBehind(p, s, r)
    ensures var next := Excess(p, s, r);
            r.n + next.n >= p.capacity + (ReleaseTick(p, Next(p, s, r), next) + 1 - Tick(p, r.now)) * p.increment
  {
    var x, c, d := Next(p, s, r), Tick(p, r.now), p.increment;
    var e := ReleaseTick(p, x, Excess(p, s, r));
    ExcessReleased(p, s, r);
    MulMonotone(1, c - s.availTick, d);
    assert (e + 1 - c) * d == (e - c) * d + d;
  }

  /** One capacity: in every run, however it goes on, the windows from a charging request on stay within
      one capacity exactly when the request did not find the bucket full and behind. */
  lemma WindowExactly(p: Params, rs: seq<Request>)
    requires ParamsOk(p) && InOrder(rs) && rs != [] && rs[|rs| - 1].n > 0
    ensures AlwaysWithinOne(p, rs) <==> !FoundBehind(p, rs, |rs| - 1)
  {
    var i := |rs| - 1;
    if FoundBehind(p, rs, i) {
      ExceedsOne(p, rs);
    } else {
      forall more: seq<Request>, j: nat | InOrder(rs + more) && i <= j < |rs + more| && (rs + more)[j].n > 0
        ensures WithinOne(p, rs + more, i, j)
      {
        AfterPrefix(p, rs, more, i);
        WindowBound(p, rs + more, i, j);
      }
    }
  }

  lemma ExceedsOne(p: Params, rs: seq<Request>)
    requires ParamsOk(p) && InOrder(rs) && rs != [] && rs[|rs| - 1].n > 0 && FoundBehind(p, rs, |rs| - 1)
    ensures !AlwaysWithinOne(p, rs)
  {
    var i, s := |rs| - 1, After(p, rs, |rs| - 1);
    var next := Excess(p, s, rs[i]);
    var all := rs + [next];
    RunKeeps(p, rs, i);
    ExcessExceeds(p, s, rs[i]);
    AfterPrefix(p, rs, [next], |rs|);
    assert all[i] == rs[i] && all[|rs|] == next && InOrder(all);
    assert Charged(all, i, i) == 0 && Charged(all, i, i + 1) == rs[i].n;
    assert !WithinOne(p, all, i, |rs|);
  }

  /** So only the window that starts at the first charging request can use a second capacity: every window
      after it stays within one. */
  lemma LaterWindow(p: Params, rs: seq<Request>, first: nat, i: nat, j: nat)
    requires ParamsOk(p) && InOrder(rs) && first < i <= j < |rs| && rs[first].n > 0 && rs[i].n > 0 && rs[j].n > 0
    ensures !FoundBehind(p, rs, i) && WithinOne(p, rs, i, j)
  {
    RunKeeps(p, rs, first);
    NeverFullAgain(p, rs, first, i);
    WindowBound(p, rs, i, j);
  }

  /** The second capacity of the window bound is really used: a bucket left full for a hundred ticks lets
      two whole capacities through at once. */
  lemma TwoCapacitiesAtOnce()
    ensures var p := Params(10, 1, 1);
            var rs := [Request(10, 100), Request(10, 100)];
            && FoundBehind(p, rs, 0) && ReleasedAt(p, rs, 1) == Tick(p, rs[0].now)
            && Charged(rs, 0, 2) == 20 > p.capacity + (ReleasedAt(p, rs, 1) + 1 - Tick(p, rs[0].now)) * p.increment
  {
    var p := Params(10, 1, 1);
    var rs := [Request(10, 100), Request(10, 100)];
    assert After(p, rs, 0) == State(10, 0);
    assert After(p, rs, 1) == State(0, 0);
    assert Charged(rs, 0, 0) == 0 && Charged(rs, 0, 1) == 10;
  }

  // ----- the refill from below -----

  /** The ticks gone by bring the bucket to its capacity, or past it. */
  predicate Fills(p: Params, s: State, r: Request)
    requires ParamsOk(p)
  {
    s.avail + (Tick(p, r.now) - s.availTick) * p.increment >= p.capacity
  }

  /** No request from i up to but not including j finds the bucket filled. */
  predicate NeverFills(p: Params, rs: seq<Request>, i: nat, j: nat)
    requires ParamsOk(p) && i <= j <= |rs|
  {
    forall k | i <= k < j && rs[k].n > 0 :: !Fills(p, After(p, rs, k), rs[k])
  }

  /** A bucket that does not fill is given one increment for every tick and loses what is asked for. */
  lemma RefilledInFull(p: Params, s: State, r: Request)
    requires ParamsOk(p) && r.n > 0 && !Fills(p, s, r) && s.availTick <= Tick(p, r.now)
    ensures Next(p, s, r) == State(s.avail + (Tick(p, r.now) - s.availTick) * p.increment - r.n, Tick(p, r.now))
  {
    MulMonotone(0, Tick(p, r.now) - s.availTick, p.increment);
  }

  /** Since the bucket had `avail` units at tick `start`, every tick was refilled and `charged` units were taken. */
  predicate Balanced(p: Params, s: State, avail: int, start: int, charged: int) {
    s.avail == avail + (s.availTick - start) * p.increment - charged
  }

  lemma BalanceStart(p: Params, s: State)
    ensures Balanced(p, s, s.avail, s.availTick, 0)
  {
    assert (s.availTick - s.availTick) * p.increment == 0;
  }

  lemma BalanceStep(p: Params, s: State, r: Request, avail: int, start: int, charged: int)
    requires ParamsOk(p) && s.availTick <= Tick(p, r.now) && (r.n > 0 ==> !Fills(p, s, r))
    requires Balanced(p, s, avail, start, charged)
    ensures Balanced(p, Next(p, s, r), avail, start, charged + if r.n > 0 then r.n else 0)
  {
    if r.n > 0 {
      RefilledInFull(p, s, r);
      TicksBetween(start, s.availTick, Tick(p, r.now), p.increment);
    }
  }

  lemma BalanceWithout(p: Params, s: State, avail: int, n: int, start: int, charged: int)
    requires Balanced(p, s, avail - n, start, charged)
    ensures Balanced(p, s, avail, start, n + charged)
  {
  }

  lemma {:induction false} StretchBalance(p: Params, rs: seq<Request>, i: nat, j: nat)
    requires ParamsOk(p) && InOrder(rs) && i <= j <= |rs| && NeverFills(p, rs, i, j)
    ensures var s := After(p, rs, i); Balanced(p, After(p, rs, j), s.avail, s.availTick, Charged(rs, i, j))
  {
    var s := After(p, rs, i);
    if i < j {
      StretchBalance(p, rs, i, j - 1);
      RunKeeps(p, rs, j - 1);
      BalanceStep(p, After(p, rs, j - 1), rs[j - 1], s.avail, s.availTick, Charged(rs, i, j - 1));
    } else {
      BalanceStart(p, s);
    }
  }

  /** A request that leaves a debt is let through at the tick that counts off what it leaves. */
  lemma DebtCounted(p: Params, c: int, left: int, start: int)
    requires ParamsOk(p) && left < 0
    ensures var e := c + (-left) / p.increment;
            (e - start) * p.increment <= (c - start) * p.increment - left < (e + 1 - start) * p.increment
  {
    var d := p.increment;
    var q := (-left) / d;
    assert -left == q * d + (-left) % d;
    TicksBetween(start, c, c + q, d);
    TicksBetween(start, c + q, c + q + 1, d);
  }

  /** From `avail` units at tick `start`, tick e is the last by which no more than the charged units have been
      refilled: one tick more would pass them. */
  predicate PaidOffAt(p: Params, e: int, avail: int, start: int, charged: int) {
    avail + (e - start) * p.increment <= charged < avail + (e + 1 - start) * p.increment
  }

  lemma DebtReleased(p: Params, s: State, r: Request, avail: int, start: int, charged: int)
    requires ParamsOk(p) && r.n > 0 && !Fills(p, s, r) && s.availTick <= Tick(p, r.now)
    requires Next(p, s, r).avail < 0 && Balanced(p, Next(p, s, r), avail, start, charged)
    ensures PaidOffAt(p, ReleaseTick(p, s, r), avail, start, charged)
  {
    RefilledInFull(p, s, r);
    DebtCounted(p, Tick(p, r.now), Next(p, s, r).avail, start);
  }

  lemma FilledReleased(p: Params, s: State, r: Request)
    requires ParamsOk(p) && r.n > p.capacity && s.avail <= p.capacity && Fills(p, s, r)
    ensures PaidOffAt(p, ReleaseTick(p, s, r), p.capacity, Tick(p, r.now), r.n)
  {
    DebtCounted(p, Tick(p, r.now), p.capacity - r.n, Tick(p, r.now));
  }

  /** While the bucket does not fill, every tick counts: a request in debt is let through exactly when the units
      charged since request i, those then available taken off, have been refilled at one increment a tick. */
  lemma StretchExactly(p: Params, rs: seq<Request>, i: nat, j: nat)
    requires ParamsOk(p) && InOrder(rs) && i <= j < |rs| && NeverFills(p, rs, i, j + 1)
    requires rs[j].n > 0 && After(p, rs, j + 1).avail < 0
    ensures var s := After(p, rs, i); PaidOffAt(p, ReleasedAt(p, rs, j), s.avail, s.availTick, Charged(rs, i, j + 1))
  {
    StretchBalance(p, rs, i, j + 1);
    RunKeeps(p, rs, j);
    var s := After(p, rs, i);
    DebtReleased(p, After(p, rs, j), rs[j], s.avail, s.availTick, Charged(rs, i, j + 1));
  }

  /** The refill tick a filled bucket is left with: the one it had when it was full before. */
  function FilledTick(p: Params, s: State, r: Request): int
    requires ParamsOk(p)
  {
    if s.avail >= p.capacity then s.availTick else Tick(p, r.now)
  }

  lemma {:induction false} NothingYet(p: Params, rs: seq<Request>, k: nat)
    requires ParamsOk(p) && k <= |rs| && forall j | 0 <= j < k :: rs[j].n <= 0
    ensures After(p, rs, k) == State(p.capacity, 0)
  {
    if k > 0 {
      NothingYet(p, rs, k - 1);
    }
  }

  /** The first charging request finds the bucket as it was made. */
  lemma FirstFills(p: Params, rs: seq<Request>, k: nat)
    requires ParamsOk(p) && k < |rs| && forall j | 0 <= j < k :: rs[j].n <= 0
    ensures Fills(p, After(p, rs, k), rs[k])
  {
    NothingYet(p, rs, k);
    FloorMonotone(0, rs[k].now, p.fillInterval);
    ModUnique(0, 0, 0, p.fillInterval);
    MulMonotone(0, Tick(p, rs[k].now), p.increment);
  }

  lemma FilledNext(p: Params, s: State, r: Request)
    requires ParamsOk(p) && r.n > 0 && s.avail <= p.capacity && Fills(p, s, r)
    ensures Next(p, s, r) == State(p.capacity - r.n, FilledTick(p, s, r))
  {
  }

  /** Request i is the last one before k to find the bucket filled. */
  predicate IsLastFilled(p: Params, rs: seq<Request>, i: nat, k: nat)
    requires ParamsOk(p) && k <= |rs|
  {
    i < k && rs[i].n > 0 && Fills(p, After(p, rs, i), rs[i]) && NeverFills(p, rs, i + 1, k)
  }

  lemma {:induction false} LastFilled(p: Params, rs: seq<Request>, k: nat) returns (i: nat)
    requires ParamsOk(p) && k <= |rs| && exists j | 0 <= j < k :: rs[j].n > 0
    ensures IsLastFilled(p, rs, i, k)
  {
    i := k - 1;
    if rs[i].n <= 0 || !Fills(p, After(p, rs, i), rs[i]) {
      if forall j | 0 <= j < k - 1 :: rs[j].n <= 0 {
        FirstFills(p, rs, k - 1);
        assert false;
      }
      i := LastFilled(p, rs, k - 1);
    }
  }

  /** What has become of the bucket since it was last filled. */
  lemma SinceFilled(p: Params, rs: seq<Request>, i: nat, k: nat)
    requires ParamsOk(p) && InOrder(rs) && k <= |rs| && IsLastFilled(p, rs, i, k)
    ensures Balanced(p, After(p, rs, k), p.capacity, FilledTick(p, After(p, rs, i), rs[i]), Charged(rs, i, k))
  {
    var since := FilledTick(p, After(p, rs, i), rs[i]);
    RunKeeps(p, rs, i);
    FilledNext(p, After(p, rs, i), rs[i]);
    StretchBalance(p, rs, i + 1, k);
    BalanceWithout(p, After(p, rs, k), p.capacity, rs[i].n, since, Charged(rs, i + 1, k));
    ChargedFrom(rs, i, k);
  }

  lemma {:induction false} ChargedFrom(rs: seq<Request>, i: nat, k: nat)
    requires i < k <= |rs| && rs[i].n > 0
    ensures Charged(rs, i, k) == rs[i].n + Charged(rs, i + 1, k)
  {
    if k > i + 1 {
      ChargedFrom(rs, i, k - 1);
    } else {
      assert Charged(rs, i, i) == 0 && Charged(rs, i + 1, k) == 0;
    }
  }

  lemma ReleasedWhenFilled(p: Params, rs: seq<Request>, j: nat)
    requires ParamsOk(p) && j < |rs| && rs[j].n > 0 && After(p, rs, j).avail <= p.capacity
    requires Fills(p, After(p, rs, j), rs[j]) && After(p, rs, j + 1).avail < 0
    ensures PaidOffAt(p, ReleasedAt(p, rs, j), p.capacity, Tick(p, rs[j].now), Charged(rs, j, j + 1))
  {
    FilledNext(p, After(p, rs, j), rs[j]);
    FilledReleased(p, After(p, rs, j), rs[j]);
    assert Charged(rs, j, j) == 0 && Charged(rs, j, j + 1) == rs[j].n;
  }

  /** Exact release: in every run a request in debt is let through at the one tick by which the units charged since the
      bucket was last filled, less its capacity, have been refilled: not a tick later and not a tick before. */
  lemma ReleasedExactly(p: Params, rs: seq<Request>, j: nat) returns (i: nat)
    requires ParamsOk(p) && InOrder(rs) && j < |rs| && rs[j].n > 0 && After(p, rs, j + 1).avail < 0
    ensures IsLastFilled(p, rs, i, j + 1)
    ensures var since := if i == j then Tick(p, rs[j].now) else FilledTick(p, After(p, rs, i), rs[i]);
            PaidOffAt(p, ReleasedAt(p, rs, j), p.capacity, since, Charged(rs, i, j + 1))
  {
    i := LastFilled(p, rs, j + 1);
    RunKeeps(p, rs, j);
    if i == j {
      ReleasedWhenFilled(p, rs, j);
    } else {
      SinceFilled(p, rs, i, j + 1);
      var since := FilledTick(p, After(p, rs, i), rs[i]);
      DebtReleased(p, After(p, rs, j), rs[j], p.capacity, since, Charged(rs, i, j + 1));
    }
  }

  // ----- order of release -----

  lemma FloorShift(y: int, k: int, d: int)
    requires d > 0
    ensures (y + k * d) / d == y / d + k
  {
    var q, m := y / d, y % d;
    assert y + k * d == (q + k) * d + m;
    ModUnique(y + k * d, q + k, m, d);
  }

  lemma FloorMonotone(x: int, y: int, d: int)
    requires d > 0 && x <= y
    ensures x / d <= y / d
  {
    var e, f := x / d, y / d;
    assert x == e * d + x % d && y == f * d + y % d;
    assert (f + 1) * d == f * d + d;
    if f < e {
      MulMonotone(f + 1, e, d);
    }
  }

  /** Whatever comes after a debt, its release tick is at least what one more unit would get at once. */
  lemma LeastRelease(p: Params, x: State, next: Request)
    requires ParamsOk(p) && next.n > 0 && x.avail < p.capacity
    ensures ReleaseTick(p, x, next) >= Tick(p, next.now)
    ensures ReleaseTick(p, x, next) >= x.availTick + (-x.avail + 1) / p.increment
  {
    var c, d := Tick(p, next.now), p.increment;
    var k := x.availTick - c;
    var left := Left(p, x, next);
    assert (c - x.availTick) * d == -(k * d);
    FloorMonotone(-x.avail + 1 + k * d, -left, d);
    FloorShift(-x.avail + 1, k, d);
    ModUnique(0, 0, 0, d);
    if left < 0 {
      FloorMonotone(0, -left, d);
    } else {
      FloorMonotone(-left, 0, d);
    }
  }

  /** A request that found a full bucket and went into debt by at least one increment while the refill
      tick was behind: the ticks it skipped are counted again and may let a later request overtake it. */
  predicate Overtakable(p: Params, s: State, r: Request)
    requires ParamsOk(p)
  {
    var c, debt := Tick(p, r.now), r.n - s.avail;
    && s.avail >= p.capacity && debt >= p.increment
    && (c - s.availTick > 1 || (c - s.availTick == 1 && (debt + 1) % p.increment != 0))
  }

  /** Order: after a charging request the next one cannot be let through at an earlier tick, exactly when
      the request is not overtakable; in particular whenever it left the refill tick at its own tick. */
  lemma ReleaseOrder(p: Params, s: State, r: Request)
    requires ParamsOk(p) && r.n > 0 && s.avail <= p.capacity && s.availTick <= Tick(p, r.now)
    ensures (forall next: Request | next.n > 0 && next.now >= r.now ::
               ReleaseTick(p, Next(p, s, r), next) >= ReleaseTick(p, s, r))
            <==> !Overtakable(p, s, r)
    ensures Next(p, s, r).availTick == Tick(p, r.now) ==> !Overtakable(p, s, r)
  {
    var c, d, x, e := Tick(p, r.now), p.increment, Next(p, s, r), ReleaseTick(p, s, r);
    var t, debt := x.availTick, -x.avail;
    DivNext(debt, d);
    if !Overtakable(p, s, r) {
      forall next: Request | next.n > 0 && next.now >= r.now
        ensures ReleaseTick(p, x, next) >= e
      {
        TickMonotone(p, r.now, next.now);
        LeastRelease(p, x, next);
        if debt > 0 {
          SmallDebt(debt, d);
        }
      }
    } else {
      var next := Request(1, r.now);
      SmallDebt(debt, d);
      FloorShift(debt + 1, t - c, d);
      assert (c - t) * d == -((t - c) * d);
      assert ReleaseTick(p, x, next) < e;
    }
  }

  /** Whatever has been charged since, a further request is not let through before request i. */
  lemma {:induction false} NoneEarlier(p: Params, rs: seq<Request>, i: nat, k: nat, next: Request)
    requires ParamsOk(p) && InOrder(rs) && i < k <= |rs| && rs[i].n > 0 && !Overtakable(p, After(p, rs, i), rs[i])
    requires next.n > 0 && forall m | 0 <= m < k :: rs[m].now <= next.now
    ensures ReleaseTick(p, After(p, rs, k), next) >= ReleasedAt(p, rs, i)
  {
    var r := rs[k - 1];
    RunKeeps(p, rs, k - 1);
    if r.n > 0 {
      if k > i + 1 {
        RunKeeps(p, rs, i);
        NeverFullAgain(p, rs, i, k - 1);
        NoneEarlier(p, rs, i, k - 1, r);
      }
      ReleaseOrder(p, After(p, rs, k - 1), r);
    } else {
      NoneEarlier(p, rs, i, k - 1, next);
    }
  }

  /** However the run goes on after its last request, no charging request is let through before it. */
  ghost predicate NeverOvertaken(p: Params, rs: seq<Request>)
    requires ParamsOk(p) && rs != []
  {
    forall more: seq<Request>, j: nat | InOrder(rs + more) && |rs| <= j < |rs + more| && (rs + more)[j].n > 0 ::
      ReleasedAt(p, rs + more, j) >= ReleasedAt(p, rs, |rs| - 1)
  }

  /** Order over runs: in every run, however it goes on, no later request is let through before a charging
      one, exactly when that one is not overtakable where it stands. */
  lemma OrderOverRuns(p: Params, rs: seq<Request>)
    requires ParamsOk(p) && InOrder(rs) && rs != [] && rs[|rs| - 1].n > 0
    ensures NeverOvertaken(p, rs) <==> !Overtakable(p, After(p, rs, |rs| - 1), rs[|rs| - 1])
  {
    var i := |rs| - 1;
    var s := After(p, rs, i);
    RunKeeps(p, rs, i);
    if !Overtakable(p, s, rs[i]) {
      forall more: seq<Request>, j: nat | InOrder(rs + more) && |rs| <= j < |rs + more| && (rs + more)[j].n > 0
        ensures ReleasedAt(p, rs + more, j) >= ReleasedAt(p, rs, i)
      {
        AfterPrefix(p, rs, more, i);
        NoneEarlier(p, rs + more, i, j, (rs + more)[j]);
      }
    } else {
      ReleaseOrder(p, s, rs[i]);
      var next: Request :| next.n > 0 && next.now >= rs[i].now
                           && ReleaseTick(p, Next(p, s, rs[i]), next) < ReleaseTick(p, s, rs[i]);
      var all := rs + [next];
      AfterPrefix(p, rs, [next], |rs|);
      assert all[|rs|] == next && InOrder(all);
      assert ReleasedAt(p, all, |rs|) < ReleasedAt(p, rs, i);
    }
  }

  /** In one run: after a charging request that is not overtakable no later one is let through earlier. */
  lemma ReleasedInOrder(p: Params, rs: seq<Request>, i: nat, j: nat)
    requires ParamsOk(p) && InOrder(rs) && i < j < |rs| && rs[i].n > 0 && rs[j].n > 0
    requires !Overtakable(p, After(p, rs, i), rs[i])
    ensures ReleasedAt(p, rs, j) >= ReleasedAt(p, rs, i)
  {
    NoneEarlier(p, rs, i, j, rs[j]);
  }

  /** An overtaken request: a bucket left full for a hundred ticks, thirty units of which twenty are debt,
      to be let through at tick 120, and one unit at once, let through at tick 100. */
  lemma Overtaken()
    ensures var p, rs := Params(10, 1, 1), [Request(30, 100), Request(1, 100)];
            && Overtakable(p, After(p, rs, 0), rs[0])
            && ReleasedAt(p, rs, 0) == 120 && ReleasedAt(p, rs, 1) == 100
  {
    var p, rs := Params(10, 1, 1), [Request(30, 100), Request(1, 100)];
    assert After(p, rs, 0) == State(10, 0);
    assert After(p, rs, 1) == State(-20, 0);
  }

  lemma SmallDebt(debt: int, d: int)
    requires d > 0 && debt >= 0
    ensures debt / d >= 0 && (debt < d <==> debt / d == 0)
  {
    ModUnique(0, 0, 0, d);
    FloorMonotone(0, debt, d);
    if debt < d {
      ModUnique(debt, 0, debt, d);
    } else {
      ModUnique(d, 1, 0, d);
      FloorMonotone(d, debt, d);
    }
  }

  lemma DivNext(y: int, d: int)
    requires d > 0
    ensures (y + 1) / d == y / d + if (y + 1) % d == 0 then 1 else 0
  {
    var q, m := y / d, y % d;
    assert y == q * d + m;
    if m == d - 1 {
      assert y + 1 == (q + 1) * d + 0;
      ModUnique(y + 1, q + 1, 0, d);
    } else {
      ModUnique(y + 1, q, m + 1, d);
    }
  }

  // ----- the search for an increment -----

  const MAX_INCREMENT: int := 0x4_0000_0000_0000  // 1<<50

  /** nextIncrement, and nextDecrement of the leaky bucket: a tenth more, at least one. */
  function NextIncrement(i: int): int {
    var x := i * 11 / 10;
    if x == i then x + 1 else x
  }

  lemma NextGrows(i: int)
    requires i >= 1
    ensures NextIncrement(i) > i
  {
  }

  /** One more below ten, and from there on eleven tenths rounded down. */
  lemma ATenthMore(i: int)
    requires i >= 1
    ensures var x := NextIncrement(i); if i < 10 then x == i + 1 else 10 * x <= 11 * i < 10 * (x + 1)
  {
    if i >= 10 {
      assert i * 11 / 10 == i + i / 10;
    }
  }

  function Iterate(i: int, k: nat): int {
    if k == 0 then i else NextIncrement(Iterate(i, k - 1))
  }

  lemma {:induction false} IterateSum(i: int, a: nat, b: nat)
    ensures Iterate(i, a + b) == Iterate(Iterate(i, a), b)
  {
    if b > 0 {
      IterateSum(i, a, b - 1);
      assert a + b - 1 == a + (b - 1);
    }
  }

  /** From v on, k steps add at least k times a tenth of v, and at least k. */
  lemma {:induction false} Grows(v: int, g: int, k: nat)
    requires v >= 1 && 10 * g <= v
    ensures Iterate(v, k) >= v + k * g && Iterate(v, k) >= v + k
  {
    if k > 0 {
      Grows(v, g, k - 1);
      var w := Iterate(v, k - 1);
      assert w * 11 / 10 == w + w / 10;
      assert k * g == (k - 1) * g + g;
      if g < 0 {
        assert k * g <= k;
      } else {
        MulMonotone(0, k - 1, g);
      }
    }
  }

  lemma Tenths(q: int, r: int)
    requires q >= 1 && 0 <= r < 10
    ensures (10 - r) * q >= 10 - r && (10 - r) * q + r * (q + 1) == 10 * q + r
  {
    MulMonotone(1, q, 10 - r);
    assert (10 - r) * q == 10 * q - r * q;
    assert r * (q + 1) == r * q + r;
  }

  /** Ten steps at least double the increment. */
  lemma TenStepsDouble(i: int, ten: nat)
    requires i >= 1 && ten == 10
    ensures Iterate(i, ten) >= 2 * i
  {
    var q, r := i / 10, i % 10;
    var first := ten - r;
    if q == 0 {
      Grows(i, 0, ten);
    } else {
      Grows(i, q, first);
      Tenths(q, r);
      IterateSum(i, first, r);
      Grows(Iterate(i, first), q + 1, r);
    }
  }

  function Pow2(k: nat): int {
    if k == 0 then 1 else 2 * Pow2(k - 1)
  }

  lemma {:induction false} GrowsByPowers(k: nat, n: nat)
    requires n >= 10 * k
    ensures Iterate(1, n) >= Pow2(k) >= 1
  {
    if k == 0 {
      Grows(1, 0, n);
    } else {
      GrowsByPowers(k - 1, n - 10);
      IterateSum(1, n - 10, 10);
      TenStepsDouble(Iterate(1, n - 10), 10);
    }
  }

  lemma Squared(a: nat, b: nat, x: int)
    requires Pow2(a) == x && b == 2 * a
    ensures Pow2(b) == x * x
  {
    PowSum(a, a);
  }

  lemma FiftyOne(k: nat)
    requires k == 51
    ensures Pow2(k) == 2 * MAX_INCREMENT
  {
    var two, four := k - 49, k - 47;
    assert Pow2(two - 1) == 2 && Pow2(two) == 4 && Pow2(two + 1) == 8;
    Squared(two, four, 4);
    Squared(four, k - 43, 16);
    Squared(k - 43, k - 35, 0x100);
    PowSum(k - 35, k - 35);
    PowSum(k - 19, k - 35);
    PowSum(k - 3, two + 1);
  }

  lemma PastTheLimit(n: nat, k: nat)
    requires k == 51 && n >= 10 * k
    ensures Iterate(1, n) > MAX_INCREMENT
  {
    GrowsByPowers(k, n);
    FiftyOne(k);
  }

  lemma {:induction false} PowSum(a: nat, b: nat)
    ensures Pow2(a + b) == Pow2(a) * Pow2(b)
  {
    if b > 0 {
      PowSum(a, b - 1);
      assert Pow2(a) * Pow2(b) == 2 * (Pow2(a) * Pow2(b - 1));
    }
  }

  /** How the search ends: without an increment, with one, or with the nil bucket that an increment makes
      when its fill interval or the capacity is not positive, which the margin test then dereferences. */
  datatype Found = Nothing | Increment(value: int) | NilBucket(value: int)

  /** What the floating-point part of the loop is given: `fill` for 1e9*increment/rate, and `close` for
      the margin test of the bucket made. */
  datatype Rate = Rate(fill: int -> real, close: int -> bool, capacity: int)

  function BucketFor(rate: Rate, increment: int): Params {
    Params(rate.capacity, rate.fill(increment).Floor, increment)
  }

  /** The loop goes on after this increment. */
  predicate Passed(rate: Rate, increment: int) {
    rate.fill(increment) < 0.0 || (ParamsOk(BucketFor(rate, increment)) && !rate.close(increment))
  }

  /** x is the first iterate the loop does not pass, after k it does. */
  ghost predicate FirstStop(rate: Rate, k: nat, x: int) {
    x == Iterate(1, k) <= MAX_INCREMENT && !Passed(rate, x) && forall j: nat | j < k :: Passed(rate, Iterate(1, j))
  }

  lemma BeyondStays(k: nat, j: nat)
    requires j >= k && Iterate(1, k) > MAX_INCREMENT
    ensures Iterate(1, j) > MAX_INCREMENT
  {
    IterateSum(1, k, j - k);
    Grows(Iterate(1, k), 0, j - k);
  }

  /** The loop of NewBucketWithRate, for any floating-point arithmetic: it ends at the first iterate of
      nextIncrement that it does not pass, with a bucket when the test accepts it and with a nil
      dereference exactly when there is no bucket to test, or with nothing when it passes all up to the
      limit; `tried` counts the passes. */
  method SearchIncrement(rate: Rate) returns (found: Found, ghost tried: nat)
    ensures tried <= 510
    ensures match found
            case Increment(x) =>
              (exists k: nat :: k <= 510 && FirstStop(rate, k, x)) && ParamsOk(BucketFor(rate, x)) && rate.close(x)
            case NilBucket(x) =>
              (exists k: nat :: k <= 510 && FirstStop(rate, k, x)) && !ParamsOk(BucketFor(rate, x))
            case Nothing => forall j: nat | Iterate(1, j) <= MAX_INCREMENT :: Passed(rate, Iterate(1, j))
  {
    var increment := 1;
    tried := 0;
    while increment <= MAX_INCREMENT
      invariant increment == Iterate(1, tried) >= 1 && tried <= 510
      invariant forall j: nat | j < tried :: Passed(rate, Iterate(1, j))
      decreases 510 - tried
    {
      if tried == 510 {
        PastTheLimit(tried, 51);
      }
      var fillInterval := rate.fill(increment);
      if fillInterval >= 0.0 {
        var b := NewBucket(Params(rate.capacity, fillInterval.Floor, increment));
        if b == null {
          assert FirstStop(rate, tried, increment);
          return NilBucket(increment), tried;
        }
        if rate.close(increment) {
          assert FirstStop(rate, tried, increment);
          return Increment(increment), tried;
        }
      }
      NextGrows(increment);
      assert Iterate(1, tried + 1) == NextIncrement(increment);
      increment := NextIncrement(increment);
      tried := tried + 1;
    }
    forall j: nat | Iterate(1, j) <= MAX_INCREMENT
      ensures Passed(rate, Iterate(1, j))
    {
      if j >= tried {
        BeyondStays(tried, j);
      }
    }
    return Nothing, tried;
  }

  /** 1e9*increment/rate, were it not rounded. */
  function FillInterval(rate: real, increment: int): real
    requires rate != 0.0
  {
    1_000_000_000.0 * increment as real / rate
  }

  lemma AtLeastOne(x: real, d: real)
    requires d > 0.0 && x * d >= d
    ensures x >= 1.0
  {
    assert (1.0 - x) * d == d - x * d;
  }

  lemma FillAtLeast(rate: real, i: int)
    requires rate != 0.0 && i >= 1
    ensures rate < 0.0 ==> FillInterval(rate, i) < 0.0
    ensures 0.0 < rate <= 1_000_000_000.0 ==> FillInterval(rate, i) >= 1.0
    ensures rate > 1_000_000_000.0 ==> 0.0 < FillInterval(rate, 1) < 1.0
  {
    var fill, first := FillInterval(rate, i), FillInterval(rate, 1);
    assert fill * rate == 1_000_000_000.0 * i as real >= 1_000_000_000.0;
    assert first * rate == 1_000_000_000.0;
    if 0.0 < rate <= 1_000_000_000.0 {
      AtLeastOne(fill, rate);
    }
  }

  /** NewBucketWithRate: the search dereferences a nil bucket exactly when more than one unit is due each
      nanosecond or the capacity is not positive, and then at the first increment; a negative rate gives
      no bucket. */
  method SearchAtRate(rate: real, close: int -> bool, capacity: int) returns (found: Found)
    requires rate != 0.0
    ensures found.NilBucket? <==> rate > 0.0 && (rate > 1_000_000_000.0 || capacity <= 0)
    ensures found.NilBucket? ==> found.value == 1
    ensures rate < 0.0 ==> found == Nothing
  {
    var all := Rate(i => FillInterval(rate, i), close, capacity);
    StopsAtOnce(rate, all);
    ghost var tried;
    found, tried := SearchIncrement(all);
    if found != Nothing {
      ghost var k: nat :| k <= 510 && FirstStop(all, k, found.value);
      Grows(1, 0, k);
      FillAtLeast(rate, found.value);
      if rate > 0.0 && (rate > 1_000_000_000.0 || capacity <= 0) {
        assert k == 0;
      }
    }
  }

  /** With a nil bucket at all there is one at the first increment. */
  lemma StopsAtOnce(rate: real, all: Rate)
    requires rate != 0.0 && forall i :: all.fill(i) == FillInterval(rate, i)
    ensures rate > 0.0 && (rate > 1_000_000_000.0 || all.capacity <= 0) ==>
              FirstStop(all, 0, 1) && !ParamsOk(BucketFor(all, 1))
  {
    FillAtLeast(rate, 1);
  }

  /** For one, at two units a nanosecond, whose first interval is half a nanosecond. */
  method TwoEachNanosecond(close: int -> bool, capacity: int) returns (found: Found)
    ensures found == NilBucket(1)
  {
    found := SearchAtRate(2_000_000_000.0, close, capacity);
  }
}
