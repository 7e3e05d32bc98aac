/** Timer tasks: one creator per task type, any number of running tasks, and other users of the shared
    id counter, interleaved step by step. Checking the pool and inserting into it are two separate
    critical sections. */
module Timers {
  import opened Numbers

  /** The int32 that holds a count of increments from zero. */
  function Wrap32(n: nat): (id: int)
    ensures -0x8000_0000 <= id < 0x8000_0000
  {
    (n + 0x8000_0000) % TWO_32 - 0x8000_0000
  }

  /** Allocated: the id is taken. Inserted: in the pool. Launched: `go Run` was executed. */
  datatype Phase = Allocated | Inserted | Launched | Running | Finished | Gone

  /** `number` counts the id allocations up to this task's own; the id is its int32 image. */
  datatype Task = Task(ty: int, number: nat, id: int, singleton: bool, phase: Phase)

  /** The only goroutine that creates tasks of a type: first timerTaskServe, once and unchecked, then
      the type's ticker loop. */
  datatype Creator = First | Idle | Cleared | Inserting(n: nat) | Launching(n: nat)

  /** `handles` tells which registered types are singletons; `made` counts id allocations. */
  datatype State = State(
    handles: map<int, bool>, made: nat, tasks: seq<Task>, pool: map<int, nat>, creators: map<int, Creator>)

  datatype Step =
    | Tick(ty: int)
    | Alloc(ty: int)
    | Insert(ty: int)
    | Launch(ty: int)
    | Start(n: nat)
    | End(n: nat)
    | Delete(n: nat)
    | Foreign(k: nat)

  // ----- the steps -----

  /** What the ticker loop looks for under the lock. */
  predicate Blocks(s: State, n: nat, ty: int) {
    n < |s.tasks| && s.tasks[n].ty == ty && s.tasks[n].singleton
  }

  predicate IsRunning(s: State, ty: int) {
    exists id | id in s.pool :: Blocks(s, s.pool[id], ty)
  }

  predicate At(s: State, n: nat, phase: Phase) {
    n < |s.tasks| && s.tasks[n].phase == phase
  }

  predicate Can(s: State, e: Step) {
    match e
    case Tick(ty) => ty in s.creators && s.creators[ty] == Idle
    case Alloc(ty) => ty in s.creators && ty in s.handles && (s.creators[ty] == First || s.creators[ty] == Cleared)
    case Insert(ty) => ty in s.creators && s.creators[ty].Inserting? && s.creators[ty].n < |s.tasks|
    case Launch(ty) => ty in s.creators && s.creators[ty].Launching? && s.creators[ty].n < |s.tasks|
    case Start(n) => At(s, n, Launched)
    case End(n) => At(s, n, Running)
    case Delete(n) => At(s, n, Finished)
    case Foreign(_) => true
  }

  function SetPhase(s: State, n: nat, phase: Phase): State
    requires n < |s.tasks|
  {
    s.(tasks := s.tasks[n := s.tasks[n].(phase := phase)])
  }

  function DoAlloc(s: State, ty: int): State
    requires Can(s, Alloc(ty))
  {
    var number := s.made + 1;
    s.(made := number,
       tasks := s.tasks + [Task(ty, number, Wrap32(number), s.handles[ty], Allocated)],
       creators := s.creators[ty := Inserting(|s.tasks|)])
  }

  function DoInsert(s: State, ty: int): State
    requires Can(s, Insert(ty))
  {
    var n := s.creators[ty].n;
    SetPhase(s, n, Inserted).(pool := s.pool[s.tasks[n].id := n], creators := s.creators[ty := Launching(n)])
  }

  function Do(s: State, e: Step): State
    requires Can(s, e)
  {
    match e
    case Tick(ty) => if IsRunning(s, ty) then s else s.(creators := s.creators[ty := Cleared])
    case Alloc(ty) => DoAlloc(s, ty)
    case Insert(ty) => DoInsert(s, ty)
    case Launch(ty) => SetPhase(s, s.creators[ty].n, Launched).(creators := s.creators[ty := Idle])
    case Start(n) => SetPhase(s, n, Running)
    case End(n) => SetPhase(s, n, Finished)
    case Delete(n) => SetPhase(s, n, Gone).(pool := s.pool - {s.tasks[n].id})
    case Foreign(k) => s.(made := s.made + k)
  }

  // ----- ids -----

  /** Two counts have the same id exactly when they differ by a multiple of 2^32. */
  lemma SameId(a: nat, b: nat)
    ensures Wrap32(a) == Wrap32(b) <==> (a - b) % TWO_32 == 0
  {
    var x, y := a + 0x8000_0000, b + 0x8000_0000;
    assert x == TWO_32 * (x / TWO_32) + x % TWO_32 && y == TWO_32 * (y / TWO_32) + y % TWO_32;
    var d := x / TWO_32 - y / TWO_32;
    assert a - b == TWO_32 * d + (x % TWO_32 - y % TWO_32);
  }

  /** The id is the count itself while that fits an int32, and then the int32 that differs by a multiple of 2^32. */
  lemma IdOfCount(n: nat)
    ensures -0x8000_0000 <= Wrap32(n) <= 0x7fff_ffff
    ensures (n - Wrap32(n)) % 0x1_0000_0000 == 0 && (n <= 0x7fff_ffff ==> Wrap32(n) == n)
  {
    var x := n + 0x8000_0000;
    assert x == TWO_32 * (x / TWO_32) + x % TWO_32;
    if x < TWO_32 {
      ModUnique(x, 0, x, TWO_32);
    }
  }

  /** Within 2^32 allocations of each other ids do not collide. */
  lemma NoCollision(a: nat, b: nat, made: nat)
    requires a <= made < a + TWO_32 && b <= made < b + TWO_32 && Wrap32(a) == Wrap32(b)
    ensures a == b
  {
    SameId(a, b);
  }

  predicate Live(t: Task) {
    t.phase != Gone
  }

  /** No task outlives 2^32 id allocations. */
  predicate Young(s: State) {
    forall n: nat | n < |s.tasks| && Live(s.tasks[n]) :: s.made < s.tasks[n].number + TWO_32
  }

  // ----- the invariant -----

  predicate InPool(t: Task) {
    t.phase == Inserted || t.phase == Launched || t.phase == Running || t.phase == Finished
  }

  predicate TaskOk(s: State, n: nat)
    requires n < |s.tasks|
  {
    var t := s.tasks[n];
    && t.id == Wrap32(t.number) && t.number <= s.made
    && t.ty in s.handles && t.singleton == s.handles[t.ty] && t.ty in s.creators
    && (InPool(t) ==> t.id in s.pool && s.pool[t.id] == n)
    && (t.phase == Allocated ==> s.creators[t.ty] == Inserting(n))
    && (t.phase == Inserted ==> s.creators[t.ty] == Launching(n))
  }

  predicate EntryOk(s: State, id: int)
    requires id in s.pool
  {
    s.pool[id] < |s.tasks| && s.tasks[s.pool[id]].id == id && InPool(s.tasks[s.pool[id]])
  }

  predicate CreatorOk(s: State, ty: int)
    requires ty in s.creators
  {
    match s.creators[ty]
    case Inserting(n) => At(s, n, Allocated) && s.tasks[n].ty == ty
    case Launching(n) => At(s, n, Inserted) && s.tasks[n].ty == ty
    case _ => true
  }

  /** A creator that found none of its singleton's tasks in the pool can rely on that until it inserts. */
  predicate Alone(s: State, n: nat)
    requires n < |s.tasks|
  {
    var t := s.tasks[n];
    t.singleton && Live(t) ==>
      && t.ty in s.creators && s.creators[t.ty] != First && s.creators[t.ty] != Cleared
      && (s.creators[t.ty].Inserting? || s.creators[t.ty].Launching? ==> s.creators[t.ty].n == n)
  }

  predicate Apart(s: State, n: nat, m: nat)
    requires n < |s.tasks| && m < |s.tasks|
  {
    && s.tasks[n].number != s.tasks[m].number
    && !(s.tasks[n].ty == s.tasks[m].ty && s.tasks[n].singleton && Live(s.tasks[n]) && Live(s.tasks[m]))
  }

  ghost predicate Inv(s: State) {
    && (forall n: nat | n < |s.tasks| :: TaskOk(s, n) && Alone(s, n))
    && (forall id | id in s.pool :: EntryOk(s, id))
    && (forall ty | ty in s.creators :: CreatorOk(s, ty))
    && (forall n: nat, m: nat | n < |s.tasks| && m < |s.tasks| && n != m :: Apart(s, n, m))
  }

  lemma AllocKeeps(s: State, ty: int)
    requires Inv(s) && Can(s, Alloc(ty))
    ensures Inv(Do(s, Alloc(ty)))
  {
    var t := DoAlloc(s, ty);
    forall n: nat | n < |t.tasks|
      ensures TaskOk(t, n) && Alone(t, n)
    {
      if n < |s.tasks| {
        assert TaskOk(s, n) && Alone(s, n);
      }
    }
    forall n: nat, m: nat | n < |t.tasks| && m < |t.tasks| && n != m
      ensures Apart(t, n, m)
    {
      if n < |s.tasks| && m < |s.tasks| {
        assert Apart(s, n, m);
      } else if n < |s.tasks| {
        assert TaskOk(s, n) && Alone(s, n);
      } else {
        assert TaskOk(s, m) && Alone(s, m);
      }
    }
    forall id | id in t.pool
      ensures EntryOk(t, id)
    {
      assert EntryOk(s, id);
    }
    forall u | u in t.creators
      ensures CreatorOk(t, u)
    {
      assert u in s.creators ==> CreatorOk(s, u);
    }
  }

  /** The task about to be inserted finds its id free. */
  lemma IdIsFree(s: State, n: nat)
    requires Inv(s) && Young(s) && At(s, n, Allocated)
    ensures s.tasks[n].id !in s.pool
  {
    var id := s.tasks[n].id;
    if id in s.pool {
      var m := s.pool[id];
      assert EntryOk(s, id) && TaskOk(s, n) && TaskOk(s, m) && Live(s.tasks[n]) && Live(s.tasks[m]);
      assert Apart(s, n, m);
      NoCollision(s.tasks[n].number, s.tasks[m].number, s.made);
    }
  }

  /** A step that changes the phase of one task, and perhaps the pool at that task's id. */
  lemma PhaseKeeps(s: State, t: State, n: nat, ty: int)
    requires Inv(s) && n < |s.tasks| == |t.tasks| && Live(s.tasks[n]) && s.tasks[n].ty == ty
    requires InPool(s.tasks[n]) || s.tasks[n].id !in s.pool
    requires t.tasks == s.tasks[n := s.tasks[n].(phase := t.tasks[n].phase)]
    requires t.handles == s.handles && t.made == s.made && t.creators.Keys == s.creators.Keys
    requires forall u | u in s.creators && u != ty :: t.creators[u] == s.creators[u]
    requires || t.creators == s.creators
             || (ty in s.creators && (s.creators[ty] == Inserting(n) || s.creators[ty] == Launching(n)))
    requires forall id | id != s.tasks[n].id ::
               (id in t.pool <==> id in s.pool) && (id in t.pool ==> t.pool[id] == s.pool[id])
    requires s.tasks[n].id in t.pool ==> EntryOk(t, s.tasks[n].id)
    requires TaskOk(t, n) && Alone(t, n) && CreatorOk(t, ty)
    ensures Inv(t)
  {
    forall m: nat | m < |t.tasks|
      ensures TaskOk(t, m) && Alone(t, m)
    {
      if m != n {
        assert TaskOk(s, m) && Alone(s, m) && TaskOk(s, n) && Apart(s, n, m) && Apart(s, m, n);
      }
    }
    forall m: nat, j: nat | m < |t.tasks| && j < |t.tasks| && m != j
      ensures Apart(t, m, j)
    {
      assert Apart(s, m, j);
    }
    forall id | id in t.pool
      ensures EntryOk(t, id)
    {
      if id != s.tasks[n].id {
        assert EntryOk(s, id);
      }
    }
    forall u | u in t.creators
      ensures CreatorOk(t, u)
    {
      if u != ty {
        assert CreatorOk(s, u);
      }
    }
  }

  lemma TickKeeps(s: State, ty: int)
    requires Inv(s) && Can(s, Tick(ty))
    ensures Inv(Do(s, Tick(ty)))
  {
    var t := Do(s, Tick(ty));
    forall n: nat | n < |t.tasks|
      ensures TaskOk(t, n) && Alone(t, n)
    {
      assert TaskOk(s, n) && Alone(s, n);
      if Blocks(s, n, ty) && InPool(s.tasks[n]) {
        assert Blocks(s, s.pool[s.tasks[n].id], ty);
      }
    }
    forall n: nat, m: nat | n < |t.tasks| && m < |t.tasks| && n != m
      ensures Apart(t, n, m)
    {
      assert Apart(s, n, m);
    }
    forall id | id in t.pool
      ensures EntryOk(t, id)
    {
      assert EntryOk(s, id);
    }
    forall u | u in t.creators
      ensures CreatorOk(t, u)
    {
      assert CreatorOk(s, u);
    }
  }

  /** The step is an insertion that meets an occupied id. */
  predicate Clashes(s: State, e: Step) {
    e.Insert? && Can(s, e) && s.tasks[s.creators[e.ty].n].id in s.pool
  }

  /** The pool holds exactly the tasks inserted and not yet deleted, each under its own id. */
  ghost predicate PoolExact(s: State) {
    forall n: nat | n < |s.tasks| :: InPool(s.tasks[n]) <==> s.tasks[n].id in s.pool && s.pool[s.tasks[n].id] == n
  }

  lemma PoolIsExact(s: State)
    requires Inv(s)
    ensures PoolExact(s)
  {
    forall n: nat | n < |s.tasks|
      ensures InPool(s.tasks[n]) <==> s.tasks[n].id in s.pool && s.pool[s.tasks[n].id] == n
    {
      assert TaskOk(s, n);
      assert s.tasks[n].id in s.pool ==> EntryOk(s, s.tasks[n].id);
    }
  }

  lemma InsertKeeps(s: State, ty: int)
    requires Inv(s) && Can(s, Insert(ty)) && !Clashes(s, Insert(ty))
    ensures Inv(Do(s, Insert(ty)))
  {
    var n := s.creators[ty].n;
    assert CreatorOk(s, ty) && TaskOk(s, n) && Alone(s, n);
    PhaseKeeps(s, DoInsert(s, ty), n, ty);
  }

  /** An insertion at an occupied id pushes another task, not yet deleted, out of the pool. */
  lemma ClashBreaks(s: State, e: Step)
    requires Inv(s) && Clashes(s, e)
    ensures !PoolExact(Do(s, e))
  {
    var t, n := Do(s, e), s.creators[e.ty].n;
    var id := s.tasks[n].id;
    var m := s.pool[id];
    assert EntryOk(s, id) && CreatorOk(s, e.ty);
    assert InPool(t.tasks[m]) && t.pool[t.tasks[m].id] == n;
  }

  /** An insertion keeps the invariant exactly when it meets a free id. */
  lemma InsertExactly(s: State, ty: int)
    requires Inv(s) && Can(s, Insert(ty))
    ensures Inv(Do(s, Insert(ty))) <==> !Clashes(s, Insert(ty))
  {
    if Clashes(s, Insert(ty)) {
      ClashBreaks(s, Insert(ty));
      if Inv(Do(s, Insert(ty))) {
        PoolIsExact(Do(s, Insert(ty)));
      }
    } else {
      InsertKeeps(s, ty);
    }
  }

  lemma LaunchKeeps(s: State, ty: int)
    requires Inv(s) && Can(s, Launch(ty))
    ensures Inv(Do(s, Launch(ty)))
  {
    var n := s.creators[ty].n;
    assert CreatorOk(s, ty) && TaskOk(s, n) && Alone(s, n);
    assert EntryOk(s, s.tasks[n].id);
    PhaseKeeps(s, Do(s, Launch(ty)), n, ty);
  }

  lemma LifeKeeps(s: State, e: Step)
    requires Inv(s) && Can(s, e) && (e.Start? || e.End? || e.Delete?)
    ensures Inv(Do(s, e))
  {
    var n := e.n;
    var ty := s.tasks[n].ty;
    assert TaskOk(s, n) && Alone(s, n) && CreatorOk(s, ty) && EntryOk(s, s.tasks[n].id);
    PhaseKeeps(s, Do(s, e), n, ty);
  }

  lemma ForeignKeeps(s: State, k: nat)
    requires Inv(s)
    ensures Inv(Do(s, Foreign(k)))
  {
    var t := Do(s, Foreign(k));
    forall n: nat | n < |t.tasks|
      ensures TaskOk(t, n) && Alone(t, n)
    {
      assert TaskOk(s, n) && Alone(s, n);
    }
    forall n: nat, m: nat | n < |t.tasks| && m < |t.tasks| && n != m
      ensures Apart(t, n, m)
    {
      assert Apart(s, n, m);
    }
    forall id | id in t.pool
      ensures EntryOk(t, id)
    {
      assert EntryOk(s, id);
    }
    forall u | u in t.creators
      ensures CreatorOk(t, u)
    {
      assert CreatorOk(s, u);
    }
  }

  /** Every step of every goroutine keeps the invariant, unless it is an insertion at an occupied id. */
  lemma StepKeeps(s: State, e: Step)
    requires Inv(s) && Can(s, e) && !Clashes(s, e)
    ensures Inv(Do(s, e))
  {
    match e
    case Tick(ty) => TickKeeps(s, ty);
    case Alloc(ty) => AllocKeeps(s, ty);
    case Insert(ty) => InsertKeeps(s, ty);
    case Launch(ty) => LaunchKeeps(s, ty);
    case Start(_) => LifeKeeps(s, e);
    case End(_) => LifeKeeps(s, e);
    case Delete(_) => LifeKeeps(s, e);
    case Foreign(k) => ForeignKeeps(s, k);
  }

  // ----- runs -----

  /** timerTaskServe with the registered handles, before its first creation. */
  function Initial(handles: map<int, bool>): State {
    State(handles, 0, [], map[], map ty | ty in handles :: First)
  }

  predicate Runs(s: State, trace: seq<Step>)
    decreases |trace|, 0
  {
    trace == [] || (Runs(s, trace[..|trace| - 1]) && Can(After(s, trace[..|trace| - 1]), trace[|trace| - 1]))
  }

  function After(s: State, trace: seq<Step>): State
    requires Runs(s, trace)
    decreases |trace|, 1
  {
    if trace == [] then s else Do(After(s, trace[..|trace| - 1]), trace[|trace| - 1])
  }

  lemma Extend(s: State, trace: seq<Step>, e: Step)
    requires Runs(s, trace) && Can(After(s, trace), e)
    ensures Runs(s, trace + [e]) && After(s, trace + [e]) == Do(After(s, trace), e)
  {
    assert (trace + [e])[..|trace|] == trace;
  }

  /** No insertion of the run meets an occupied id. */
  predicate NeverClashes(s: State, trace: seq<Step>)
    requires Runs(s, trace)
  {
    trace != [] ==>
      var before := trace[..|trace| - 1];
      NeverClashes(s, before) && !Clashes(After(s, before), trace[|trace| - 1])
  }

  /** The pool is exact in every state of the run. */
  ghost predicate AlwaysExact(s: State, trace: seq<Step>)
    requires Runs(s, trace)
  {
    PoolExact(After(s, trace)) && (trace != [] ==> AlwaysExact(s, trace[..|trace| - 1]))
  }

  lemma {:induction false} RunKeeps(handles: map<int, bool>, trace: seq<Step>)
    requires Runs(Initial(handles), trace) && NeverClashes(Initial(handles), trace)
    ensures Inv(After(Initial(handles), trace)) && After(Initial(handles), trace).handles == handles
  {
    if trace != [] {
      var before := trace[..|trace| - 1];
      RunKeeps(handles, before);
      StepKeeps(After(Initial(handles), before), trace[|trace| - 1]);
    }
  }

  /** In every interleaving the pool holds exactly the tasks inserted and not yet deleted, in every state,
      if and only if no insertion meets an occupied id. */
  lemma {:induction false} PoolExactly(handles: map<int, bool>, trace: seq<Step>)
    requires Runs(Initial(handles), trace)
    ensures AlwaysExact(Initial(handles), trace) <==> NeverClashes(Initial(handles), trace)
  {
    var s := Initial(handles);
    if trace != [] {
      var before, e := trace[..|trace| - 1], trace[|trace| - 1];
      PoolExactly(handles, before);
      if NeverClashes(s, before) {
        RunKeeps(handles, before);
        if Clashes(After(s, before), e) {
          ClashBreaks(After(s, before), e);
        } else {
          StepKeeps(After(s, before), e);
          PoolIsExact(After(s, trace));
        }
      }
    }
  }

  // ----- singleton types -----

  /** The pool entry at the id names a task of the type. */
  predicate Names(s: State, id: int, ty: int) {
    id in s.pool && s.pool[id] < |s.tasks| && s.tasks[s.pool[id]].ty == ty
  }

  ghost predicate OnePooled(s: State, ty: int) {
    forall i, j | Names(s, i, ty) && Names(s, j, ty) :: i == j
  }

  /** A task of the type that is not yet deleted; one that is finished is left only for those who count it. */
  predicate Left(s: State, n: nat, ty: int, finished: bool) {
    && n < |s.tasks| && s.tasks[n].ty == ty && Live(s.tasks[n])
    && (s.tasks[n].phase == Finished ==> finished)
  }

  ghost predicate OneLeft(s: State, ty: int, finished: bool) {
    forall n: nat, m: nat | Left(s, n, ty, finished) && Left(s, m, ty, finished) :: n == m
  }

  /** At most one handler run of the type is active. */
  ghost predicate OneRun(s: State, ty: int) {
    forall n: nat, m: nat | At(s, n, Running) && At(s, m, Running) && s.tasks[n].ty == s.tasks[m].ty == ty :: n == m
  }

  /** What every run keeps, clashes or not: tasks on their way in are their creator's. */
  predicate Owned(s: State, n: nat)
    requires n < |s.tasks|
  {
    var t := s.tasks[n];
    && t.ty in s.handles && t.singleton == s.handles[t.ty] && t.ty in s.creators && s.creators[t.ty] != First
    && (t.phase == Allocated ==> s.creators[t.ty] == Inserting(n))
    && (t.phase == Inserted ==> s.creators[t.ty] == Launching(n))
  }

  /** A singleton type has one pool entry at most, and none from the scan that cleared its creator, or
      before its first creation, until the insertion. */
  ghost predicate Slots(s: State, ty: int)
    requires ty in s.creators
  {
    && OnePooled(s, ty)
    && (s.creators[ty] == First || s.creators[ty] == Cleared || s.creators[ty].Inserting? ==>
          forall id :: !Names(s, id, ty))
  }

  ghost predicate Tidy(s: State) {
    && (forall n: nat | n < |s.tasks| :: Owned(s, n))
    && (forall id | id in s.pool :: EntryOk(s, id))
    && (forall ty | ty in s.creators :: CreatorOk(s, ty))
    && (forall ty | ty in s.creators && ty in s.handles && s.handles[ty] :: Slots(s, ty))
  }

  lemma NamedIsSeen(s: State, id: int, ty: int)
    requires Tidy(s) && ty in s.handles && s.handles[ty] && Names(s, id, ty)
    ensures IsRunning(s, ty)
  {
    assert Owned(s, s.pool[id]);
    assert Blocks(s, s.pool[id], ty);
  }

  lemma SlotsStep(s: State, e: Step, ty: int)
    requires Tidy(s) && Can(s, e) && ty in s.creators && ty in s.handles && s.handles[ty]
    ensures ty in Do(s, e).creators && Slots(Do(s, e), ty)
  {
    var t := Do(s, e);
    assert Slots(s, ty);
    if e.Insert? {
      assert CreatorOk(s, e.ty);
    }
    forall id | Names(t, id, ty)
      ensures Names(s, id, ty) || (e == Insert(ty) && id == s.tasks[s.creators[ty].n].id)
    {
      assert id in s.pool ==> EntryOk(s, id);
    }
    forall id | Names(s, id, ty)
      ensures IsRunning(s, ty)
    {
      NamedIsSeen(s, id, ty);
    }
  }

  lemma TidyStep(s: State, e: Step)
    requires Tidy(s) && Can(s, e)
    ensures Tidy(Do(s, e))
  {
    var t := Do(s, e);
    if e.Insert? || e.Launch? {
      assert CreatorOk(s, e.ty);
    }
    forall n: nat | n < |t.tasks|
      ensures Owned(t, n)
    {
      assert n < |s.tasks| ==> Owned(s, n);
    }
    forall id | id in t.pool
      ensures EntryOk(t, id)
    {
      assert id in s.pool ==> EntryOk(s, id);
    }
    forall u | u in t.creators
      ensures CreatorOk(t, u)
    {
      assert CreatorOk(s, u);
    }
    forall u | u in t.creators && u in t.handles && t.handles[u]
      ensures Slots(t, u)
    {
      SlotsStep(s, e, u);
    }
  }

  lemma {:induction false} StaysTidy(handles: map<int, bool>, trace: seq<Step>)
    requires Runs(Initial(handles), trace)
    ensures Tidy(After(Initial(handles), trace)) && After(Initial(handles), trace).handles == handles
    ensures After(Initial(handles), trace).creators.Keys == handles.Keys
  {
    if trace != [] {
      var before := trace[..|trace| - 1];
      StaysTidy(handles, before);
      TidyStep(After(Initial(handles), before), trace[|trace| - 1]);
    }
  }

  /** In every state of every interleaving, whatever ids coincide, a singleton type has at most one task in
      the pool. */
  lemma AlwaysOnePooled(handles: map<int, bool>, trace: seq<Step>, ty: int)
    requires Runs(Initial(handles), trace) && ty in handles && handles[ty]
    ensures OnePooled(After(Initial(handles), trace), ty)
  {
    StaysTidy(handles, trace);
    assert Slots(After(Initial(handles), trace), ty);
  }

  /** The scan finds a running task exactly when the type is a singleton and an entry names a task of it. */
  lemma RunningExactly(s: State, ty: int)
    requires Tidy(s) && ty in s.handles
    ensures IsRunning(s, ty) <==> s.handles[ty] && exists id :: Names(s, id, ty)
  {
    forall id | id in s.pool && Blocks(s, s.pool[id], ty)
      ensures s.handles[ty] && Names(s, id, ty)
    {
      assert Owned(s, s.pool[id]);
    }
    if s.handles[ty] {
      forall id | Names(s, id, ty)
        ensures IsRunning(s, ty)
      {
        NamedIsSeen(s, id, ty);
      }
    }
  }

  /** In every state of every interleaving a tick starts a task exactly when the type is no singleton or no pool entry
      names a task of the type; otherwise it changes nothing. */
  lemma TickExactly(handles: map<int, bool>, trace: seq<Step>, ty: int)
    requires Runs(Initial(handles), trace) && Can(After(Initial(handles), trace), Tick(ty))
    ensures var s := After(Initial(handles), trace);
            var t := Do(s, Tick(ty));
            && ty in handles && ty in t.creators
            && (t.creators[ty] == Cleared <==> !handles[ty] || forall id :: !Names(s, id, ty))
            && (t.creators[ty] != Cleared ==> t == s) && t.(creators := s.creators) == s
  {
    StaysTidy(handles, trace);
    RunningExactly(After(Initial(handles), trace), ty);
  }

  // ----- one task left, exactly -----

  /** The task stands in the pool under its own id, where the scan finds it. */
  predicate InOwnSlot(s: State, n: nat)
    requires n < |s.tasks|
  {
    s.tasks[n].id in s.pool && s.pool[s.tasks[n].id] == n
  }

  /** The step begins a creation while a task of the type that is left is out of the scan's sight. */
  ghost predicate Unseen(s: State, e: Step, ty: int, finished: bool) {
    e == Alloc(ty) && Can(s, e) && exists n: nat :: Left(s, n, ty, finished) && !InOwnSlot(s, n)
  }

  /** When a creation begins, every task of a singleton type that is left has lost its slot. */
  lemma OutOfSight(s: State, n: nat, ty: int, finished: bool)
    requires Tidy(s) && Can(s, Alloc(ty)) && s.handles[ty] && Left(s, n, ty, finished)
    ensures !InOwnSlot(s, n)
  {
    assert Slots(s, ty) && !Names(s, s.tasks[n].id, ty);
  }

  /** A step keeps a singleton type's tasks at one unless it begins a creation with a task unseen. */
  lemma OneLeftStep(s: State, e: Step, ty: int, finished: bool)
    requires Tidy(s) && Can(s, e) && ty in s.handles && s.handles[ty] && OneLeft(s, ty, finished)
    ensures OneLeft(Do(s, e), ty, finished) <==> !Unseen(s, e, ty, finished)
  {
    var t := Do(s, e);
    if Unseen(s, e, ty, finished) {
      var n: nat :| Left(s, n, ty, finished) && !InOwnSlot(s, n);
      assert Left(t, n, ty, finished) && Left(t, |s.tasks|, ty, finished);
    } else {
      forall n: nat, m: nat | Left(t, n, ty, finished) && Left(t, m, ty, finished)
        ensures n == m
      {
        if e == Alloc(ty) {
          if n < |s.tasks| {
            OutOfSight(s, n, ty, finished);
          } else if m < |s.tasks| {
            OutOfSight(s, m, ty, finished);
          }
        } else {
          assert Left(s, n, ty, finished) && Left(s, m, ty, finished);
        }
      }
    }
  }

  /** No step of the run begins a creation of the type with one of its tasks unseen. */
  ghost predicate NeverUnseen(s: State, trace: seq<Step>, ty: int, finished: bool)
    requires Runs(s, trace)
  {
    trace != [] ==>
      var before := trace[..|trace| - 1];
      NeverUnseen(s, before, ty, finished) && !Unseen(After(s, before), trace[|trace| - 1], ty, finished)
  }

  ghost predicate AlwaysOneLeft(s: State, trace: seq<Step>, ty: int, finished: bool)
    requires Runs(s, trace)
  {
    OneLeft(After(s, trace), ty, finished) && (trace != [] ==> AlwaysOneLeft(s, trace[..|trace| - 1], ty, finished))
  }

  /** In every interleaving a singleton type has at most one task left, in every state, if and only if no
      creation of the type begins while one that is left is out of the scan's sight; whether finished
      tasks count or not. */
  lemma {:induction false} OneLeftExactly(handles: map<int, bool>, trace: seq<Step>, ty: int, finished: bool)
    requires Runs(Initial(handles), trace) && ty in handles && handles[ty]
    ensures AlwaysOneLeft(Initial(handles), trace, ty, finished) <==> NeverUnseen(Initial(handles), trace, ty, finished)
  {
    if trace != [] {
      var before, s := trace[..|trace| - 1], Initial(handles);
      OneLeftExactly(handles, before, ty, finished);
      StaysTidy(handles, before);
      if NeverUnseen(s, before, ty, finished) {
        OneLeftStep(After(s, before), trace[|trace| - 1], ty, finished);
      }
    }
  }

  // ----- one active run, exactly -----

  lemma Advance(s: State, trace: seq<Step>, now: State, e: Step) returns (longer: seq<Step>, next: State)
    requires Runs(s, trace) && After(s, trace) == now && Can(now, e)
    ensures longer == trace + [e] && Runs(s, longer) && After(s, longer) == next == Do(now, e)
  {
    Extend(s, trace, e);
    longer, next := trace + [e], Do(now, e);
  }

  /** However a run goes on without a further creation of the type, one handler run at most is active. */
  ghost predicate OneRunAhead(s: State, ty: int) {
    forall more: seq<Step> | Runs(s, more) && Alloc(ty) !in more :: OneRun(After(s, more), ty)
  }

  lemma {:induction false} LeftAhead(s: State, more: seq<Step>, ty: int)
    requires Tidy(s) && ty in s.handles && s.handles[ty] && OneLeft(s, ty, false)
    requires Runs(s, more) && Alloc(ty) !in more
    ensures var t := After(s, more); Tidy(t) && t.handles == s.handles && OneLeft(t, ty, false)
  {
    if more != [] {
      var before, e := more[..|more| - 1], more[|more| - 1];
      assert e in more;
      LeftAhead(s, before, ty);
      TidyStep(After(s, before), e);
      OneLeftStep(After(s, before), e, ty, false);
    }
  }

  lemma OneLeftOneRun(s: State, ty: int)
    requires OneLeft(s, ty, false)
    ensures OneRun(s, ty)
  {
    forall n: nat, m: nat | At(s, n, Running) && At(s, m, Running) && s.tasks[n].ty == s.tasks[m].ty == ty
      ensures n == m
    {
      assert Left(s, n, ty, false) && Left(s, m, ty, false);
    }
  }

  /** The step that brings an unfinished task nearer to its handler run. */
  function Forward(t: Task, n: nat): Step {
    if t.phase == Allocated then Insert(t.ty) else if t.phase == Inserted then Launch(t.ty) else Start(n)
  }

  function ToGo(t: Task): nat {
    match t.phase
    case Allocated => 3
    case Inserted => 2
    case Launched => 1
    case _ => 0
  }

  lemma ForwardStep(s: State, n: nat, ty: int)
    requires Tidy(s) && Left(s, n, ty, false) && s.tasks[n].phase != Running
    ensures var e := Forward(s.tasks[n], n);
            && Can(s, e) && e != Alloc(ty)
            && var t := Do(s, e);
               && Left(t, n, ty, false) && ToGo(t.tasks[n]) < ToGo(s.tasks[n]) && |t.tasks| == |s.tasks|
               && forall m: nat | m < |s.tasks| && m != n :: t.tasks[m] == s.tasks[m]
  {
    assert Owned(s, n);
  }

  /** An unfinished task can be brought to its handler run while all others stay as they are. */
  lemma {:induction false} ToRunning(s: State, more: seq<Step>, now: State, n: nat, ty: int)
      returns (longer: seq<Step>, next: State)
    requires Runs(s, more) && After(s, more) == now && Alloc(ty) !in more
    requires Tidy(now) && Left(now, n, ty, false)
    ensures Runs(s, longer) && After(s, longer) == next && Alloc(ty) !in longer
    ensures Tidy(next) && At(next, n, Running) && next.tasks[n].ty == ty && |next.tasks| == |now.tasks|
    ensures forall m: nat | m < |now.tasks| && m != n :: next.tasks[m] == now.tasks[m]
    decreases ToGo(now.tasks[n])
  {
    if now.tasks[n].phase == Running {
      longer, next := more, now;
    } else {
      var e := Forward(now.tasks[n], n);
      ForwardStep(now, n, ty);
      TidyStep(now, e);
      longer, next := Advance(s, more, now, e);
      longer, next := ToRunning(s, longer, next, n, ty);
    }
  }

  /** Two unfinished tasks can both come to run. */
  lemma TwoRun(s: State, n: nat, m: nat, ty: int)
    requires Tidy(s) && Left(s, n, ty, false) && Left(s, m, ty, false) && n != m
    ensures !OneRunAhead(s, ty)
  {
    var more, now := ToRunning(s, [], s, n, ty);
    more, now := ToRunning(s, more, now, m, ty);
    assert At(now, n, Running) && At(now, m, Running);
    assert !OneRun(After(s, more), ty);
  }

  /** One active run is certain, without a further creation, exactly with one unfinished task at most. */
  lemma AheadExactly(s: State, ty: int)
    requires Tidy(s) && ty in s.handles && s.handles[ty]
    ensures OneRunAhead(s, ty) <==> OneLeft(s, ty, false)
  {
    if OneLeft(s, ty, false) {
      forall more: seq<Step> | Runs(s, more) && Alloc(ty) !in more
        ensures OneRun(After(s, more), ty)
      {
        LeftAhead(s, more, ty);
        OneLeftOneRun(After(s, more), ty);
      }
    } else {
      var n: nat, m: nat :| Left(s, n, ty, false) && Left(s, m, ty, false) && n != m;
      TwoRun(s, n, m, ty);
    }
  }

  ghost predicate AlwaysOneRunAhead(s: State, trace: seq<Step>, ty: int)
    requires Runs(s, trace)
  {
    OneRunAhead(After(s, trace), ty) && (trace != [] ==> AlwaysOneRunAhead(s, trace[..|trace| - 1], ty))
  }

  lemma {:induction false} AlwaysAheadExactly(handles: map<int, bool>, trace: seq<Step>, ty: int)
    requires Runs(Initial(handles), trace) && ty in handles && handles[ty]
    ensures AlwaysOneRunAhead(Initial(handles), trace, ty) <==> AlwaysOneLeft(Initial(handles), trace, ty, false)
  {
    StaysTidy(handles, trace);
    AheadExactly(After(Initial(handles), trace), ty);
    if trace != [] {
      AlwaysAheadExactly(handles, trace[..|trace| - 1], ty);
    }
  }

  /** In every interleaving: from every state of the run a singleton type stays at one active handler run at
      most, until a further creation, if and only if no creation of the type begins while an unfinished task
      of it is out of the scan's sight; and then it has one active run at most. */
  lemma OneRunExactly(handles: map<int, bool>, trace: seq<Step>, ty: int)
    requires Runs(Initial(handles), trace) && ty in handles && handles[ty]
    ensures AlwaysOneRunAhead(Initial(handles), trace, ty) <==> NeverUnseen(Initial(handles), trace, ty, false)
    ensures NeverUnseen(Initial(handles), trace, ty, false) ==> OneRun(After(Initial(handles), trace), ty)
  {
    AlwaysAheadExactly(handles, trace, ty);
    OneLeftExactly(handles, trace, ty, false);
    if OneLeft(After(Initial(handles), trace), ty, false) {
      OneLeftOneRun(After(Initial(handles), trace), ty);
    }
  }

  // ----- without clashes -----

  lemma CreatorBusy(s: State, n: nat, ty: int, finished: bool)
    requires Inv(s) && ty in s.handles && s.handles[ty] && Left(s, n, ty, finished)
    ensures !Can(s, Alloc(ty))
  {
    assert TaskOk(s, n) && Alone(s, n);
  }

  lemma AllInSight(s: State, e: Step, ty: int, finished: bool)
    requires Inv(s) && ty in s.handles && s.handles[ty]
    ensures !Unseen(s, e, ty, finished)
  {
    if Unseen(s, e, ty, finished) {
      var n: nat :| Left(s, n, ty, finished) && !InOwnSlot(s, n);
      CreatorBusy(s, n, ty, finished);
    }
  }

  /** A task goes out of sight only by an insertion at an occupied id. */
  lemma {:induction false} ClashComesFirst(handles: map<int, bool>, trace: seq<Step>, ty: int, finished: bool)
    requires Runs(Initial(handles), trace) && NeverClashes(Initial(handles), trace) && ty in handles && handles[ty]
    ensures NeverUnseen(Initial(handles), trace, ty, finished)
  {
    if trace != [] {
      var before := trace[..|trace| - 1];
      ClashComesFirst(handles, before, ty, finished);
      RunKeeps(handles, before);
      AllInSight(After(Initial(handles), before), trace[|trace| - 1], ty, finished);
    }
  }

  /** In particular a singleton type has one task left and one active run at most, in every state, as long as
      no insertion has met an occupied id. */
  lemma Singleton(handles: map<int, bool>, trace: seq<Step>, ty: int)
    requires Runs(Initial(handles), trace) && NeverClashes(Initial(handles), trace)
    requires ty in handles && handles[ty]
    ensures AlwaysOneLeft(Initial(handles), trace, ty, true)
    ensures OnePooled(After(Initial(handles), trace), ty) && OneRun(After(Initial(handles), trace), ty)
  {
    AlwaysOnePooled(handles, trace, ty);
    ClashComesFirst(handles, trace, ty, true);
    OneLeftExactly(handles, trace, ty, true);
    ClashComesFirst(handles, trace, ty, false);
    OneRunExactly(handles, trace, ty);
  }

  // ----- before the counter wraps -----

  /** No task outlives 2^32 id allocations, in any state of the run. */
  ghost predicate AlwaysYoung(s: State, trace: seq<Step>)
    requires Runs(s, trace)
  {
    Young(After(s, trace)) && (trace != [] ==> AlwaysYoung(s, trace[..|trace| - 1]))
  }

  /** While no task outlives 2^32 id allocations, as none can before the counter wraps, no insertion meets
      an occupied id and no two live tasks have the same id. */
  lemma {:induction false} YoungNeverClashes(handles: map<int, bool>, trace: seq<Step>)
    requires Runs(Initial(handles), trace) && AlwaysYoung(Initial(handles), trace)
    ensures NeverClashes(Initial(handles), trace)
    ensures var s := After(Initial(handles), trace);
            forall n: nat, m: nat | n < |s.tasks| && m < |s.tasks| && n != m && Live(s.tasks[n]) && Live(s.tasks[m])
              :: s.tasks[n].id != s.tasks[m].id
  {
    if trace != [] {
      var before, e := trace[..|trace| - 1], trace[|trace| - 1];
      YoungNeverClashes(handles, before);
      RunKeeps(handles, before);
      var b := After(Initial(handles), before);
      if Clashes(b, e) {
        assert CreatorOk(b, e.ty);
        IdIsFree(b, b.creators[e.ty].n);
      }
    }
    RunKeeps(handles, trace);
    var s := After(Initial(handles), trace);
    forall n: nat, m: nat | n < |s.tasks| && m < |s.tasks| && n != m && Live(s.tasks[n]) && Live(s.tasks[m])
      ensures s.tasks[n].id != s.tasks[m].id
    {
      LiveIdsDiffer(s, n, m);
    }
  }

  lemma LiveIdsDiffer(s: State, n: nat, m: nat)
    requires Inv(s) && Young(s) && n < |s.tasks| && m < |s.tasks| && n != m && Live(s.tasks[n]) && Live(s.tasks[m])
    ensures s.tasks[n].id != s.tasks[m].id
  {
    assert TaskOk(s, n) && TaskOk(s, m) && Apart(s, n, m);
    if s.tasks[n].id == s.tasks[m].id {
      NoCollision(s.tasks[n].number, s.tasks[m].number, s.made);
    }
  }

  /** The state after one whole creation by the type's goroutine, up to the start of the handler. */
  function Created(s: State, ty: int): State
    requires Can(s, Alloc(ty))
  {
    var n, number := |s.tasks|, s.made + 1;
    s.(made := number,
       tasks := s.tasks + [Task(ty, number, Wrap32(number), s.handles[ty], Running)],
       pool := s.pool[Wrap32(number) := n], creators := s.creators[ty := Idle])
  }

  lemma CreateSteps(s: State, ty: int) returns (a: State, b: State, c: State)
    requires Can(s, Alloc(ty))
    ensures a == Do(s, Alloc(ty)) && Can(a, Insert(ty)) && b == Do(a, Insert(ty))
    ensures Can(b, Launch(ty)) && c == Do(b, Launch(ty))
    ensures Can(c, Start(|s.tasks|)) && Do(c, Start(|s.tasks|)) == Created(s, ty)
  {
    var n := |s.tasks|;
    a := Do(s, Alloc(ty));
    b := Do(a, Insert(ty));
    c := Do(b, Launch(ty));
    var d := Do(c, Start(n));
    assert d.tasks == Created(s, ty).tasks;
    assert d.creators == Created(s, ty).creators;
  }

  lemma Create(s: State, trace: seq<Step>, now: State, ty: int) returns (longer: seq<Step>, next: State)
    requires Runs(s, trace) && After(s, trace) == now && Can(now, Alloc(ty))
    ensures Runs(s, longer) && After(s, longer) == next == Created(now, ty)
  {
    var a, b, c := CreateSteps(now, ty);
    longer, next := Advance(s, trace, now, Alloc(ty));
    longer, next := Advance(s, longer, a, Insert(ty));
    longer, next := Advance(s, longer, b, Launch(ty));
    longer, next := Advance(s, longer, c, Start(|now.tasks|));
  }

  const HANDLES := map[1 := true, 2 := false]

  /** A singleton's task loses its pool entry to a task that was given the same id. */
  lemma EntryReplaced() returns (trace: seq<Step>, now: State)
    ensures Runs(Initial(HANDLES), trace) && After(Initial(HANDLES), trace) == now
    ensures now.handles == HANDLES && now.pool == map[1 := 1] && now.creators == map[1 := Idle, 2 := Idle]
    ensures now.tasks == [Task(1, 1, 1, true, Running), Task(2, TWO_32 + 1, 1, false, Running)]
  {
    var s := Initial(HANDLES);
    assert Wrap32(1) == 1 && Wrap32(TWO_32 + 1) == 1;
    trace, now := Create(s, [], s, 1);
    assert now.tasks == [Task(1, 1, 1, true, Running)] && now.pool == map[1 := 0] && now.made == 1;
    trace, now := Advance(s, trace, now, Foreign(TWO_32 - 1));
    trace, now := Create(s, trace, now, 2);
    assert now.creators == map[1 := Idle, 2 := Idle];
  }

  /** When an insertion does meet an occupied id, a singleton can run twice: while its task runs 2^32
      further ids are taken, a task of another type gets the same id and replaces it in the pool, and the
      next tick starts a second run. */
  lemma WrapBreaksSingleton() returns (trace: seq<Step>)
    ensures Runs(Initial(HANDLES), trace)
    ensures var s := After(Initial(HANDLES), trace);
            HANDLES[1] && At(s, 0, Running) && At(s, 2, Running) && s.tasks[0].ty == s.tasks[2].ty == 1
    ensures !NeverClashes(Initial(HANDLES), trace) && !NeverUnseen(Initial(HANDLES), trace, 1, false)
  {
    var s, now := Initial(HANDLES), Initial(HANDLES);
    trace, now := EntryReplaced();
    assert !IsRunning(now, 1);
    trace, now := Advance(s, trace, now, Tick(1));
    trace, now := Create(s, trace, now, 1);
    assert At(now, 0, Running) && At(now, 2, Running);
    OneRunExactly(HANDLES, trace, 1);
    if NeverClashes(s, trace) {
      ClashComesFirst(HANDLES, trace, 1, false);
    }
  }
}
