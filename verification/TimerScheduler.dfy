/** The scheduler as the program runs it: the task pool is updated in place, and between any two
    critical sections of a goroutine the others take any number of steps. */
module TimerScheduler {
  import opened Timers

  /** Every pool entry names a task, whatever the ids. */
  predicate InRange(s: State) {
    && (forall id | id in s.pool :: s.pool[id] < |s.tasks|)
    && (forall ty | ty in s.creators :: ty in s.handles)
    && (forall ty | ty in s.creators ::
          match s.creators[ty]
          case Inserting(n) => n < |s.tasks|
          case Launching(n) => n < |s.tasks|
          case _ => true)
  }

  lemma InRangeStep(s: State, e: Step)
    requires InRange(s) && Can(s, e)
    ensures InRange(Do(s, e))
  {
  }

  /** Steps of the goroutine that creates tasks of the type. */
  predicate ByCreator(e: Step, ty: int) {
    e == Tick(ty) || e == Alloc(ty) || e == Insert(ty) || e == Launch(ty)
  }

  /** Steps of the goroutine that runs the task. */
  predicate ByRunner(e: Step, n: nat) {
    e == Start(n) || e == End(n) || e == Delete(n)
  }

  predicate UnderWay(s: State, n: nat) {
    At(s, n, Launched) || At(s, n, Running) || At(s, n, Finished)
  }

  /** No other goroutine touches a task that has been launched. */
  lemma TaskUntouched(s: State, e: Step, n: nat)
    requires Tidy(s) && Can(s, e) && UnderWay(s, n) && !ByRunner(e, n)
    ensures n < |Do(s, e).tasks| && Do(s, e).tasks[n] == s.tasks[n]
  {
    if e.Insert? || e.Launch? {
      assert CreatorOk(s, e.ty);
    }
  }

  class Scheduler {
    const handles: map<int, bool>
    var made: nat
    var tasks: seq<Task>
    var pool: map<int, nat>
    var creators: map<int, Creator>
    /** The steps taken so far by all goroutines. */
    ghost var trace: seq<Step>

    function Now(): State
      reads this
    {
      State(handles, made, tasks, pool, creators)
    }

    /** The fields are what the steps of some interleaving made of the empty pool. */
    ghost predicate Valid()
      reads this
    {
      Runs(Initial(handles), trace) && Now() == After(Initial(handles), trace) && InRange(Now())
    }

    constructor (handles: map<int, bool>)
      ensures Valid() && this.handles == handles && trace == [] && made == 0 && tasks == [] && pool == map[]
      ensures forall ty | ty in handles :: ty in creators && creators[ty] == First
    {
      this.handles := handles;
      made, tasks, pool, creators, trace := 0, [], map[], map ty | ty in handles :: First, [];
    }

    /** Writes down the step that the fields have just taken from s. */
    ghost method Log(s: State, e: Step)
      requires Runs(Initial(handles), trace) && s == After(Initial(handles), trace) && InRange(s)
      requires Can(s, e) && Now() == Do(s, e)
      modifies this`trace
      ensures Valid() && trace == old(trace) + [e]
    {
      Extend(Initial(handles), trace, e);
      InRangeStep(s, e);
      trace := trace + [e];
    }

    method Apply(e: Step)
      requires Valid() && Can(Now(), e)
      modifies this
      ensures Valid() && trace == old(trace) + [e] && Now() == Do(old(Now()), e)
    {
      ghost var s := Now();
      var t := Do(Now(), e);
      made, tasks, pool, creators := t.made, t.tasks, t.pool, t.creators;
      Log(s, e);
    }

    /** Any steps of any goroutines but the creator of the type. */
    method Others(ty: int)
      requires Valid() && ty in creators
      modifies this
      ensures Valid() && old(trace) <= trace && ty in creators && creators[ty] == old(creators[ty])
      ensures |old(tasks)| <= |tasks|
    {
      var plan: seq<Step> := *;
      ghost var before, mine, count := trace, creators[ty], |tasks|;
      for i := 0 to |plan|
        invariant Valid() && before <= trace && ty in creators && creators[ty] == mine && count <= |tasks|
      {
        var e := plan[i];
        if Can(Now(), e) && !ByCreator(e, ty) {
          Apply(e);
        }
      }
    }

    /** The scan under the lock, in whatever order the map is ranged over. */
    method Scan(ty: int) returns (isRunning: bool)
      requires Valid()
      ensures isRunning == IsRunning(Now(), ty)
      ensures isRunning <==> exists id | id in pool :: tasks[pool[id]].ty == ty && tasks[pool[id]].singleton
    {
      isRunning := false;
      var ids := pool.Keys;
      while true
        invariant ids <= pool.Keys
        invariant forall id | id in pool && id !in ids :: !Blocks(Now(), pool[id], ty)
        decreases |ids|
      {
        if id :| id in ids {
          ids := ids - {id};
          if tasks[pool[id]].ty == ty {
            if tasks[pool[id]].singleton {
              assert Blocks(Now(), pool[id], ty);
              return true;
            }
          }
        } else {
          break;
        }
      }
    }

    /** newTimerTask's first half: an id is taken atomically for a new task. */
    method TakeId(ty: int) returns (n: nat)
      requires Valid() && ty in creators && (creators[ty] == First || creators[ty] == Cleared)
      modifies this
      ensures Valid() && trace == old(trace) + [Alloc(ty)] && ty in handles
      ensures made == old(made) + 1
      ensures tasks == old(tasks) + [Task(ty, old(made) + 1, Wrap32(old(made) + 1), handles[ty], Allocated)]
      ensures |tasks| - 1 == n == |old(tasks)| && ty in creators && creators[ty] == Inserting(n)
    {
      ghost var s := Now();
      made := made + 1;
      n := |tasks|;
      tasks := tasks + [Task(ty, made, Wrap32(made), handles[ty], Allocated)];
      creators := creators[ty := Inserting(n)];
      Log(s, Alloc(ty));
    }

    /** Its second half, under the lock: the task goes into the pool. */
    method InsertTask(ty: int, n: nat)
      requires Valid() && ty in creators && creators[ty] == Inserting(n)
      modifies this
      ensures Valid() && trace == old(trace) + [Insert(ty)]
      ensures |tasks| == |old(tasks)| && ty in creators && creators[ty] == Launching(n)
      ensures n < |tasks| && pool == old(pool)[tasks[n].id := n]
    {
      ghost var s := Now();
      pool := pool[tasks[n].id := n];
      tasks := tasks[n := tasks[n].(phase := Inserted)];
      creators := creators[ty := Launching(n)];
      Log(s, Insert(ty));
    }

    /** newTimerTask: between its halves the other goroutines take any number of steps. */
    method NewTimerTask(ty: int) returns (n: nat)
      requires Valid() && ty in creators && (creators[ty] == First || creators[ty] == Cleared)
      modifies this
      ensures Valid() && old(trace) <= trace && ty in creators && creators[ty] == Launching(n)
      ensures |old(tasks)| <= n < |tasks|
    {
      ghost var before := trace;
      n := TakeId(ty);
      assert before <= trace;
      Others(ty);
      assert before <= trace;
      InsertTask(ty, n);
    }

    /** newTimerTask and `go task.Run()`. */
    method Create(ty: int)
      requires Valid() && ty in creators && (creators[ty] == First || creators[ty] == Cleared)
      modifies this
      ensures Valid() && old(trace) <= trace && ty in creators && creators[ty] == Idle && |tasks| > |old(tasks)|
    {
      ghost var before := trace;
      var n := NewTimerTask(ty);
      Others(ty);
      assert before <= trace;
      ghost var s := Now();
      tasks := tasks[n := tasks[n].(phase := Launched)];
      creators := creators[ty := Idle];
      Log(s, Launch(ty));
    }

    /** One tick of the type's ticker loop: skip, or create a task. */
    method OnTick(ty: int) returns (created: bool)
      requires Valid() && ty in creators && creators[ty] == Idle
      modifies this
      ensures Valid() && old(trace) <= trace && ty in creators && creators[ty] == Idle
      ensures created == !IsRunning(old(Now()), ty)
      ensures ty in handles && (!handles[ty] ==> created)
      ensures handles[ty] ==> (created <==> forall id :: !Names(old(Now()), id, ty))
      ensures if created then |tasks| > |old(tasks)| else Now() == old(Now())
    {
      ghost var before := trace;
      StaysTidy(handles, trace);
      RunningExactly(Now(), ty);
      var isRunning := Scan(ty);
      created := !isRunning;
      ghost var s := Now();
      if isRunning {
        Log(s, Tick(ty));
        return;
      }
      creators := creators[ty := Cleared];
      Log(s, Tick(ty));
      assert before <= trace;
      Others(ty);
      Create(ty);
    }

    /** Any steps of any goroutines but the one that runs task n. */
    method OthersRun(n: nat)
      requires Valid() && UnderWay(Now(), n)
      modifies this
      ensures Valid() && old(trace) <= trace && n < |tasks| && tasks[n] == old(tasks)[n]
    {
      var plan: seq<Step> := *;
      ghost var before, mine := trace, tasks[n];
      for i := 0 to |plan|
        invariant Valid() && before <= trace && n < |tasks| && tasks[n] == mine
      {
        var e := plan[i];
        if Can(Now(), e) && !ByRunner(e, n) {
          StaysTidy(handles, trace);
          TaskUntouched(Now(), e, n);
          Apply(e);
        }
      }
    }

    /** A step of the goroutine that runs task n. */
    method SetPhase(n: nat, phase: Phase, ghost e: Step)
      requires Valid() && n < |tasks| && Can(Now(), e) && Do(Now(), e) == Timers.SetPhase(Now(), n, phase)
      modifies this
      ensures Valid() && trace == old(trace) + [e] && pool == old(pool)
      ensures tasks == old(tasks)[n := old(tasks)[n].(phase := phase)]
    {
      ghost var s := Now();
      tasks := tasks[n := tasks[n].(phase := phase)];
      Log(s, e);
    }

    /** The end of Run, under the lock: the entry under the task's id is deleted, whichever task it names. */
    method Remove(n: nat)
      requires Valid() && n < |tasks| && tasks[n].phase == Finished
      modifies this
      ensures Valid() && trace == old(trace) + [Delete(n)] && pool == old(pool) - {old(tasks)[n].id}
      ensures tasks == old(tasks)[n := old(tasks)[n].(phase := Gone)]
    {
      ghost var s := Now();
      pool := pool - {tasks[n].id};
      tasks := tasks[n := tasks[n].(phase := Gone)];
      Log(s, Delete(n));
    }

    /** TimerTask.Run: the handler runs, and at its end the entry is deleted, while the other goroutines go on. */
    method Run(n: nat)
      requires Valid() && n < |tasks| && tasks[n].phase == Launched
      modifies this
      ensures Valid() && old(trace) <= trace && n < |tasks| && tasks[n] == old(tasks)[n].(phase := Gone)
      ensures tasks[n].id !in pool
    {
      SetPhase(n, Running, Start(n));
      OthersRun(n);
      SetPhase(n, Finished, End(n));
      OthersRun(n);
      Remove(n);
    }

    /** What timerTaskServe does for the type, and then its ticker loop for any number of ticks. */
    method Serve(ty: int, ticks: nat)
      requires Valid() && ty in creators && creators[ty] == First
      modifies this
      ensures Valid() && old(trace) <= trace
      ensures handles[ty] ==> OnePooled(Now(), ty)
      ensures handles[ty] && NeverUnseen(Initial(handles), trace, ty, false) ==> OneRun(Now(), ty)
    {
      ghost var before := trace;
      Create(ty);
      for i := 0 to ticks
        invariant Valid() && before <= trace && ty in creators && creators[ty] == Idle
      {
        Others(ty);
        var _ := OnTick(ty);
      }
      Others(ty);
      if handles[ty] {
        AlwaysOnePooled(handles, trace, ty);
        OneRunExactly(handles, trace, ty);
        assert Now() == After(Initial(handles), trace);
      }
    }
  }
}
