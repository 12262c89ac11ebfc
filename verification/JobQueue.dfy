/**
 * Workers taking slices from the preloaded queue while a user may abort. Each step of a thread is one
 * access to shared state; steps of different threads interleave freely.
 */
module JobQueue {
  import opened TinyQueue

  /** The finishing modes. A preloaded queue starts with EndOfData. */
  datatype Mode = Run | EndOfData | Abort

  /** Where a thread is: between calls, inside a pop, or inside setState(Abort). */
  datatype Pc =
    | Idle
    | PopLock
    | PopFirst
    | PopTest(job: nat)
    | PopSleep
    | PopRetest(job: nat)
    | PopAgain
    | PopUnlock(job: nat)
    | SetMode
    | SetLock
    | SetClear
    | SetUnlock
  {
    /** The thread owns the mutex. */
    predicate Critical() {
      PopFirst? || PopTest? || PopRetest? || PopAgain? || PopUnlock? || SetClear? || SetUnlock?
    }

    /** The job that a pop has taken out of the queue and not returned yet. */
    function Held(): seq<nat> {
      match this
      case PopTest(job) => if job != NO_JOB then [job] else []
      case PopRetest(job) => if job != NO_JOB then [job] else []
      case PopUnlock(job) => if job != NO_JOB then [job] else []
      case _ => []
    }

    /** The pop has found no job so far. */
    predicate Empty() {
      (PopTest? && job == NO_JOB) || (PopRetest? && job == NO_JOB) || PopAgain? || (PopUnlock? && job == NO_JOB)
    }
  }

  /** Mutex owner (the number of threads if it is free), mode, queue, threads, and what pops have returned so far. */
  datatype State = State(owner: nat, mode: Mode, queue: Queue, pcs: seq<Pc>, returned: seq<nat>, cleared: bool)
  {
    predicate Free() { owner == |pcs| }

    function At(t: nat, pc: Pc): State
      requires t < |pcs|
    {
      this.(pcs := pcs[t := pc])
    }
  }

  ghost predicate Init(s: State, jobs: seq<nat>, threads: nat) {
    && s.owner == threads == |s.pcs| && s.mode == EndOfData && s.queue == Queue(jobs, 0, s.queue.size)
    && s.returned == [] && !s.cleared
    && forall t :: 0 <= t < threads ==> s.pcs[t] == Idle
  }

  /** What a thread inside a call does next. */
  function Next(s: State, t: nat): State
    requires t < |s.pcs|
  {
    match s.pcs[t]
    case Idle => s
    case PopLock => s.At(t, PopFirst).(owner := t)
    case PopFirst => s.At(t, PopTest(s.queue.Pop().0)).(queue := s.queue.Pop().1)
    case PopTest(job) =>
      if job == NO_JOB && s.queue.Count() == 0 && s.mode == Run then s.At(t, PopSleep).(owner := |s.pcs|)
      else s.At(t, PopRetest(job))
    case PopSleep => s
    case PopRetest(job) => s.At(t, if job == NO_JOB && s.mode != Abort then PopAgain else PopUnlock(job))
    case PopAgain => s.At(t, PopUnlock(s.queue.Pop().0)).(queue := s.queue.Pop().1)
    case PopUnlock(job) => s.At(t, Idle).(owner := |s.pcs|, returned := s.returned + [job])
    case SetMode => s.At(t, SetLock).(mode := Abort)
    case SetLock => s.At(t, SetClear).(owner := t)
    case SetClear =>
      if s.mode == Abort then s.At(t, SetUnlock).(queue := s.queue.Cleared(), cleared := true) else s.At(t, SetUnlock)
    case SetUnlock => s.At(t, Idle).(owner := |s.pcs|)
  }

  /** One step of thread t: begin a pop or an abort, or go on with one; the mutex must be free to be taken. */
  ghost predicate Step(s: State, s2: State, t: nat)
    requires t < |s.pcs|
  {
    if s.pcs[t].Idle? then s2 == s.At(t, PopLock) || s2 == s.At(t, if s.mode == Abort then Idle else SetMode)
    else if s.pcs[t].PopLock? || s.pcs[t].SetLock? then s.Free() && s2 == Next(s, t)
    else !s.pcs[t].PopSleep? && s2 == Next(s, t)
  }

  /** The jobs among what pops have returned. */
  function Jobs(returned: seq<nat>): seq<nat>
    decreases |returned|
  {
    if |returned| == 0 then []
    else Jobs(returned[..|returned| - 1]) + if returned[|returned| - 1] == NO_JOB then []
      else [returned[|returned| - 1]]
  }

  /** The job that the mutex owner holds. */
  function HeldBy(s: State): seq<nat> {
    if s.owner < |s.pcs| then s.pcs[s.owner].Held() else []
  }

  /** Jobs handed out so far, in the order they were taken. */
  function Handed(s: State): seq<nat> { Jobs(s.returned) + HeldBy(s) }

  ghost predicate Inv(s: State, jobs: seq<nat>) {
    && s.mode != Run && s.owner <= |s.pcs| && s.queue.tail <= |s.queue.cells|
    && (forall t {:trigger s.pcs[t]} :: 0 <= t < |s.pcs| ==>
      !s.pcs[t].PopSleep? && (s.pcs[t].Critical() <==> t == s.owner))
    && (s.cleared ==> s.mode == Abort && s.queue.cells == [] && HeldBy(s) == [])
    && (!s.cleared ==> s.queue.cells == jobs && Handed(s) == jobs[..s.queue.tail])
    && (s.owner < |s.pcs| && s.pcs[s.owner].Empty() && !s.cleared ==> s.queue.tail == |jobs|)
    && Handed(s) <= jobs
    && (NO_JOB in s.returned && !s.cleared ==> s.queue.tail == |jobs| && HeldBy(s) == [])
  }

  lemma InitInv(s: State, jobs: seq<nat>, threads: nat)
    requires Init(s, jobs, threads)
    ensures Inv(s, jobs)
  {
  }

  lemma JobsAppend(returned: seq<nat>, job: nat)
    ensures Jobs(returned + [job]) == Jobs(returned) + if job == NO_JOB then [] else [job]
  {
    assert (returned + [job])[..|returned|] == returned;
  }

  /** A thread that starts a call, waits for the mutex or sets the mode changes nothing that pops have done. */
  lemma OutsideKeepsInv(s: State, s2: State, t: nat, jobs: seq<nat>)
    requires t < |s.pcs| && Inv(s, jobs) && Step(s, s2, t) && !s.pcs[t].Critical()
    ensures Inv(s2, jobs)
  {
    hide Jobs, HeldBy;
    SameHolder(s, s2, t, jobs);
  }

  lemma SameHolder(s: State, s2: State, t: nat, jobs: seq<nat>)
    requires t < |s.pcs| && Inv(s, jobs) && Step(s, s2, t) && !s.pcs[t].Critical()
    ensures HeldBy(s2) == HeldBy(s) && s2.queue == s.queue && s2.returned == s.returned && s2.cleared == s.cleared
    ensures s2.owner < |s2.pcs| ==> (s2.pcs[s2.owner].Empty() ==> s.owner < |s.pcs| && s.pcs[s.owner].Empty())
  {
    hide Jobs;
  }

  /** Taking a job: it becomes the next one handed out; finding none means that all have been. */
  lemma TakeKeepsInv(s: State, s2: State, t: nat, jobs: seq<nat>)
    requires NO_JOB !in jobs && t < |s.pcs| && Inv(s, jobs) && Step(s, s2, t)
    requires (s.pcs[t].PopFirst? || s.pcs[t].PopAgain?)
    ensures Inv(s2, jobs)
  {
    hide Jobs;
    if s.queue.tail < |s.queue.cells| {
      assert jobs[..s2.queue.tail] == jobs[..s.queue.tail] + [jobs[s.queue.tail]];
    }
  }

  lemma TestKeepsInv(s: State, s2: State, t: nat, jobs: seq<nat>)
    requires t < |s.pcs| && Inv(s, jobs) && Step(s, s2, t) && (s.pcs[t].PopTest? || s.pcs[t].PopRetest?)
    ensures Inv(s2, jobs)
  {
    hide Jobs;
    assert HeldBy(s2) == HeldBy(s);
  }

  lemma ReturnKeepsInv(s: State, s2: State, t: nat, jobs: seq<nat>)
    requires t < |s.pcs| && Inv(s, jobs) && Step(s, s2, t) && s.pcs[t].PopUnlock?
    ensures Inv(s2, jobs)
  {
    hide Jobs;
    JobsAppend(s.returned, s.pcs[t].job);
    assert Handed(s2) == Handed(s);
  }

  lemma AbortKeepsInv(s: State, s2: State, t: nat, jobs: seq<nat>)
    requires t < |s.pcs| && Inv(s, jobs) && Step(s, s2, t) && (s.pcs[t].SetClear? || s.pcs[t].SetUnlock?)
    ensures Inv(s2, jobs)
  {
    hide Jobs;
    assert HeldBy(s2) == HeldBy(s) == [];
  }

  /** Every step of every thread keeps the invariant. */
  lemma StepKeepsInv(s: State, s2: State, t: nat, jobs: seq<nat>)
    requires NO_JOB !in jobs && t < |s.pcs| && Inv(s, jobs) && Step(s, s2, t)
    ensures Inv(s2, jobs)
  {
    hide Inv, Step;
    if !s.pcs[t].Critical() {
      OutsideKeepsInv(s, s2, t, jobs);
    } else if s.pcs[t].PopFirst? || s.pcs[t].PopAgain? {
      TakeKeepsInv(s, s2, t, jobs);
    } else if s.pcs[t].PopTest? || s.pcs[t].PopRetest? {
      TestKeepsInv(s, s2, t, jobs);
    } else if s.pcs[t].PopUnlock? {
      ReturnKeepsInv(s, s2, t, jobs);
    } else {
      AbortKeepsInv(s, s2, t, jobs);
    }
  }

  // ---------------------------------------------------------------- runs

  ghost predicate SomeStep(s: State, s2: State) {
    exists t: nat {:trigger s.pcs[t]} :: t < |s.pcs| && Step(s, s2, t)
  }

  ghost predicate StepAt(ss: seq<State>, i: nat)
    requires 0 < i < |ss|
  {
    SomeStep(ss[i - 1], ss[i])
  }

  /** Any interleaving of any number of threads on a queue preloaded with `jobs`. */
  ghost predicate IsRun(ss: seq<State>, jobs: seq<nat>, threads: nat) {
    && |ss| > 0 && Init(ss[0], jobs, threads) && NO_JOB !in jobs
    && forall i: nat {:trigger StepAt(ss, i)} :: 0 < i < |ss| ==> StepAt(ss, i)
  }

  lemma {:induction false} RunKeepsInv(ss: seq<State>, jobs: seq<nat>, threads: nat, i: nat)
    requires IsRun(ss, jobs, threads) && i < |ss|
    ensures Inv(ss[i], jobs)
  {
    hide Inv, Step;
    if i == 0 {
      InitInv(ss[0], jobs, threads);
    } else {
      RunKeepsInv(ss, jobs, threads, i - 1);
      assert StepAt(ss, i);
      var t: nat :| t < |ss[i - 1].pcs| && Step(ss[i - 1], ss[i], t);
      StepKeepsInv(ss[i - 1], ss[i], t, jobs);
    }
  }

  /**
   * At every moment of every run the jobs handed out are a prefix of the queue, in its order, so no job
   * is handed out twice; no two threads own the mutex; no worker sleeps.
   */
  lemma HandedOutInOrder(ss: seq<State>, jobs: seq<nat>, threads: nat, i: nat)
    requires IsRun(ss, jobs, threads) && i < |ss|
    ensures Handed(ss[i]) <= jobs
    ensures (forall a, b :: 0 <= a < b < |jobs| ==> jobs[a] != jobs[b]) ==>
      forall a, b :: 0 <= a < b < |Handed(ss[i])| ==> Handed(ss[i])[a] != Handed(ss[i])[b]
    ensures forall t, u {:trigger ss[i].pcs[t], ss[i].pcs[u]} ::
      0 <= t < u < |ss[i].pcs| ==> !(ss[i].pcs[t].Critical() && ss[i].pcs[u].Critical())
    ensures forall t {:trigger ss[i].pcs[t]} :: 0 <= t < |ss[i].pcs| ==> !ss[i].pcs[t].PopSleep?
  {
    RunKeepsInv(ss, jobs, threads, i);
    hide IsRun, Handed;
  }

  /** If nobody has aborted when some pop has returned nothing, every job has been returned exactly once, in order. */
  lemma AllHandedOut(ss: seq<State>, jobs: seq<nat>, threads: nat, i: nat)
    requires IsRun(ss, jobs, threads) && i < |ss| && NO_JOB in ss[i].returned && ss[i].mode != Abort
    ensures Jobs(ss[i].returned) == jobs
  {
    RunKeepsInv(ss, jobs, threads, i);
    assert jobs[..|jobs|] == jobs;
  }

  lemma StepAfterClear(s: State, s2: State, t: nat, jobs: seq<nat>)
    requires t < |s.pcs| && Inv(s, jobs) && Step(s, s2, t) && s.cleared
    ensures s2.cleared && (s2.returned == s.returned || s2.returned == s.returned + [NO_JOB])
  {
    assert HeldBy(s) == [];
  }

  /** After the clearing step of an abort every pop returns nothing, also those that were waiting for the mutex. */
  lemma {:induction false} NothingAfterClear(ss: seq<State>, jobs: seq<nat>, threads: nat, i: nat, j: nat)
    requires IsRun(ss, jobs, threads) && i <= j < |ss| && ss[i].cleared
    ensures ss[j].cleared && |ss[i].returned| <= |ss[j].returned|
    ensures ss[j].returned[..|ss[i].returned|] == ss[i].returned
    ensures forall k {:trigger ss[j].returned[k]} :: |ss[i].returned| <= k < |ss[j].returned| ==>
      ss[j].returned[k] == NO_JOB
    decreases j - i
  {
    hide Inv, Step;
    if i < j {
      NothingAfterClear(ss, jobs, threads, i, j - 1);
      RunKeepsInv(ss, jobs, threads, j - 1);
      assert StepAt(ss, j);
      var t: nat :| t < |ss[j - 1].pcs| && Step(ss[j - 1], ss[j], t);
      StepAfterClear(ss[j - 1], ss[j], t, jobs);
    }
  }

  // ---------------------------------------------------------------- a whole abort

  /** The clearing step of an abort empties the queue. */
  lemma ClearEmpties(s: State, s2: State, t: nat, jobs: seq<nat>)
    requires t < |s.pcs| && Inv(s, jobs) && Step(s, s2, t) && s.pcs[t].SetClear? && s.mode == Abort
    ensures s2.queue.cells == [] && s2.queue.Count() == 0 && s2.cleared
  {
  }

  /** An abort that thread t began is under way: it has yet to set the mode, or to clear, or has cleared. */
  ghost predicate Aborting(s: State, t: nat)
    requires t < |s.pcs|
  {
    s.pcs[t].SetMode? || ((s.pcs[t].SetLock? || s.pcs[t].SetClear?) && s.mode == Abort) || s.cleared
  }

  lemma StepKeepsAborting(s: State, s2: State, u: nat, t: nat, jobs: seq<nat>)
    requires u < |s.pcs| && t < |s.pcs| && Inv(s, jobs) && Step(s, s2, u) && Aborting(s, t)
    ensures |s2.pcs| == |s.pcs| && Aborting(s2, t)
  {
    if s.cleared {
      StepAfterClear(s, s2, u, jobs);
    } else if u == t && s.pcs[t].SetClear? {
      ClearEmpties(s, s2, t, jobs);
    }
  }

  lemma {:induction false} AbortGoesOn(ss: seq<State>, jobs: seq<nat>, threads: nat, i: nat, j: nat, t: nat)
    requires IsRun(ss, jobs, threads) && i <= j < |ss| && t < |ss[i].pcs| && ss[i].pcs[t].SetMode?
    ensures t < |ss[j].pcs| && Aborting(ss[j], t)
    decreases j - i
  {
    hide Inv, Step, Aborting;
    if i == j {
      AbortBegins(ss[i], t);
    } else {
      AbortGoesOn(ss, jobs, threads, i, j - 1, t);
      RunKeepsInv(ss, jobs, threads, j - 1);
      assert StepAt(ss, j);
      var u: nat :| u < |ss[j - 1].pcs| && Step(ss[j - 1], ss[j], u);
      StepKeepsAborting(ss[j - 1], ss[j], u, t, jobs);
    }
  }

  lemma AbortBegins(s: State, t: nat)
    requires t < |s.pcs| && s.pcs[t].SetMode?
    ensures Aborting(s, t)
  {
  }

  /**
   * Once an abort that some thread began has returned, in whatever interleaving, the queue is empty, and
   * stays so, and every pop that returns from then on returns nothing.
   */
  lemma NothingAfterAbort(ss: seq<State>, jobs: seq<nat>, threads: nat, i: nat, j: nat, m: nat, t: nat)
    requires IsRun(ss, jobs, threads) && i < j <= m < |ss|
    requires t < |ss[i].pcs| && ss[i].pcs[t].SetMode? && t < |ss[j].pcs| && ss[j].pcs[t].Idle?
    ensures ss[m].queue.cells == [] && ss[m].queue.Count() == 0
    ensures |ss[j].returned| <= |ss[m].returned| && ss[m].returned[..|ss[j].returned|] == ss[j].returned
    ensures forall k {:trigger ss[m].returned[k]} ::
      |ss[j].returned| <= k < |ss[m].returned| ==> ss[m].returned[k] == NO_JOB
  {
    AbortGoesOn(ss, jobs, threads, i, j, t);
    NothingAfterClear(ss, jobs, threads, j, m);
    RunKeepsInv(ss, jobs, threads, m);
    hide IsRun, Handed, HeldBy, Jobs;
  }

  /** A thread that is idle may begin an abort unless there has been one, and then comes to its end. */
  lemma AbortCanRun(s: State, t: nat) returns (s1: State, s2: State, s3: State, s4: State, s5: State)
    requires t < |s.pcs| && s.pcs[t].Idle? && s.Free() && s.mode != Abort
    ensures Step(s, s1, t) && |s1.pcs| == |s.pcs| && s1.pcs[t].SetMode? && Step(s1, s2, t) && |s2.pcs| == |s.pcs|
    ensures Step(s2, s3, t) && |s3.pcs| == |s.pcs| && Step(s3, s4, t) && |s4.pcs| == |s.pcs| && Step(s4, s5, t)
    ensures s5 == s.(mode := Abort, queue := s.queue.Cleared(), cleared := true)
  {
    s1 := s.At(t, SetMode);
    s2 := Next(s1, t);
    s3 := Next(s2, t);
    s4 := Next(s3, t);
    s5 := Next(s4, t);
  }

  /** A thread that is idle may pop, and with the mutex free and a job left it returns that job. */
  lemma PopCanRun(s: State, t: nat) returns (s1: State, s2: State, s3: State, s4: State, s5: State, s6: State)
    requires t < |s.pcs| && s.pcs[t].Idle? && s.Free() && s.queue.tail < |s.queue.cells|
    requires s.queue.cells[s.queue.tail] != NO_JOB
    ensures Step(s, s1, t) && |s1.pcs| == |s.pcs| && Step(s1, s2, t) && |s2.pcs| == |s.pcs| && Step(s2, s3, t)
    ensures |s3.pcs| == |s.pcs| && Step(s3, s4, t) && |s4.pcs| == |s.pcs| && Step(s4, s5, t)
    ensures |s5.pcs| == |s.pcs| && Step(s5, s6, t)
    ensures s6 == s.(queue := s.queue.(tail := s.queue.tail + 1),
      returned := s.returned + [s.queue.cells[s.queue.tail]])
  {
    s1 := s.At(t, PopLock);
    s2 := Next(s1, t);
    s3 := Next(s2, t);
    s4 := Next(s3, t);
    s5 := Next(s4, t);
    s6 := Next(s5, t);
  }

  /** No deadlock: while some call is under way, some call can go on. */
  lemma SomeoneCanGoOn(ss: seq<State>, jobs: seq<nat>, threads: nat, i: nat, t: nat) returns (u: nat, next: State)
    requires IsRun(ss, jobs, threads) && i < |ss| && t < |ss[i].pcs| && !ss[i].pcs[t].Idle?
    ensures u < |ss[i].pcs| && !ss[i].pcs[u].Idle? && Step(ss[i], next, u)
  {
    RunKeepsInv(ss, jobs, threads, i);
    hide IsRun, Handed, Jobs, HeldBy;
    var s := ss[i];
    u := if s.owner < |s.pcs| then s.owner else t;
    next := Next(s, u);
  }
}
