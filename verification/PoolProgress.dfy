/** The pools get done: while a thread is left, some of the threads' steps finish whatever has been written;
    and no thread leaves before all announced groups are read. */
module PoolProgress {
  import opened JournalGroups
  import opened JournalStream
  import opened WorkerPool
  import opened ThreadPool
  import opened PoolSystem
  import opened Wrappers

  /** All is read, built, removed, performed and handed in. */
  ghost predicate Drained(p: PoolState) {
    && p.unread == [] && p.group == None && !p.building && p.workerList == []
    && forall t :: 0 <= t < |p.threads| ==> !p.threads[t].Running? && !p.threads[t].Recorded?
  }

  ghost predicate Live(p: PoolState) {
    exists t :: 0 <= t < |p.threads| && p.threads[t] != Exited
  }

  // What is left to do, the coarsest first.

  ghost function ToRead(p: PoolState): nat { 2 * |p.unread| + if p.group.Some? then 1 else 0 }

  ghost function ToBuild(p: PoolState): nat {
    if p.building && p.builder < |p.threads| && p.threads[p.builder].Filling? then |p.threads[p.builder].ops| + 1 else 0
  }

  ghost function ToPerform(p: PoolState): set<nat> { set t: nat | t < |p.threads| && p.threads[t].Running? }

  ghost function ToHandIn(p: PoolState): set<nat> { set t: nat | t < |p.threads| && p.threads[t].Recorded? }

  /** How far thread `live` is from taking a job, or from taking up a group if there is none. */
  ghost function Away(p: PoolState, live: nat): nat
    requires live < |p.threads|
  {
    match p.threads[live]
    case Chosen => 2
    case Looking(_) => if p.workerList == [] then 0 else 1
    case AtPop => if p.workerList == [] then 1 else 0
    case _ => 0
  }

  ghost predicate Nearer(q: PoolState, p: PoolState, live: nat)
    requires live < |p.threads| == |q.threads|
  {
    (ToRead(p), ToBuild(p), |p.workerList|, |ToPerform(p)|, |ToHandIn(p)|, Away(p, live) decreases to
     ToRead(q), ToBuild(q), |q.workerList|, |ToPerform(q)|, |ToHandIn(q)|, Away(q, live))
  }

  lemma PoppedNearer(p: PoolState, live: nat)
    requires Ok(p) && live < |p.threads| && p.threads[live] == AtPop && !p.building
    ensures var q := Popped(p, live);
            |q.threads| == |p.threads| && Nearer(q, p, live) && q.threads[live] != Exited
  {
    hide Conserved;
    hide OncePerformed;
    var q := Popped(p, live);
    if p.workerList == [] {
      assert ToPerform(q) == ToPerform(p);
      assert ToHandIn(q) == ToHandIn(p);
    }
  }

  lemma LookedNearer(p: PoolState, live: nat, groupsIndex: nat)
    requires Ok(p) && live < |p.threads| && p.threads[live].Looking? && !p.building && !Drained(p)
    requires ToPerform(p) == {} && ToHandIn(p) == {}
    ensures var q := Looked(p, live, groupsIndex);
            |q.threads| == |p.threads| && Nearer(q, p, live) && q.threads[live] != Exited
  {
    LookedWork(p, live, groupsIndex);
    hide Ok;
    var q := Looked(p, live, groupsIndex);
    assert Ok(p) ==> (p.groupRead <==> p.group == None) by { OkGroup(p); }
    hide Looked;
    if p.groupRead && p.unread == [] {
      assert p.workerList != [] by { NotDrained(p); }
      assert ToPerform(q) == ToPerform(p);
      assert ToHandIn(q) == ToHandIn(p);
    }
  }

  lemma OkGroup(p: PoolState)
    requires Ok(p)
    ensures p.groupRead <==> p.group == None
  {
  }

  lemma NotDrained(p: PoolState)
    requires !Drained(p) && ToPerform(p) == {} && ToHandIn(p) == {} && !p.building
    ensures p.unread != [] || p.group != None || p.workerList != []
  {
    if p.unread == [] && p.group == None && p.workerList == [] {
      forall t | 0 <= t < |p.threads| ensures !p.threads[t].Running? && !p.threads[t].Recorded? {
        assert t !in ToPerform(p) && t !in ToHandIn(p);
      }
    }
  }

  lemma FilledNearer(p: PoolState, live: nat)
    requires Ok(p) && live < |p.threads| && p.threads[live] != Exited && p.building
    ensures p.builder < |p.threads| && p.threads[p.builder].Filling?
    ensures var q := Filled(p, p.builder);
            |q.threads| == |p.threads| && Nearer(q, p, live) && q.threads[live] != Exited
  {
    hide Conserved;
    hide OncePerformed;
    hide OperMalloc;
  }

  lemma PerformedNearer(p: PoolState, t: nat, live: nat)
    requires Ok(p) && live < |p.threads| && t in ToPerform(p)
    ensures Nearer(Performed(p, t), p, live)
  {
    hide Conserved;
    hide OncePerformed;
    assert ToPerform(Performed(p, t)) == ToPerform(p) - {t};
  }

  lemma HandedInNearer(p: PoolState, t: nat, live: nat, n: nat)
    requires Ok(p) && live < |p.threads| && t in ToHandIn(p)
    ensures Nearer(HandedIn(p, t, n), p, live)
  {
    hide Conserved;
    hide OncePerformed;
    assert ToHandIn(HandedIn(p, t, n)) == ToHandIn(p) - {t};
    assert ToPerform(HandedIn(p, t, n)) == ToPerform(p);
  }

  lemma IncreasedNearer(p: PoolState, live: nat, minWorkerQueue: nat)
    requires Ok(p) && live < |p.threads| && p.threads[live] == Chosen
    ensures Nearer(Increased(p, live, minWorkerQueue), p, live)
  {
    hide Conserved;
    hide OncePerformed;
    var q := Increased(p, live, minWorkerQueue);
    assert ToPerform(q) == ToPerform(p);
    assert ToHandIn(q) == ToHandIn(p);
  }

  lemma NothingInHand(p: PoolState, t: nat)
    requires Ok(p) && t < |p.threads| && p.threads[t] != Exited
    requires ToPerform(p) == {} && ToHandIn(p) == {} && !p.building
    ensures p.threads[t] == AtPop || p.threads[t].Looking? || p.threads[t] == Chosen
  {
    assert t !in ToPerform(p) && t !in ToHandIn(p);
  }

  /** While something is left to do, some thread's step brings the end nearer and leaves `live` in place. */
  lemma StepNearer(p: PoolState, live: nat, groupsIndex: nat, minWorkerQueue: nat, n: nat) returns (t: nat)
    requires Ok(p) && live < |p.threads| && p.threads[live] != Exited && !Drained(p)
    ensures t < |p.threads|
    ensures var q := Next(p, t, groupsIndex, minWorkerQueue, n);
            |q.threads| == |p.threads| && q.threads[live] != Exited && Nearer(q, p, live)
  {
    hide Nearer;
    hide Ok;
    hide Drained;
    hide Looked;
    hide Popped;
    hide Filled;
    if t1 :| t1 in ToPerform(p) {
      t := t1;
      PerformedNearer(p, t, live);
    } else if t1 :| t1 in ToHandIn(p) {
      t := t1;
      HandedInNearer(p, t, live, n);
    } else if p.building {
      t := p.builder;
      FilledNearer(p, live);
    } else {
      t := live;
      NothingInHand(p, t);
      match p.threads[t] {
        case AtPop => PoppedNearer(p, t);
        case Looking(_) => LookedNearer(p, t, groupsIndex);
        case _ => IncreasedNearer(p, t, minWorkerQueue);
      }
    }
  }

  ghost function PoolOf(s: SystemState, onDisk: bool): PoolState { if onDisk then s.disk else s.digi }

  /** Steps of threads alone: nothing more is written. */
  predicate ThreadSteps(steps: seq<Step>, size: nat) {
    forall i :: 0 <= i < |steps| ==> steps[i].ThreadOn? && steps[i].thread < size
  }

  lemma GoodMore(steps: seq<Step>, more: seq<Step>, size: nat)
    requires GoodSteps(steps, size) && ThreadSteps(more, size)
    ensures GoodSteps(steps + more, size)
  {
    hide GoodGroup;
  }

  lemma AfterMore(steps: seq<Step>, step: Step, size: nat, groupsIndex: nat, minWorkerQueue: nat)
    requires GoodSteps(steps, size) && step.ThreadOn? && step.thread < size
    ensures GoodSteps(steps + [step], size)
    ensures var s := StateAfter(steps, size, groupsIndex, minWorkerQueue);
            && |s.disk.threads| == |s.digi.threads| == size
            && StateAfter(steps + [step], size, groupsIndex, minWorkerQueue)
               == NextState(s, step, groupsIndex, minWorkerQueue)
  {
    hide GoodGroup;
    hide NextState;
    hide SystemOk;
    assert (steps + [step])[..|steps|] == steps;
    var s := StateAfter(steps, size, groupsIndex, minWorkerQueue);
    assert |s.disk.threads| == |s.digi.threads| == size by { SystemParts(s, size); }
  }

  lemma OnlyThisPool(s: SystemState, onDisk: bool, t: nat, size: nat, groupsIndex: nat, minWorkerQueue: nat)
    requires SystemOk(s, size) && t < size
    ensures |s.disk.threads| == |s.digi.threads| == size
    ensures var s' := NextState(s, ThreadOn(onDisk, t), groupsIndex, minWorkerQueue);
            && PoolOf(s', onDisk) == Next(PoolOf(s, onDisk), t, groupsIndex, minWorkerQueue, |s.record.completed|)
            && PoolOf(s', !onDisk) == PoolOf(s, !onDisk) && s'.written == s.written
  {
    hide Next;
    hide Completed;
    hide Ok;
  }

  /** From any state of a run, steps of one pool's threads drain that pool, if one of them is left. */
  lemma {:induction false} DrainOne(steps: seq<Step>, p: PoolState, onDisk: bool, live: nat, size: nat,
                                    groupsIndex: nat, minWorkerQueue: nat) returns (more: seq<Step>)
    requires GoodSteps(steps, size) && p == PoolOf(StateAfter(steps, size, groupsIndex, minWorkerQueue), onDisk)
    requires live < |p.threads| && p.threads[live] != Exited
    ensures ThreadSteps(more, size) && GoodSteps(steps + more, size)
    ensures var s, s' := StateAfter(steps, size, groupsIndex, minWorkerQueue),
                         StateAfter(steps + more, size, groupsIndex, minWorkerQueue);
            Drained(PoolOf(s', onDisk)) && PoolOf(s', !onDisk) == PoolOf(s, !onDisk) && s'.written == s.written
    decreases ToRead(p), ToBuild(p), |p.workerList|, |ToPerform(p)|, |ToHandIn(p)|, Away(p, live)
  {
    hide SystemOk;
    hide GoodSteps;
    hide StateAfter;
    hide Drained;
    hide Next;
    hide NextState;
    hide Ok;
    var s := StateAfter(steps, size, groupsIndex, minWorkerQueue);
    SystemParts(s, size);
    if Drained(p) {
      more := [];
      assert steps + [] == steps;
    } else {
      var t := StepNearer(p, live, groupsIndex, minWorkerQueue, |s.record.completed|);
      AfterMore(steps, ThreadOn(onDisk, t), size, groupsIndex, minWorkerQueue);
      OnlyThisPool(s, onDisk, t, size, groupsIndex, minWorkerQueue);
      var q := Next(p, t, groupsIndex, minWorkerQueue, |s.record.completed|);
      var rest := DrainOne(steps + [ThreadOn(onDisk, t)], q, onDisk, live, size, groupsIndex, minWorkerQueue);
      more := [ThreadOn(onDisk, t)] + rest;
      assert steps + more == steps + [ThreadOn(onDisk, t)] + rest;
    }
  }

  /** A pool can be finished: it is, or a thread is left to do it. */
  ghost predicate CanEnd(p: PoolState) { Drained(p) || Live(p) }

  lemma DrainPool(steps: seq<Step>, onDisk: bool, size: nat, groupsIndex: nat, minWorkerQueue: nat)
      returns (more: seq<Step>)
    requires GoodSteps(steps, size)
    requires CanEnd(PoolOf(StateAfter(steps, size, groupsIndex, minWorkerQueue), onDisk))
    ensures ThreadSteps(more, size) && GoodSteps(steps + more, size)
    ensures var s, s' := StateAfter(steps, size, groupsIndex, minWorkerQueue),
                         StateAfter(steps + more, size, groupsIndex, minWorkerQueue);
            Drained(PoolOf(s', onDisk)) && PoolOf(s', !onDisk) == PoolOf(s, !onDisk) && s'.written == s.written
  {
    hide SystemOk;
    hide GoodSteps;
    hide StateAfter;
    hide Drained;
    var p := PoolOf(StateAfter(steps, size, groupsIndex, minWorkerQueue), onDisk);
    if Drained(p) {
      more := [];
      assert steps + [] == steps;
    } else {
      var live :| 0 <= live < |p.threads| && p.threads[live] != Exited;
      more := DrainOne(steps, p, onDisk, live, size, groupsIndex, minWorkerQueue);
    }
  }

  /** After any run, some steps of the threads drain both pools, if both can be finished. */
  lemma DrainBoth(steps: seq<Step>, size: nat, groupsIndex: nat, minWorkerQueue: nat) returns (more: seq<Step>)
    requires GoodSteps(steps, size)
    requires var s := StateAfter(steps, size, groupsIndex, minWorkerQueue); CanEnd(s.disk) && CanEnd(s.digi)
    ensures ThreadSteps(more, size) && GoodSteps(steps + more, size)
    ensures var s, s' := StateAfter(steps, size, groupsIndex, minWorkerQueue),
                         StateAfter(steps + more, size, groupsIndex, minWorkerQueue);
            Drained(s'.disk) && Drained(s'.digi) && s'.written == s.written
  {
    hide SystemOk;
    hide GoodSteps;
    hide StateAfter;
    hide Drained;
    hide CanEnd;
    var a := DrainPool(steps, true, size, groupsIndex, minWorkerQueue);
    var b := DrainPool(steps + a, false, size, groupsIndex, minWorkerQueue);
    more := a + b;
    assert steps + more == steps + a + b;
  }

  /** What a drained pool has done. */
  ghost predicate AllDone(p: PoolState) {
    && p.popped == p.stream && p.performed == Below(|p.stream|) && p.performSum == |p.stream|
    && forall i :: 0 <= i < |p.stream| ==> i in p.reported
  }

  lemma DrainedDone(p: PoolState)
    requires Ok(p) && AllHanded(p) && Drained(p)
    ensures AllDone(p)
  {
    AllPerformed(p);
    hide Ok;
    AllReported(p);
    hide AllHanded;
  }

  /** The completion that releases job `i`, when both pools have reported it. */
  ghost predicate Released(s: SystemState, i: nat)
    requires i < |s.disk.stream|
  {
    exists j :: 0 <= j < |s.record.completed| && j < |s.record.moved| && s.record.moved[j]
                && Key(s.record.completed[j]) == Key(s.disk.stream[i])
  }

  /** After any run from which both pools can be finished, some steps of the threads alone lead to a state
      where every job of the journal has been performed once on each mount, handed in, and released. */
  lemma EveryJobDone(steps: seq<Step>, size: nat, groupsIndex: nat, minWorkerQueue: nat) returns (more: seq<Step>)
    requires GoodSteps(steps, size)
    requires var s := StateAfter(steps, size, groupsIndex, minWorkerQueue); CanEnd(s.disk) && CanEnd(s.digi)
    ensures ThreadSteps(more, size) && GoodSteps(steps + more, size)
    ensures var s, s' := StateAfter(steps, size, groupsIndex, minWorkerQueue),
                         StateAfter(steps + more, size, groupsIndex, minWorkerQueue);
            && s'.written == s.written && GoodGroups(s.written)
            && s'.disk.stream == GroupsJobs(AsRead(s.written, Disk))
            && s'.digi.stream == GroupsJobs(AsRead(s.written, Digioceand))
            && AllDone(s'.disk) && AllDone(s'.digi)
            && forall i :: 0 <= i < |s'.disk.stream| ==> Released(s', i)
  {
    hide SystemOk;
    hide GoodSteps;
    hide StateAfter;
    hide CanEnd;
    hide Drained;
    hide GroupsJobs;
    hide AsRead;
    hide AllDone;
    hide Released;
    more := DrainBoth(steps, size, groupsIndex, minWorkerQueue);
    var s' := StateAfter(steps + more, size, groupsIndex, minWorkerQueue);
    SystemParts(s', size);
    DrainedDone(s'.disk);
    DrainedDone(s'.digi);
    ServesStreams(s', size);
    forall i | 0 <= i < |s'.disk.stream| ensures Released(s', i) { DoneReleased(s', size, i); }
  }

  lemma ServesStreams(s: SystemState, size: nat)
    requires SystemOk(s, size)
    ensures GoodGroups(s.written)
    ensures s.disk.stream == GroupsJobs(AsRead(s.written, Disk))
    ensures s.digi.stream == GroupsJobs(AsRead(s.written, Digioceand))
    ensures |s.disk.stream| == |s.digi.stream|
  {
    hide Ok;
    hide GroupsJobs;
    hide AsRead;
    hide GoodGroup;
    StreamTwins(s.written);
  }

  lemma DoneReleased(s: SystemState, size: nat, i: nat)
    requires SystemOk(s, size) && AllDone(s.disk) && AllDone(s.digi) && i < |s.disk.stream|
    ensures Released(s, i)
  {
    ServesStreams(s, size);
    hide SystemOk;
    hide Below;
    var j := ReleasedAfterBoth(s, size, i);
  }

  // Which pools can be finished.

  /** With all its threads gone a pool never changes again. */
  lemma {:induction false} Stuck(steps: seq<Step>, more: seq<Step>, onDisk: bool, size: nat, groupsIndex: nat,
                                 minWorkerQueue: nat)
    requires GoodSteps(steps, size) && ThreadSteps(more, size)
    requires !Live(PoolOf(StateAfter(steps, size, groupsIndex, minWorkerQueue), onDisk))
    ensures GoodSteps(steps + more, size)
    ensures PoolOf(StateAfter(steps + more, size, groupsIndex, minWorkerQueue), onDisk)
         == PoolOf(StateAfter(steps, size, groupsIndex, minWorkerQueue), onDisk)
  {
    hide SystemOk;
    hide GoodSteps;
    hide StateAfter;
    hide NextState;
    GoodMore(steps, more, size);
    if more == [] {
      assert steps + more == steps;
    } else {
      var n := |more| - 1;
      Stuck(steps, more[..n], onDisk, size, groupsIndex, minWorkerQueue);
      assert steps + more[..n] + [more[n]] == steps + more;
      AfterMore(steps + more[..n], more[n], size, groupsIndex, minWorkerQueue);
      var s := StateAfter(steps + more[..n], size, groupsIndex, minWorkerQueue);
      OnlyThisPool(s, more[n].onDisk, more[n].thread, size, groupsIndex, minWorkerQueue);
      assert PoolOf(s, onDisk).threads[more[n].thread] == Exited;
    }
  }

  ghost predicate Drains(steps: seq<Step>, more: seq<Step>, size: nat, groupsIndex: nat, minWorkerQueue: nat) {
    && GoodSteps(steps + more, size) && ThreadSteps(more, size)
    && Drained(StateAfter(steps + more, size, groupsIndex, minWorkerQueue).disk)
    && Drained(StateAfter(steps + more, size, groupsIndex, minWorkerQueue).digi)
  }

  /** After a run the threads can still drain both pools just if each is drained or has a thread left. */
  lemma DrainsExactly(steps: seq<Step>, size: nat, groupsIndex: nat, minWorkerQueue: nat)
    requires GoodSteps(steps, size)
    ensures (exists more :: Drains(steps, more, size, groupsIndex, minWorkerQueue))
       <==> var s := StateAfter(steps, size, groupsIndex, minWorkerQueue);
            (Drained(s.disk) || Live(s.disk)) && (Drained(s.digi) || Live(s.digi))
  {
    hide SystemOk;
    hide GoodSteps;
    hide StateAfter;
    hide Live;
    hide Drained;
    var s := StateAfter(steps, size, groupsIndex, minWorkerQueue);
    if CanEnd(s.disk) && CanEnd(s.digi) {
      var more := DrainBoth(steps, size, groupsIndex, minWorkerQueue);
      assert Drains(steps, more, size, groupsIndex, minWorkerQueue);
    } else {
      forall more | Drains(steps, more, size, groupsIndex, minWorkerQueue) ensures false {
        Stuck(steps, more, !CanEnd(s.disk), size, groupsIndex, minWorkerQueue);
      }
    }
  }

  /** A thread leaves only when all announced groups have been read, and the last one only from an empty pool. */
  ghost predicate InTime(p: PoolState, groupsIndex: nat) {
    && (forall t :: 0 <= t < |p.threads| && p.threads[t] == Exited ==> p.readIndex >= groupsIndex)
    && (!Live(p) && p.threads != [] ==> p.workerList == [] && p.unread == [] && p.group == None)
  }

  lemma InTimeNext(p: PoolState, t: nat, groupsIndex: nat, minWorkerQueue: nat, n: nat)
    requires Ok(p) && InTime(p, groupsIndex) && t < |p.threads|
    ensures InTime(Next(p, t, groupsIndex, minWorkerQueue, n), groupsIndex)
  {
    hide Conserved;
    hide OneBuilder;
    hide OncePerformed;
    hide OperMalloc;
    var q := Next(p, t, groupsIndex, minWorkerQueue, n);
    if p.threads[t].Looking? {
      LookedWork(p, t, groupsIndex);
      hide Looked;
      assert q.threads[t] != Exited ==> Live(q);
    } else if p.threads[t] != Exited {
      assert q.threads[t] != Exited && q.readIndex == p.readIndex;
      assert Live(q);
    }
  }

  lemma InTimeAppended(p: PoolState, g: Group, groupsIndex: nat)
    requires InTime(p, groupsIndex) && p.readIndex < groupsIndex
    ensures InTime(Appended(p, g), groupsIndex)
  {
    hide Jobs;
    if p.threads != [] {
      assert Appended(p, g).threads[0] != Exited;
      assert Live(Appended(p, g));
    }
  }

  lemma InTimeStep(s: SystemState, step: Step, size: nat, groupsIndex: nat, minWorkerQueue: nat)
    requires SystemOk(s, size) && InTime(s.disk, groupsIndex) && InTime(s.digi, groupsIndex)
    requires (step.GroupWritten? ==> GoodGroup(step.g) && |s.written| < groupsIndex)
    requires step.ThreadOn? ==> step.thread < size
    ensures var s' := NextState(s, step, groupsIndex, minWorkerQueue);
            InTime(s'.disk, groupsIndex) && InTime(s'.digi, groupsIndex)
  {
    hide Ok;
    hide AllHanded;
    hide RecordOk;
    hide Reported;
    hide InTime;
    hide Next;
    hide Completed;
    hide Appended;
    hide GoodGroup;
    hide GroupAsRead;
    match step {
      case GroupWritten(g) =>
        InTimeAppended(s.disk, GroupAsRead(g, |s.written|, Disk), groupsIndex);
        InTimeAppended(s.digi, GroupAsRead(g, |s.written|, Digioceand), groupsIndex);
      case ThreadOn(onDisk, t) =>
        InTimeNext(PoolOf(s, onDisk), t, groupsIndex, minWorkerQueue, |s.record.completed|);
    }
  }

  lemma IdleInTime(size: nat, groupsIndex: nat)
    ensures InTime(Idle(size), groupsIndex)
  {
    if size > 0 { assert Idle(size).threads[0] != Exited; }
  }

  lemma {:induction false} AllInTime(steps: seq<Step>, size: nat, groupsIndex: nat, minWorkerQueue: nat)
    requires GoodSteps(steps, size) && |StateAfter(steps, size, groupsIndex, minWorkerQueue).written| <= groupsIndex
    ensures var s := StateAfter(steps, size, groupsIndex, minWorkerQueue);
            InTime(s.disk, groupsIndex) && InTime(s.digi, groupsIndex)
  {
    hide SystemOk;
    hide InTime;
    hide GoodGroup;
    hide Next;
    hide Completed;
    hide Appended;
    hide GroupAsRead;
    hide Idle;
    if steps == [] {
      IdleInTime(size, groupsIndex);
    } else {
      var n := |steps| - 1;
      GoodFront(steps, size);
      AllInTime(steps[..n], size, groupsIndex, minWorkerQueue);
      var s := StateAfter(steps[..n], size, groupsIndex, minWorkerQueue);
      InTimeStep(s, steps[n], size, groupsIndex, minWorkerQueue);
    }
  }

  lemma InTimeCanEnd(p: PoolState, groupsIndex: nat)
    requires Ok(p) && InTime(p, groupsIndex) && p.threads != []
    ensures CanEnd(p)
  {
    hide Conserved;
    hide OncePerformed;
  }

  /** As long as no more groups have been written than were announced, no thread has left too early: with at
      least one thread a pool, every run can go on to do every job of the journal. */
  lemma AnnouncedJobsDone(steps: seq<Step>, size: nat, groupsIndex: nat, minWorkerQueue: nat) returns (more: seq<Step>)
    requires GoodSteps(steps, size) && size > 0
    requires |StateAfter(steps, size, groupsIndex, minWorkerQueue).written| <= groupsIndex
    ensures ThreadSteps(more, size) && GoodSteps(steps + more, size)
    ensures var s, s' := StateAfter(steps, size, groupsIndex, minWorkerQueue),
                         StateAfter(steps + more, size, groupsIndex, minWorkerQueue);
            && s'.written == s.written && AllDone(s'.disk) && AllDone(s'.digi)
            && forall i :: 0 <= i < |s'.disk.stream| ==> Released(s', i)
  {
    hide GoodSteps;
    hide StateAfter;
    hide InTime;
    hide CanEnd;
    hide AllDone;
    hide Released;
    var s := StateAfter(steps, size, groupsIndex, minWorkerQueue);
    SystemParts(s, size);
    hide SystemOk;
    hide Ok;
    AllInTime(steps, size, groupsIndex, minWorkerQueue);
    InTimeCanEnd(s.disk, groupsIndex);
    InTimeCanEnd(s.digi, groupsIndex);
    more := EveryJobDone(steps, size, groupsIndex, minWorkerQueue);
  }
}
