/** One thread_pool and the steps of its threads (thread_manager.c:540-720, 911-1049), and both pools
    together with the journal they read and their manager. */
module ThreadPool {
  import opened JournalGroups
  import opened WorkerPool
  import opened Wrappers

  /** A pool at one moment.  `unread` is what analyze_string_read has still to give.  For the proofs:
      `stream`, all jobs of the journal so far; `popped`, those removed from the queue, and `owner`, who
      removed them; `performed`, which of them have been; `reported`, where their completion stands in
      the manager's record; `builder`, the thread that builds. */
  datatype PoolState = PoolState(
    threads: seq<Local>, unread: seq<Group>, group: Option<Group>, groupRead: bool, building: bool,
    workerList: seq<Worker>, workerSize: int, readIndex: nat, performSum: int,
    stream: seq<Worker>, popped: seq<Worker>, owner: seq<nat>, performed: set<nat>, reported: map<nat, nat>,
    builder: nat)

  /** What the building thread has still to put into the queue. */
  ghost function Remaining(p: PoolState): seq<Worker> {
    if p.building && p.builder < |p.threads| && p.threads[p.builder].Filling?
    then Jobs(p.threads[p.builder].ops, p.threads[p.builder].groupIndex) else []
  }

  ghost function Pending(p: PoolState): seq<Worker> {
    if p.group.Some? then Jobs(p.group.value.lists, p.group.value.index) else []
  }

  /** Nothing lost, nothing twice, nothing out of order. */
  ghost predicate Conserved(p: PoolState) {
    p.stream == p.popped + (p.workerList + (Remaining(p) + (Pending(p) + GroupsJobs(p.unread))))
  }

  /** At most one thread builds, and `building` tells whether one does. */
  ghost predicate OneBuilder(p: PoolState) {
    && (p.building ==> p.builder < |p.threads| && p.threads[p.builder].Filling?)
    && forall t :: 0 <= t < |p.threads| && p.threads[t].Filling? ==> p.building && t == p.builder
  }

  /** Every removed job is performed by the thread that removed it, once. */
  ghost predicate OncePerformed(p: PoolState) {
    && |p.owner| == |p.popped| && p.performSum == |p.performed|
    && (forall i :: i in p.performed ==> 0 <= i < |p.popped|)
    && (forall t :: 0 <= t < |p.threads| && p.threads[t].Running? ==>
          && p.threads[t].at < |p.popped| && p.popped[p.threads[t].at] == p.threads[t].worker
          && p.owner[p.threads[t].at] == t && p.threads[t].at !in p.performed)
    && (forall t :: 0 <= t < |p.threads| && p.threads[t].Recorded? ==>
          p.threads[t].at < |p.popped| && p.popped[p.threads[t].at] == p.threads[t].worker)
    && forall i :: 0 <= i < |p.popped| && i !in p.performed ==>
          p.owner[i] < |p.threads| && p.threads[p.owner[i]].Running? && p.threads[p.owner[i]].at == i
  }

  /** Every performed job has been handed in to the manager, or its thread is about to. */
  ghost predicate AllHanded(p: PoolState) {
    forall i :: i in p.performed ==>
      i in p.reported
      || (i < |p.owner| && p.owner[i] < |p.threads| && p.threads[p.owner[i]].Recorded? && p.threads[p.owner[i]].at == i)
  }

  ghost predicate Ok(p: PoolState) {
    && Conserved(p) && OneBuilder(p) && OncePerformed(p)
    && p.workerSize == |p.workerList| && (p.groupRead <==> p.group == None)
  }

  /** Every completion that has reached the manager is on record there, as this pool's. */
  ghost predicate Reported(p: PoolState, r: Record, onDisk: bool) {
    forall i :: i in p.reported ==>
      i < |p.popped| && p.reported[i] < |r.completed| && p.reported[i] < |r.from|
      && r.completed[p.reported[i]] == p.popped[i] && r.from[p.reported[i]] == onDisk
  }

  ghost function Idle(size: nat): PoolState {
    PoolState(seq(size, _ => AtPop), [], None, true, false, [], 0, 0, 0, [], [], [], {}, map[], 0)
  }

  /** The generator appends a group to the journal. */
  ghost function Appended(p: PoolState, g: Group): PoolState {
    p.(unread := p.unread + [g], stream := p.stream + Jobs(g.lists, g.index))
  }

  ghost function GoneTo(p: PoolState, t: nat, l: Local): PoolState
    requires t < |p.threads|
  {
    p.(threads := p.threads[t := l])
  }

  /** 689-716: with a job in the queue the thread takes the first; else it looks for work. */
  ghost function Popped(p: PoolState, t: nat): PoolState
    requires t < |p.threads|
  {
    if p.workerList == [] then GoneTo(p, t, Looking(true))
    else
      GoneTo(p, t, Running(p.workerList[0], |p.popped|)).(
        workerList := p.workerList[1..], workerSize := p.workerSize - 1,
        popped := p.popped + [p.workerList[0]], owner := p.owner + [t])
  }

  /** 549-607, build_worker_queue up to the first unlock: a group is read if none is at hand, or the thread
      begins to build the one at hand, or leaves it to the builder. */
  ghost function Looked(p: PoolState, t: nat, groupsIndex: nat): PoolState
    requires t < |p.threads| && p.threads[t].Looking?
  {
    var ended := p.readIndex >= groupsIndex && p.workerSize <= 0;
    var back := if ended && p.threads[t].popping then Exited else AtPop;
    if p.groupRead then
      if p.unread == [] then GoneTo(p, t, back) else GroupTaken(p, t)
    else if p.group == None then GoneTo(p, t, back)
    else if p.building then GoneTo(p, t, AtPop)
    else Begun(p, t)
  }

  /** 552-557. */
  ghost function GroupTaken(p: PoolState, t: nat): PoolState
    requires t < |p.threads| && p.unread != []
  {
    GoneTo(p, t, AtPop).(
      group := Some(p.unread[0]), unread := p.unread[1..], readIndex := p.readIndex + 1, groupRead := false)
  }

  /** 602-604. */
  ghost function Begun(p: PoolState, t: nat): PoolState
    requires t < |p.threads| && p.group.Some?
  {
    GoneTo(p, t, Filling(p.group.value.lists, p.group.value.index)).(
      group := None, groupRead := true, building := true, builder := t)
  }

  /** 610-674: one operation list becomes a job at the end of the queue, or none; or the list is done. */
  ghost function Filled(p: PoolState, t: nat): PoolState
    requires t < |p.threads| && p.threads[t].Filling?
  {
    var ops, index := p.threads[t].ops, p.threads[t].groupIndex;
    if ops == [] then GoneTo(p, t, AtPop).(building := false)
    else
      match OperMalloc(ops[0], index)
      case None => GoneTo(p, t, Filling(ops[1..], index))
      case Some(w) =>
        GoneTo(p, t, Filling(ops[1..], index)).(workerList := p.workerList + [w], workerSize := p.workerSize + 1)
  }

  /** 991-1036: the function is called and the job counted. */
  ghost function Performed(p: PoolState, t: nat): PoolState
    requires t < |p.threads| && p.threads[t].Running?
  {
    GoneTo(p, t, Recorded(p.threads[t].worker, p.threads[t].at)).(
      performSum := p.performSum + 1, performed := p.performed + {p.threads[t].at})
  }

  /** 1038: the completion goes to place `n` of the manager's record. */
  ghost function HandedIn(p: PoolState, t: nat, n: nat): PoolState
    requires t < |p.threads| && p.threads[t].Recorded?
  {
    GoneTo(p, t, Chosen).(reported := p.reported[p.threads[t].at := n])
  }

  /** 1045, 919-925: a short queue is a reason to look for work before the next removal. */
  ghost function Increased(p: PoolState, t: nat, minWorkerQueue: nat): PoolState
    requires t < |p.threads|
  {
    GoneTo(p, t, if p.workerSize < minWorkerQueue then Looking(false) else AtPop)
  }

  /** One thread goes on from where it stands. */
  ghost function Next(p: PoolState, t: nat, groupsIndex: nat, minWorkerQueue: nat, n: nat): PoolState
    requires t < |p.threads|
  {
    match p.threads[t]
    case AtPop => Popped(p, t)
    case Looking(_) => Looked(p, t, groupsIndex)
    case Filling(_, _) => Filled(p, t)
    case Running(_, _) => Performed(p, t)
    case Recorded(_, _) => HandedIn(p, t, n)
    case Chosen => Increased(p, t, minWorkerQueue)
    case Exited => p
  }

  // Every step keeps the invariants.

  lemma GroupsJobsStep(groups: seq<Group>)
    requires groups != []
    ensures GroupsJobs(groups) == Jobs(groups[0].lists, groups[0].index) + GroupsJobs(groups[1..])
  {
  }

  lemma JobsNone(index: int)
    ensures Jobs([], index) == []
  {
  }

  lemma JobsStep(ops: seq<OpList>, index: int)
    requires ops != []
    ensures var worker := OperMalloc(ops[0], index);
            Jobs(ops, index) == (if worker.Some? then [worker.value] else []) + Jobs(ops[1..], index)
  {
  }

  lemma FirstOver(a: seq<Worker>, b: seq<Worker>, c: seq<Worker>)
    requires b != []
    ensures a + (b + c) == (a + [b[0]]) + (b[1..] + c)
  {
  }

  lemma MoveOver(a: seq<Worker>, b: seq<Worker>, c: seq<Worker>, d: seq<Worker>, e: seq<Worker>)
    ensures a + (b + ((c + d) + e)) == a + ((b + c) + (d + e))
  {
  }

  lemma IdleOk(size: nat)
    ensures Ok(Idle(size))
  {
  }

  lemma AppendedOk(p: PoolState, g: Group)
    requires Ok(p)
    ensures Ok(Appended(p, g))
  {
    GroupsJobsSnoc(p.unread, g);
    hide Jobs;
    hide GroupsJobs;
  }

  lemma GoneToOk(p: PoolState, t: nat, l: Local)
    requires Ok(p) && t < |p.threads| && !p.threads[t].Filling? && !p.threads[t].Running?
    requires !l.Filling? && !l.Running? && !l.Recorded?
    ensures Ok(GoneTo(p, t, l))
  {
    hide Jobs;
    hide GroupsJobs;
  }

  lemma PoppedOk(p: PoolState, t: nat)
    requires Ok(p) && t < |p.threads| && p.threads[t] == AtPop
    ensures Ok(Popped(p, t))
  {
    hide Jobs;
    hide GroupsJobs;
    if p.workerList == [] {
      GoneToOk(p, t, Looking(true));
    } else {
      FirstOver(p.popped, p.workerList, Remaining(p) + (Pending(p) + GroupsJobs(p.unread)));
    }
  }

  lemma LookedOk(p: PoolState, t: nat, groupsIndex: nat)
    requires Ok(p) && t < |p.threads| && p.threads[t].Looking?
    ensures Ok(Looked(p, t, groupsIndex))
  {
    hide Conserved;
    hide OneBuilder;
    hide OncePerformed;
    hide GroupTaken;
    hide Begun;
    hide GoneTo;
    if p.groupRead && p.unread != [] {
      GroupTakenOk(p, t);
    } else if !p.groupRead && !p.building {
      BegunOk(p, t);
    } else {
      GoneToOk(p, t, AtPop);
      GoneToOk(p, t, Exited);
    }
  }

  lemma GroupTakenOk(p: PoolState, t: nat)
    requires Ok(p) && t < |p.threads| && p.threads[t].Looking? && p.unread != [] && p.group == None
    ensures Ok(GroupTaken(p, t))
  {
    var p' := GroupTaken(p, t);
    GoneToOk(p, t, AtPop);
    GroupsJobsStep(p.unread);
    hide Jobs;
    hide GroupsJobs;
    assert Conserved(p') by {
      hide OneBuilder;
      hide OncePerformed;
      assert Remaining(p') == Remaining(p);
      NoneFirst(GroupsJobs(p.unread));
    }
    hide Conserved;
    assert OncePerformed(p') by {
      hide OneBuilder;
      assert OncePerformed(GoneTo(p, t, AtPop));
    }
    assert OneBuilder(p') by {
      hide OncePerformed;
      assert OneBuilder(GoneTo(p, t, AtPop));
    }
  }

  lemma NoneFirst(a: seq<Worker>)
    ensures [] + a == a
  {
  }

  lemma BegunOk(p: PoolState, t: nat)
    requires Ok(p) && t < |p.threads| && p.threads[t].Looking? && p.group.Some? && !p.building
    ensures Ok(Begun(p, t))
  {
    hide Jobs;
    hide GroupsJobs;
  }

  /** What a look does: the next group is taken, or the one at hand is begun, or left to its builder; and a
      thread exits just if all groups are read, the queue is empty, and it came to remove a job. */
  lemma LookedWork(p: PoolState, t: nat, groupsIndex: nat)
    requires Ok(p) && t < |p.threads| && p.threads[t].Looking?
    ensures var p' := Looked(p, t, groupsIndex);
            && p'.workerList == p.workerList && p'.popped == p.popped && p'.performed == p.performed
            && |p'.threads| == |p.threads|
            && (forall u :: 0 <= u < |p.threads| && u != t ==> p'.threads[u] == p.threads[u])
            && (p.groupRead && p.unread != [] ==>
                  && p'.group == Some(p.unread[0]) && p'.unread == p.unread[1..] && p'.readIndex == p.readIndex + 1
                  && !p'.groupRead && p'.threads[t] == AtPop && p'.building == p.building)
            && (p.groupRead && p.unread == [] ==>
                  && p'.unread == [] && p'.group == None && p'.groupRead && p'.building == p.building
                  && p'.readIndex == p.readIndex
                  && (p'.threads[t] == Exited <==>
                        p.readIndex >= groupsIndex && p.workerList == [] && p.threads[t].popping)
                  && (p'.threads[t] != Exited ==> p'.threads[t] == AtPop))
            && (!p.groupRead && !p.building ==>
                  && p.group.Some? && p'.threads[t] == Filling(p.group.value.lists, p.group.value.index)
                  && p'.building && p'.builder == t && p'.group == None && p'.groupRead && p'.unread == p.unread
                  && p'.readIndex == p.readIndex)
            && (!p.groupRead && p.building ==>
                  && p'.threads[t] == AtPop && p'.group == p.group && !p'.groupRead && p'.building
                  && p'.builder == p.builder && p'.unread == p.unread && p'.readIndex == p.readIndex)
  {
    hide Conserved;
    hide OneBuilder;
    hide OncePerformed;
  }

  lemma FilledOk(p: PoolState, t: nat)
    requires Ok(p) && t < |p.threads| && p.threads[t].Filling?
    ensures Ok(Filled(p, t))
  {
    hide Jobs;
    hide GroupsJobs;
    hide OperMalloc;
    var ops, index := p.threads[t].ops, p.threads[t].groupIndex;
    if ops == [] {
      JobsNone(index);
    } else {
      FilledOn(p, t);
    }
  }

  lemma FilledOn(p: PoolState, t: nat)
    requires Ok(p) && t < |p.threads| && p.threads[t].Filling? && p.threads[t].ops != []
    ensures Ok(Filled(p, t))
  {
    hide Jobs;
    hide GroupsJobs;
    hide OperMalloc;
    var ops, index := p.threads[t].ops, p.threads[t].groupIndex;
    JobsStep(ops, index);
    var worker := OperMalloc(ops[0], index);
    var one := if worker.Some? then [worker.value] else [];
    var tail := Pending(p) + GroupsJobs(p.unread);
    MoveOver(p.popped, p.workerList, one, Jobs(ops[1..], index), tail);
    assert Conserved(Filled(p, t)) by {
      assert Filled(p, t).workerList == p.workerList + one;
    }
  }

  lemma PerformedOk(p: PoolState, t: nat)
    requires Ok(p) && t < |p.threads| && p.threads[t].Running?
    ensures Ok(Performed(p, t))
  {
    hide Jobs;
    hide GroupsJobs;
  }

  lemma HandedInOk(p: PoolState, t: nat, n: nat)
    requires Ok(p) && t < |p.threads| && p.threads[t].Recorded?
    ensures Ok(HandedIn(p, t, n))
  {
    GoneToOk(p, t, Chosen);
    hide Jobs;
    hide GroupsJobs;
  }

  /** Whatever step a thread takes: no job is lost, doubled or reordered, one thread builds at most, and
      every removed job is performed by the thread that removed it, once. */
  lemma NextOk(p: PoolState, t: nat, groupsIndex: nat, minWorkerQueue: nat, n: nat)
    requires Ok(p) && t < |p.threads|
    ensures Ok(Next(p, t, groupsIndex, minWorkerQueue, n))
  {
    hide Conserved;
    hide OneBuilder;
    hide OncePerformed;
    hide Popped;
    hide Looked;
    hide Filled;
    match p.threads[t] {
      case AtPop => PoppedOk(p, t);
      case Looking(_) => LookedOk(p, t, groupsIndex);
      case Filling(_, _) => FilledOk(p, t);
      case Running(_, _) => PerformedOk(p, t);
      case Recorded(_, _) => HandedInOk(p, t, n);
      case Chosen => GoneToOk(p, t, if p.workerSize < minWorkerQueue then Looking(false) else AtPop);
      case Exited =>
    }
  }

  /** A step of a thread that has no job in hand leaves the reports as they are. */
  lemma OthersHanded(p: PoolState, p': PoolState, t: nat)
    requires AllHanded(p) && t < |p.threads| == |p'.threads| && !p.threads[t].Recorded?
    requires p'.performed == p.performed && p'.reported == p.reported && p.owner <= p'.owner
    requires forall u :: 0 <= u < |p.threads| && u != t ==> p'.threads[u] == p.threads[u]
    ensures AllHanded(p')
  {
  }

  lemma PerformedHanded(p: PoolState, t: nat)
    requires OncePerformed(p) && AllHanded(p) && t < |p.threads| && p.threads[t].Running?
    ensures AllHanded(Performed(p, t))
  {
    var p' := Performed(p, t);
    forall i | i in p'.performed && i !in p'.reported
      ensures i < |p'.owner| && p'.owner[i] < |p'.threads|
              && p'.threads[p'.owner[i]].Recorded? && p'.threads[p'.owner[i]].at == i
    {
      if i == p.threads[t].at { assert p.owner[i] == t; }
    }
  }

  lemma HandedInHanded(p: PoolState, t: nat, n: nat)
    requires AllHanded(p) && t < |p.threads| && p.threads[t].Recorded?
    ensures AllHanded(HandedIn(p, t, n))
  {
  }

  lemma PoppedHanded(p: PoolState, t: nat)
    requires AllHanded(p) && t < |p.threads| && p.threads[t] == AtPop
    ensures AllHanded(Popped(p, t))
  {
    hide AllHanded;
    OthersHanded(p, Popped(p, t), t);
  }

  lemma LookedHanded(p: PoolState, t: nat, groupsIndex: nat)
    requires AllHanded(p) && t < |p.threads| && p.threads[t].Looking?
    ensures AllHanded(Looked(p, t, groupsIndex))
  {
    hide AllHanded;
    OthersHanded(p, Looked(p, t, groupsIndex), t);
  }

  lemma FilledHanded(p: PoolState, t: nat)
    requires AllHanded(p) && t < |p.threads| && p.threads[t].Filling?
    ensures AllHanded(Filled(p, t))
  {
    hide AllHanded;
    hide OperMalloc;
    OthersHanded(p, Filled(p, t), t);
  }

  lemma IncreasedHanded(p: PoolState, t: nat, minWorkerQueue: nat)
    requires AllHanded(p) && t < |p.threads| && p.threads[t] == Chosen
    ensures AllHanded(Increased(p, t, minWorkerQueue))
  {
    hide AllHanded;
    OthersHanded(p, Increased(p, t, minWorkerQueue), t);
  }

  /** No step leaves a performed job without its report. */
  lemma NextHanded(p: PoolState, t: nat, groupsIndex: nat, minWorkerQueue: nat, n: nat)
    requires Ok(p) && AllHanded(p) && t < |p.threads|
    ensures AllHanded(Next(p, t, groupsIndex, minWorkerQueue, n))
  {
    hide OncePerformed;
    hide AllHanded;
    hide Popped;
    hide Looked;
    hide Filled;
    hide Performed;
    hide HandedIn;
    hide Increased;
    hide Conserved;
    hide OneBuilder;
    match p.threads[t] {
      case AtPop => PoppedHanded(p, t);
      case Looking(_) => LookedHanded(p, t, groupsIndex);
      case Filling(_, _) => FilledHanded(p, t);
      case Running(_, _) => PerformedHanded(p, t);
      case Recorded(_, _) => HandedInHanded(p, t, n);
      case Chosen => IncreasedHanded(p, t, minWorkerQueue);
      case Exited =>
    }
  }

  /** The jobs are removed in the order of the journal, and all that are missing are in the queue, in the
      builder's hands, in the group at hand, or unread. */
  lemma RemovedInOrder(p: PoolState)
    requires Ok(p)
    ensures |p.popped| <= |p.stream| && p.popped == p.stream[..|p.popped|]
    ensures p.stream[|p.popped|..] == p.workerList + (Remaining(p) + (Pending(p) + GroupsJobs(p.unread)))
    ensures p.workerSize == |p.workerList|
  {
    hide Jobs;
    hide GroupsJobs;
  }

  /** When all is read, built and removed, and no thread has a job in hand, every job of the journal has
      been performed, exactly once. */
  lemma AllPerformed(p: PoolState)
    requires Ok(p) && p.unread == [] && p.group == None && !p.building && p.workerList == []
    requires forall t :: 0 <= t < |p.threads| ==> !p.threads[t].Running?
    ensures p.popped == p.stream && p.performed == Below(|p.stream|)
    ensures p.performSum == |p.stream|
  {
    assert p.popped == p.stream;
    hide Jobs;
    hide GroupsJobs;
    assert p.performed == Below(|p.stream|);
  }

  /** And when none has a completion left to hand in, every job's completion is on record. */
  lemma AllReported(p: PoolState)
    requires AllHanded(p) && p.performed == Below(|p.stream|)
    requires forall t :: 0 <= t < |p.threads| ==> !p.threads[t].Recorded?
    ensures forall i :: 0 <= i < |p.stream| ==> i in p.reported
  {
  }

  function Below(n: nat): (s: set<nat>)
    ensures |s| == n && forall i :: i in s <==> 0 <= i < n
  {
    if n == 0 then {} else Below(n - 1) + {n - 1}
  }

  class Pool {
    const threads: array<Local>
    const onDisk: bool
    var unread: seq<Group>
    var group: Option<Group>
    var groupRead: bool
    var building: bool
    var workerList: seq<Worker>
    var workerSize: int
    var readIndex: nat
    var performSum: int
    ghost var stream: seq<Worker>
    ghost var popped: seq<Worker>
    ghost var owner: seq<nat>
    ghost var performed: set<nat>
    ghost var reported: map<nat, nat>
    ghost var builder: nat

    ghost function Now(): PoolState
      reads this, threads
    {
      PoolState(threads[..], unread, group, groupRead, building, workerList, workerSize, readIndex, performSum,
                stream, popped, owner, performed, reported, builder)
    }

    ghost predicate Valid()
      reads this, threads
    {
      Ok(Now())
    }

    constructor (size: nat, onDisk: bool)
      ensures Valid() && fresh(threads) && threads.Length == size && this.onDisk == onDisk && Now() == Idle(size)
    {
      IdleOk(size);
      threads := new Local[size](_ => AtPop);
      this.onDisk := onDisk;
      unread, group, groupRead, building := [], None, true, false;
      workerList, workerSize, readIndex, performSum := [], 0, 0, 0;
      stream, popped, owner, performed, reported, builder := [], [], [], {}, map[], 0;
      new;
      assert threads[..] == seq(size, _ => AtPop);
    }

    method Append(g: Group)
      requires Valid()
      modifies this
      ensures Valid() && Now() == Appended(old(Now()), g)
    {
      hide Ok;
      hide Jobs;
      AppendedOk(Now(), g);
      unread := unread + [g];
      stream := stream + Jobs(g.lists, g.index);
    }

    method PopStep(t: nat)
      requires Valid() && t < threads.Length && threads[t] == AtPop
      modifies this, threads
      ensures Valid() && Now() == Popped(old(Now()), t)
      ensures old(workerList) != [] ==>
                && threads[t] == Running(old(workerList)[0], old(|popped|)) && workerList == old(workerList)[1..]
                && workerSize == old(workerSize) - 1
                && popped == old(popped) + [old(workerList)[0]] && owner == old(owner) + [t]
      ensures old(workerList) == [] ==>
                threads[t] == Looking(true) && workerList == [] && popped == old(popped) && owner == old(owner)
      ensures forall u :: 0 <= u < threads.Length && u != t ==> threads[u] == old(threads[u])
      ensures unread == old(unread) && group == old(group) && building == old(building) && performed == old(performed)
    {
      hide Ok;
      PoppedOk(Now(), t);
      if workerList == [] {
        threads[t] := Looking(true);
      } else {
        var worker := workerList[0];
        workerList := workerList[1..];
        workerSize := workerSize - 1;
        threads[t] := Running(worker, |popped|);
        popped := popped + [worker];
        owner := owner + [t];
      }
      assert threads[..] == old(threads[..])[t := threads[t]];
    }

    method LookStep(t: nat, groupsIndex: nat)
      requires Valid() && t < threads.Length && threads[t].Looking?
      modifies this, threads
      ensures Valid() && Now() == Looked(old(Now()), t, groupsIndex)
      ensures old(groupRead) && old(unread) != [] ==>
                && group == Some(old(unread)[0]) && unread == old(unread)[1..] && readIndex == old(readIndex) + 1
                && !groupRead && threads[t] == AtPop && building == old(building)
      ensures !old(groupRead) && !old(building) ==>
                && threads[t] == Filling(old(group).value.lists, old(group).value.index) && building && builder == t
                && group == None && groupRead && unread == old(unread) && readIndex == old(readIndex)
      ensures !old(groupRead) && old(building) ==>
                && threads[t] == AtPop && group == old(group) && !groupRead && building && builder == old(builder)
                && unread == old(unread) && readIndex == old(readIndex)
      ensures old(groupRead) && old(unread) == [] ==>
                && unread == [] && group == None && groupRead && building == old(building) && readIndex == old(readIndex)
                && (threads[t] == Exited <==>
                      old(readIndex) >= groupsIndex && old(workerList) == [] && old(threads[t].popping))
                && (threads[t] != Exited ==> threads[t] == AtPop)
      ensures forall u :: 0 <= u < threads.Length && u != t ==> threads[u] == old(threads[u])
      ensures workerList == old(workerList) && popped == old(popped) && performed == old(performed)
    {
      hide Ok;
      hide GroupTaken;
      hide Begun;
      ghost var before := Now();
      LookedOk(before, t, groupsIndex);
      var ended := readIndex >= groupsIndex && workerSize <= 0;
      var back := if ended && threads[t].popping then Exited else AtPop;
      if groupRead {
        if unread == [] { Go(t, back); } else { TakeGroup(t); }
      } else if group == None {
        Go(t, back);
      } else if building {
        Go(t, AtPop);
      } else {
        Begin(t);
      }
      LookedWork(before, t, groupsIndex);
    }

    method Go(t: nat, l: Local)
      requires t < threads.Length
      modifies threads
      ensures Now() == GoneTo(old(Now()), t, l)
    {
      threads[t] := l;
      assert threads[..] == old(threads[..])[t := l];
    }

    method TakeGroup(t: nat)
      requires t < threads.Length && unread != []
      modifies this, threads
      ensures Now() == GroupTaken(old(Now()), t)
    {
      group := Some(unread[0]);
      unread := unread[1..];
      readIndex := readIndex + 1;
      groupRead := false;
      threads[t] := AtPop;
      assert threads[..] == old(threads[..])[t := AtPop];
    }

    method Begin(t: nat)
      requires t < threads.Length && group.Some?
      modifies this, threads
      ensures Now() == Begun(old(Now()), t)
    {
      var g := group.value;
      group, groupRead, building := None, true, true;
      builder := t;
      threads[t] := Filling(g.lists, g.index);
      assert threads[..] == old(threads[..])[t := threads[t]];
    }

    method FillStep(t: nat)
      requires Valid() && t < threads.Length && threads[t].Filling?
      modifies this, threads
      ensures Valid() && Now() == Filled(old(Now()), t)
      ensures old(threads[t].ops) == [] ==> !building && threads[t] == AtPop && workerList == old(workerList)
      ensures old(threads[t].ops) != [] ==>
                var op, index := old(threads[t].ops)[0], old(threads[t].groupIndex);
                && threads[t] == Filling(old(threads[t].ops)[1..], index) && building == old(building)
                && |workerList| == old(|workerList|) + (if Workable(op) then 1 else 0)
                && workerList[..old(|workerList|)] == old(workerList)
                && (Workable(op) ==> JobFor(workerList[old(|workerList|)], op, index))
      ensures forall u :: 0 <= u < threads.Length && u != t ==> threads[u] == old(threads[u])
      ensures unread == old(unread) && group == old(group) && popped == old(popped) && performed == old(performed)
    {
      hide Ok;
      hide OperMalloc;
      FilledOk(Now(), t);
      var ops, index := threads[t].ops, threads[t].groupIndex;
      if ops == [] {
        building := false;
        threads[t] := AtPop;
      } else {
        var worker := OperMalloc(ops[0], index);
        JobMade(ops[0], index);
        hide Workable;
        hide JobFor;
        if worker.Some? {
          workerList := workerList + [worker.value];
          workerSize := workerSize + 1;
        }
        threads[t] := Filling(ops[1..], index);
      }
      assert threads[..] == old(threads[..])[t := threads[t]];
    }

    method PerformStep(t: nat)
      requires Valid() && t < threads.Length && threads[t].Running?
      modifies this, threads
      ensures Valid() && Now() == Performed(old(Now()), t)
      ensures performed == old(performed) + {old(threads[t].at)} && performSum == old(performSum) + 1
      ensures threads[t] == Recorded(old(threads[t].worker), old(threads[t].at))
      ensures forall u :: 0 <= u < threads.Length && u != t ==> threads[u] == old(threads[u])
      ensures workerList == old(workerList) && unread == old(unread) && popped == old(popped)
    {
      hide Ok;
      PerformedOk(Now(), t);
      performSum := performSum + 1;
      performed := performed + {threads[t].at};
      threads[t] := Recorded(threads[t].worker, threads[t].at);
      assert threads[..] == old(threads[..])[t := threads[t]];
    }

    method ChooseStep(t: nat, manager: Manager)
      requires Valid() && manager.Valid() && t < threads.Length && threads[t].Recorded?
      modifies this, threads, manager
      ensures Valid() && Now() == HandedIn(old(Now()), t, |old(manager.record).completed|)
      ensures manager.Valid() && manager.record == Recording(old(manager.record), old(threads[t].worker), onDisk)
      ensures threads[t] == Chosen && reported == old(reported)[old(threads[t].at) := |old(manager.record).completed|]
      ensures manager.record.completed == old(manager.record).completed + [old(threads[t].worker)]
      ensures manager.record.from == old(manager.record).from + [onDisk]
      ensures workerList == old(workerList) && unread == old(unread) && popped == old(popped) && performed == old(performed)
    {
      hide Ok;
      hide manager.Valid;
      HandedInOk(Now(), t, |manager.record.completed|);
      reported := reported[threads[t].at := |manager.record.completed|];
      manager.FileChooseInsert(threads[t].worker, onDisk);
      threads[t] := Chosen;
      assert threads[..] == old(threads[..])[t := threads[t]];
    }

    method IncreaseStep(t: nat, minWorkerQueue: nat)
      requires Valid() && t < threads.Length && threads[t] == Chosen
      modifies threads
      ensures Valid() && Now() == Increased(old(Now()), t, minWorkerQueue)
      ensures threads[t] == if workerSize < minWorkerQueue then Looking(false) else AtPop
    {
      hide Ok;
      GoneToOk(Now(), t, if workerSize < minWorkerQueue then Looking(false) else AtPop);
      Go(t, if workerSize < minWorkerQueue then Looking(false) else AtPop);
    }

    method ThreadStep(manager: Manager, t: nat, groupsIndex: nat, minWorkerQueue: nat)
      requires Valid() && manager.Valid() && t < threads.Length
      modifies this, threads, manager
      ensures Valid() && Now() == Next(old(Now()), t, groupsIndex, minWorkerQueue, |old(manager.record).completed|)
      ensures manager.Valid() && manager.record == Completed(old(Now()), t, onDisk, old(manager.record))
    {
      hide Ok;
      hide manager.Valid;
      hide Popped;
      hide Looked;
      hide Filled;
      match threads[t] {
        case AtPop => PopStep(t);
        case Looking(_) => LookStep(t, groupsIndex);
        case Filling(_, _) => FillStep(t);
        case Running(_, _) => PerformStep(t);
        case Recorded(_, _) => ChooseStep(t, manager);
        case Chosen => IncreaseStep(t, minWorkerQueue);
        case Exited =>
      }
    }
  }

  /** What thread `t` adds to the manager's record. */
  ghost function Completed(p: PoolState, t: nat, onDisk: bool, r: Record): Record
    requires t < |p.threads|
  {
    if p.threads[t].Recorded? then Recording(r, p.threads[t].worker, onDisk) else r
  }
}
