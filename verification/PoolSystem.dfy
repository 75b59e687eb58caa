/** The whole of shark's second half: the generator appends groups to the journal, and the threads of two
    pools read, build and perform it, one pool on each mount, under one manager. */
module PoolSystem {
  import opened JournalGroups
  import opened JournalStream
  import opened WorkerPool
  import opened ThreadPool
  import opened Wrappers

  datatype SystemState = SystemState(disk: PoolState, digi: PoolState, record: Record, written: seq<FileGroup>)

  /** The generator appends a group to the journal, or a thread of one of the two pools goes on. */
  datatype Step = GroupWritten(g: FileGroup) | ThreadOn(onDisk: bool, thread: nat)

  predicate GoodSteps(steps: seq<Step>, size: nat) {
    forall i :: 0 <= i < |steps| ==>
      (steps[i].GroupWritten? ==> GoodGroup(steps[i].g)) && (steps[i].ThreadOn? ==> steps[i].thread < size)
  }

  /** The groups of a journal as the calls of one reader give them. */
  ghost function AsRead(groups: seq<FileGroup>, t: WorkerType): (r: seq<Group>)
    requires GoodGroups(groups)
    ensures |r| == |groups|
  {
    if groups == [] then []
    else
      var n := |groups| - 1;
      GoodPrefix(groups);
      AsRead(groups[..n], t) + [GroupAsRead(groups[n], n, t)]
  }

  lemma GoodPrefix(groups: seq<FileGroup>)
    requires GoodGroups(groups) && groups != []
    ensures GoodGroups(groups[..|groups| - 1]) && GoodGroup(groups[|groups| - 1])
  {
    hide GoodGroup;
  }

  lemma AsReadSnoc(groups: seq<FileGroup>, g: FileGroup, t: WorkerType)
    requires GoodGroups(groups) && GoodGroup(g)
    ensures GoodGroups(groups + [g]) && AsRead(groups + [g], t) == AsRead(groups, t) + [GroupAsRead(g, |groups|, t)]
  {
    hide GoodGroup;
    assert (groups + [g])[..|groups|] == groups;
  }

  lemma {:induction false} AsReadAt(groups: seq<FileGroup>, t: WorkerType, i: nat)
    requires GoodGroups(groups) && i < |groups|
    ensures GoodGroup(groups[i]) && AsRead(groups, t)[i] == GroupAsRead(groups[i], i, t)
  {
    hide GoodGroup;
    hide GroupAsRead;
    GoodPrefix(groups);
    if i < |groups| - 1 { AsReadAt(groups[..|groups| - 1], t, i); }
  }

  ghost function Start(size: nat): SystemState {
    SystemState(Idle(size), Idle(size), Record([], [], []), [])
  }

  /** One step of the system. */
  ghost function NextState(s: SystemState, step: Step, groupsIndex: nat, minWorkerQueue: nat): SystemState
    requires step.GroupWritten? ==> GoodGroup(step.g)
    requires step.ThreadOn? ==> step.thread < |s.disk.threads| && step.thread < |s.digi.threads|
  {
    match step
    case GroupWritten(g) =>
      SystemState(Appended(s.disk, GroupAsRead(g, |s.written|, Disk)),
                  Appended(s.digi, GroupAsRead(g, |s.written|, Digioceand)), s.record, s.written + [g])
    case ThreadOn(onDisk, t) =>
      var n := |s.record.completed|;
      if onDisk then
        s.(disk := Next(s.disk, t, groupsIndex, minWorkerQueue, n), record := Completed(s.disk, t, true, s.record))
      else
        s.(digi := Next(s.digi, t, groupsIndex, minWorkerQueue, n), record := Completed(s.digi, t, false, s.record))
  }

  /** A pool works through the jobs of the groups that its own reader gives, and has read the first ones. */
  ghost predicate Serves(p: PoolState, groups: seq<FileGroup>, t: WorkerType)
    requires GoodGroups(groups)
  {
    && p.stream == GroupsJobs(AsRead(groups, t))
    && p.readIndex <= |groups| && p.unread == AsRead(groups, t)[p.readIndex..]
  }

  ghost predicate SystemOk(s: SystemState, size: nat) {
    && GoodGroups(s.written) && |s.disk.threads| == |s.digi.threads| == size
    && Ok(s.disk) && Ok(s.digi) && AllHanded(s.disk) && AllHanded(s.digi) && RecordOk(s.record)
    && Reported(s.disk, s.record, true) && Reported(s.digi, s.record, false)
    && Serves(s.disk, s.written, Disk) && Serves(s.digi, s.written, Digioceand)
  }

  lemma StartOk(size: nat)
    ensures SystemOk(Start(size), size)
  {
    IdleOk(size);
    hide Ok;
  }

  lemma ServesAppended(p: PoolState, groups: seq<FileGroup>, g: FileGroup, t: WorkerType)
    requires GoodGroups(groups) && GoodGroup(g) && Serves(p, groups, t)
    ensures GoodGroups(groups + [g]) && Serves(Appended(p, GroupAsRead(g, |groups|, t)), groups + [g], t)
  {
    hide GoodGroup;
    hide GroupAsRead;
    hide AsRead;
    hide Jobs;
    hide GroupsJobs;
    AsReadSnoc(groups, g, t);
    GroupsJobsSnoc(AsRead(groups, t), GroupAsRead(g, |groups|, t));
  }

  lemma ServesNext(p: PoolState, groups: seq<FileGroup>, t: WorkerType, thread: nat, groupsIndex: nat,
                   minWorkerQueue: nat, n: nat)
    requires GoodGroups(groups) && Serves(p, groups, t) && thread < |p.threads|
    ensures Serves(Next(p, thread, groupsIndex, minWorkerQueue, n), groups, t)
  {
    hide GoodGroup;
    hide AsRead;
    hide GroupsJobs;
    hide OperMalloc;
    if p.readIndex < |groups| {
      assert p.unread[1..] == AsRead(groups, t)[p.readIndex + 1..];
    }
  }

  /** What no step touches. */
  lemma NextFrame(p: PoolState, t: nat, groupsIndex: nat, minWorkerQueue: nat, n: nat)
    requires t < |p.threads|
    ensures var p' := Next(p, t, groupsIndex, minWorkerQueue, n);
            && |p'.threads| == |p.threads| && p.popped <= p'.popped
            && (!p.threads[t].Recorded? ==> p'.reported == p.reported)
  {
    hide OperMalloc;
    match p.threads[t] {
      case AtPop =>
        hide Looked;
        hide Filled;
      case Looking(_) =>
        hide Popped;
        hide Filled;
      case Filling(_, _) =>
        hide Popped;
        hide Looked;
      case Running(_, _) =>
        hide *;
        assert |Performed(p, t).threads| == |p.threads|;
      case _ =>
        hide Popped;
        hide Looked;
        hide Filled;
    }
  }

  /** The thread that hands in its completion is on record, and so are all that were. */
  lemma ReportedNext(p: PoolState, r: Record, onDisk: bool, thread: nat, groupsIndex: nat, minWorkerQueue: nat)
    requires Ok(p) && RecordOk(r) && Reported(p, r, onDisk) && thread < |p.threads|
    ensures Reported(Next(p, thread, groupsIndex, minWorkerQueue, |r.completed|), Completed(p, thread, onDisk, r), onDisk)
  {
    hide Ok;
    hide RecordOk;
    hide Reported;
    hide Popped;
    hide Looked;
    hide Filled;
    hide Performed;
    hide HandedIn;
    hide Increased;
    if p.threads[thread].Recorded? {
      ReportedHandedIn(p, r, onDisk, thread);
    } else {
      ReportedElse(p, r, onDisk, thread, groupsIndex, minWorkerQueue);
    }
  }

  lemma ReportedHandedIn(p: PoolState, r: Record, onDisk: bool, t: nat)
    requires Ok(p) && RecordOk(r) && Reported(p, r, onDisk) && t < |p.threads| && p.threads[t].Recorded?
    ensures Reported(HandedIn(p, t, |r.completed|), Recording(r, p.threads[t].worker, onDisk), onDisk)
  {
    hide Conserved;
    hide OneBuilder;
    hide MovedRight;
  }

  lemma ReportedElse(p: PoolState, r: Record, onDisk: bool, t: nat, groupsIndex: nat, minWorkerQueue: nat)
    requires Reported(p, r, onDisk) && t < |p.threads| && !p.threads[t].Recorded?
    ensures Reported(Next(p, t, groupsIndex, minWorkerQueue, |r.completed|), r, onDisk)
  {
    hide Next;
    NextFrame(p, t, groupsIndex, minWorkerQueue, |r.completed|);
  }

  lemma StillReported(p: PoolState, r: Record, onDisk: bool, w: Worker, other: bool)
    requires Reported(p, r, onDisk) && RecordOk(r)
    ensures Reported(p, Recording(r, w, other), onDisk)
  {
    hide MovedRight;
  }

  lemma RecordNext(p: PoolState, t: nat, onDisk: bool, r: Record)
    requires t < |p.threads| && RecordOk(r)
    ensures RecordOk(Completed(p, t, onDisk, r))
  {
    if p.threads[t].Recorded? {
      hide MovedRight;
      OneMore(r, p.threads[t].worker, onDisk);
    }
  }

  /** A pool and the record after a step of one of its threads, and the other pool beside them. */
  lemma ThreadOk(p: PoolState, q: PoolState, r: Record, groups: seq<FileGroup>, t: WorkerType, onDisk: bool,
                 thread: nat, groupsIndex: nat, minWorkerQueue: nat)
    requires GoodGroups(groups) && Ok(p) && AllHanded(p) && RecordOk(r)
    requires Reported(p, r, onDisk) && Reported(q, r, !onDisk)
    requires Serves(p, groups, t) && thread < |p.threads|
    ensures var p', r' := Next(p, thread, groupsIndex, minWorkerQueue, |r.completed|), Completed(p, thread, onDisk, r);
            && Ok(p') && AllHanded(p') && RecordOk(r') && Reported(p', r', onDisk) && Reported(q, r', !onDisk)
            && Serves(p', groups, t) && |p'.threads| == |p.threads|
  {
    hide *;
    NextOk(p, thread, groupsIndex, minWorkerQueue, |r.completed|);
    NextHanded(p, thread, groupsIndex, minWorkerQueue, |r.completed|);
    RecordNext(p, thread, onDisk, r);
    ReportedNext(p, r, onDisk, thread, groupsIndex, minWorkerQueue);
    ServesNext(p, groups, t, thread, groupsIndex, minWorkerQueue, |r.completed|);
    NextFrame(p, thread, groupsIndex, minWorkerQueue, |r.completed|);
    OtherReported(p, q, r, onDisk, thread);
  }

  lemma OtherReported(p: PoolState, q: PoolState, r: Record, onDisk: bool, thread: nat)
    requires RecordOk(r) && Reported(q, r, !onDisk) && thread < |p.threads|
    ensures Reported(q, Completed(p, thread, onDisk, r), !onDisk)
  {
    if p.threads[thread].Recorded? { StillReported(q, r, !onDisk, p.threads[thread].worker, onDisk); }
  }

  lemma AppendedReported(p: PoolState, g: Group, r: Record, onDisk: bool)
    requires Reported(p, r, onDisk)
    ensures Reported(Appended(p, g), r, onDisk) && |Appended(p, g).threads| == |p.threads|
    ensures AllHanded(p) ==> AllHanded(Appended(p, g))
  {
  }

  /** Every step of the system keeps all of it. */
  lemma NextStateOk(s: SystemState, step: Step, size: nat, groupsIndex: nat, minWorkerQueue: nat)
    requires SystemOk(s, size)
    requires (step.GroupWritten? ==> GoodGroup(step.g)) && (step.ThreadOn? ==> step.thread < size)
    ensures SystemOk(NextState(s, step, groupsIndex, minWorkerQueue), size)
  {
    hide Ok;
    hide AllHanded;
    hide Serves;
    hide Reported;
    hide RecordOk;
    hide GoodGroup;
    hide GroupAsRead;
    hide Appended;
    hide Next;
    hide Completed;
    match step {
      case GroupWritten(g) =>
        var a, b := GroupAsRead(g, |s.written|, Disk), GroupAsRead(g, |s.written|, Digioceand);
        ServesAppended(s.disk, s.written, g, Disk);
        ServesAppended(s.digi, s.written, g, Digioceand);
        AppendedOk(s.disk, a);
        AppendedOk(s.digi, b);
        AppendedReported(s.disk, a, s.record, true);
        AppendedReported(s.digi, b, s.record, false);
      case ThreadOn(onDisk, t) =>
        if onDisk {
          ThreadOk(s.disk, s.digi, s.record, s.written, Disk, true, t, groupsIndex, minWorkerQueue);
        } else {
          ThreadOk(s.digi, s.disk, s.record, s.written, Digioceand, false, t, groupsIndex, minWorkerQueue);
        }
    }
  }

  /** Where a run from the empty system stands: in whatever order the generator and the threads of both
      pools take their steps, every state on the way keeps all of the above. */
  ghost function StateAfter(steps: seq<Step>, size: nat, groupsIndex: nat, minWorkerQueue: nat): (s: SystemState)
    requires GoodSteps(steps, size)
    ensures SystemOk(s, size)
  {
    if steps == [] then
      StartOk(size);
      Start(size)
    else
      var n := |steps| - 1;
      GoodFront(steps, size);
      var s := StateAfter(steps[..n], size, groupsIndex, minWorkerQueue);
      NextStateOk(s, steps[n], size, groupsIndex, minWorkerQueue);
      NextState(s, steps[n], groupsIndex, minWorkerQueue)
  }

  lemma GoodFront(steps: seq<Step>, size: nat)
    requires GoodSteps(steps, size)
    ensures forall i :: 0 <= i <= |steps| ==> GoodSteps(steps[..i], size)
  {
    hide GoodGroup;
  }

  // The two pools do the same jobs.

  /** The same job, on the two mounts. */
  predicate Twins(a: Worker, b: Worker) {
    a.fn == b.fn && Key(a) == Key(b) && b.args == a.args.(opListType := b.args.opListType)
  }

  predicate AllTwins(a: seq<Worker>, b: seq<Worker>) {
    |a| == |b| && forall i :: 0 <= i < |a| ==> Twins(a[i], b[i])
  }

  lemma {:induction false} JobsTwins(a: seq<OpList>, b: seq<OpList>, index: int)
    requires |a| == |b| && forall i :: 0 <= i < |a| ==> b[i] == a[i].(opListType := b[i].opListType)
    ensures AllTwins(Jobs(a, index), Jobs(b, index))
  {
    if a != [] {
      JobsTwins(a[1..], b[1..], index);
    }
  }

  lemma ReadTwins(g: FileGroup, n: nat)
    requires GoodGroup(g)
    ensures AllTwins(Jobs(GroupAsRead(g, n, Disk).lists, n), Jobs(GroupAsRead(g, n, Digioceand).lists, n))
  {
    JobsTwins(GroupAsRead(g, n, Disk).lists, GroupAsRead(g, n, Digioceand).lists, n);
  }

  lemma TwinsJoin(a: seq<Worker>, b: seq<Worker>, c: seq<Worker>, d: seq<Worker>)
    requires AllTwins(a, b) && AllTwins(c, d)
    ensures AllTwins(a + c, b + d)
  {
    hide Twins;
  }

  /** Job by job, both mounts get the same function, arguments and place. */
  lemma {:induction false} StreamTwins(groups: seq<FileGroup>)
    requires GoodGroups(groups)
    ensures AllTwins(GroupsJobs(AsRead(groups, Disk)), GroupsJobs(AsRead(groups, Digioceand)))
  {
    if groups != [] {
      var n := |groups| - 1;
      GoodPrefix(groups);
      hide GoodGroup;
      hide GoodGroups;
      hide GroupAsRead;
      hide Jobs;
      hide AllTwins;
      StreamTwins(groups[..n]);
      ReadTwins(groups[n], n);
      GroupsJobsSnoc(AsRead(groups[..n], Disk), GroupAsRead(groups[n], n, Disk));
      GroupsJobsSnoc(AsRead(groups[..n], Digioceand), GroupAsRead(groups[n], n, Digioceand));
      TwinsJoin(GroupsJobs(AsRead(groups[..n], Disk)), GroupsJobs(AsRead(groups[..n], Digioceand)),
                Jobs(GroupAsRead(groups[n], n, Disk).lists, n), Jobs(GroupAsRead(groups[n], n, Digioceand).lists, n));
    }
  }

  lemma StreamsTwin(s: SystemState, size: nat, i: nat)
    requires SystemOk(s, size) && i < |s.disk.stream|
    ensures i < |s.digi.stream| && Key(s.disk.stream[i]) == Key(s.digi.stream[i])
  {
    hide Ok;
    hide AllHanded;
    hide Reported;
    hide RecordOk;
    hide GoodGroup;
    hide GroupsJobs;
    hide AsRead;
    hide Twins;
    StreamTwins(s.written);
    assert Twins(s.disk.stream[i], s.digi.stream[i]);
    TwinKeys(s.disk.stream[i], s.digi.stream[i]);
  }

  lemma TwinKeys(a: Worker, b: Worker)
    requires Twins(a, b)
    ensures Key(a) == Key(b)
  {
  }

  lemma CompletedAt(p: PoolState, r: Record, onDisk: bool, i: nat)
    requires Ok(p) && Reported(p, r, onDisk) && i in p.reported
    ensures i < |p.stream| && p.reported[i] < |r.completed| && p.reported[i] < |r.from|
    ensures r.completed[p.reported[i]] == p.stream[i] && r.from[p.reported[i]] == onDisk
  {
    RemovedInOrder(p);
    hide Ok;
  }

  lemma PairReleased(r: Record, a: nat, b: nat) returns (j: nat)
    requires RecordOk(r) && a < |r.completed| && b < |r.completed| && a != b
    requires Key(r.completed[a]) == Key(r.completed[b])
    ensures j < |r.completed| && j < |r.moved| && r.moved[j] && Key(r.completed[j]) == Key(r.completed[a])
  {
    hide MovedRight;
    hide Key;
    j := if a < b then b else a;
    ReleasedBySecond(r, if a < b then a else b, j);
    assert |r.moved| == |r.completed| by { MovedLength(r); }
  }

  lemma MovedLength(r: Record)
    requires RecordOk(r)
    ensures |r.moved| == |r.completed|
  {
  }

  lemma SystemParts(s: SystemState, size: nat)
    requires SystemOk(s, size)
    ensures Ok(s.disk) && Ok(s.digi) && AllHanded(s.disk) && AllHanded(s.digi) && RecordOk(s.record)
    ensures Reported(s.disk, s.record, true) && Reported(s.digi, s.record, false)
    ensures |s.disk.threads| == |s.digi.threads| == size
  {
    hide Ok;
    hide AllHanded;
    hide Reported;
    hide Serves;
    hide MovedRight;
  }

  /** A job that both mounts have completed has been released: worker_move_list was called for it. */
  lemma ReleasedAfterBoth(s: SystemState, size: nat, i: nat) returns (j: nat)
    requires SystemOk(s, size) && i in s.disk.reported && i in s.digi.reported
    ensures i < |s.disk.stream| && j < |s.record.completed| && j < |s.record.moved|
    ensures s.record.moved[j] && Key(s.record.completed[j]) == Key(s.disk.stream[i])
  {
    hide *;
    SystemParts(s, size);
    CompletedAt(s.disk, s.record, true, i);
    CompletedAt(s.digi, s.record, false, i);
    StreamsTwin(s, size, i);
    j := PairReleased(s.record, s.disk.reported[i], s.digi.reported[i]);
  }

  // The pools' looks at the journal are the calls of its two readers.

  /** What a step is to the journal: a write, a call of analyze_string_read, or nothing. */
  ghost function EventsOf(s: SystemState, step: Step): seq<Event> {
    match step
    case GroupWritten(g) => [WriteEvent(g)]
    case ThreadOn(onDisk, t) =>
      var p := if onDisk then s.disk else s.digi;
      if t < |p.threads| && p.threads[t].Looking? && p.groupRead
      then [ReadEvent(if onDisk then Disk else Digioceand)] else []
  }

  ghost function RunEvents(steps: seq<Step>, size: nat, groupsIndex: nat, minWorkerQueue: nat): (events: seq<Event>)
    requires GoodSteps(steps, size)
  {
    if steps == [] then []
    else
      var n := |steps| - 1;
      GoodFront(steps, size);
      RunEvents(steps[..n], size, groupsIndex, minWorkerQueue)
      + EventsOf(StateAfter(steps[..n], size, groupsIndex, minWorkerQueue), steps[n])
  }

  /** The journal and the pools agree on what was written, and on how many groups each reader has got. */
  ghost predicate InStep(events: seq<Event>, s: SystemState) {
    && GoodEvents(events) && WrittenGroups(events) == s.written
    && Taken(events, Disk) == s.disk.readIndex && Taken(events, Digioceand) == s.digi.readIndex
  }

  lemma OneMoreEvent(events: seq<Event>, e: Event)
    requires GoodEvents(events) && (e.WriteEvent? ==> GoodGroup(e.g))
    ensures GoodEvents(events + [e])
    ensures WrittenGroups(events + [e]) == if e.WriteEvent? then WrittenGroups(events) + [e.g] else WrittenGroups(events)
    ensures forall t :: Taken(events + [e], t) == Taken(events, t)
              + if e == ReadEvent(t) && Taken(events, t) < |WrittenGroups(events)| then 1 else 0
    ensures e.ReadEvent? ==>
              var n, groups := Taken(events, e.t), WrittenGroups(events);
              if n < |groups| then
                GoodGroup(groups[n]) && Answer(events + [e], |events|) == Some(GroupAsRead(groups[n], n, e.t))
              else Answer(events + [e], |events|) == None
  {
    hide GoodGroup;
    assert (events + [e])[..|events|] == events;
    WrittenGood(events);
  }

  /** One look at the journal by a thread of a pool. */
  lemma LookIsRead(p: PoolState, groups: seq<FileGroup>, t: WorkerType, thread: nat, groupsIndex: nat,
                   minWorkerQueue: nat, n: nat)
    requires GoodGroups(groups) && Serves(p, groups, t) && Ok(p) && thread < |p.threads|
    ensures var p', looks := Next(p, thread, groupsIndex, minWorkerQueue, n), p.threads[thread].Looking? && p.groupRead;
            && p'.readIndex == p.readIndex + (if looks && p.readIndex < |groups| then 1 else 0)
            && (looks && p.readIndex == |groups| ==> p'.group == None)
            && (looks && p.readIndex < |groups| ==>
                  GoodGroup(groups[p.readIndex]) && p'.group == Some(GroupAsRead(groups[p.readIndex], p.readIndex, t)))
  {
    hide GoodGroup;
    hide GroupsJobs;
    hide OperMalloc;
    hide GroupAsRead;
    if p.readIndex < |groups| { AsReadAt(groups, t, p.readIndex); }
  }

  /** In every run the looks of both pools are calls of the journal's readers: each pool has got as many
      groups as its reader, and a look gives just what that call must give. */
  lemma {:induction false} PoolsReadTheJournal(steps: seq<Step>, size: nat, groupsIndex: nat, minWorkerQueue: nat)
    requires GoodSteps(steps, size)
    ensures InStep(RunEvents(steps, size, groupsIndex, minWorkerQueue), StateAfter(steps, size, groupsIndex, minWorkerQueue))
  {
    if steps != [] {
      var n := |steps| - 1;
      GoodFront(steps, size);
      PoolsReadTheJournal(steps[..n], size, groupsIndex, minWorkerQueue);
      var s := StateAfter(steps[..n], size, groupsIndex, minWorkerQueue);
      var events := RunEvents(steps[..n], size, groupsIndex, minWorkerQueue);
      StepInStep(events, s, steps[n], size, groupsIndex, minWorkerQueue);
    }
  }

  /** What the pool of a step has at hand after it. */
  ghost function GroupOf(s: SystemState, onDisk: bool): Option<Group> {
    if onDisk then s.disk.group else s.digi.group
  }

  lemma StepInStep(events: seq<Event>, s: SystemState, step: Step, size: nat, groupsIndex: nat, minWorkerQueue: nat)
    requires SystemOk(s, size) && InStep(events, s)
    requires (step.GroupWritten? ==> GoodGroup(step.g)) && (step.ThreadOn? ==> step.thread < size)
    ensures var s', es := NextState(s, step, groupsIndex, minWorkerQueue), EventsOf(s, step);
            && InStep(events + es, s')
            && (step.ThreadOn? && es != [] ==> GroupOf(s', step.onDisk) == Answer(events + es, |events|))
  {
    hide Ok;
    hide GoodGroup;
    hide Serves;
    hide Reported;
    hide RecordOk;
    hide Next;
    hide Answer;
    hide Taken;
    hide WrittenGroups;
    hide GroupAsRead;
    hide Completed;
    var es := EventsOf(s, step);
    assert es == [] ==> events + es == events;
    if es != [] { OneMoreEvent(events, es[0]); }
    if step.ThreadOn? {
      if step.onDisk {
        LookIsRead(s.disk, s.written, Disk, step.thread, groupsIndex, minWorkerQueue, |s.record.completed|);
      } else {
        LookIsRead(s.digi, s.written, Digioceand, step.thread, groupsIndex, minWorkerQueue, |s.record.completed|);
      }
    }
  }

  // The program: two pools and a manager on the heap.

  ghost predicate Apart(disk: Pool, digi: Pool) {
    disk != digi && disk.threads != digi.threads && disk.onDisk && !digi.onDisk
  }

  /** The state of the program, with the groups written so far. */
  ghost function Now(disk: Pool, digi: Pool, manager: Manager, written: seq<FileGroup>): SystemState
    reads disk, disk.threads, digi, digi.threads, manager
  {
    SystemState(disk.Now(), digi.Now(), manager.record, written)
  }

  method SystemStep(disk: Pool, digi: Pool, manager: Manager, ghost written0: seq<FileGroup>, num: nat, step: Step,
                    groupsIndex: nat, minWorkerQueue: nat) returns (ghost written: seq<FileGroup>)
    requires Apart(disk, digi) && disk.Valid() && digi.Valid() && manager.Valid() && num == |written0|
    requires (step.GroupWritten? ==> GoodGroup(step.g))
    requires (step.ThreadOn? ==> step.thread < disk.threads.Length && step.thread < digi.threads.Length)
    modifies disk, disk.threads, digi, digi.threads, manager
    ensures disk.Valid() && digi.Valid() && manager.Valid()
    ensures Now(disk, digi, manager, written)
         == NextState(old(Now(disk, digi, manager, written0)), step, groupsIndex, minWorkerQueue)
    ensures |written| == num + if step.GroupWritten? then 1 else 0
  {
    hide disk.Valid;
    hide manager.Valid;
    hide GroupAsRead;
    hide GoodGroup;
    hide Appended;
    hide Next;
    hide Completed;
    written := written0;
    match step {
      case GroupWritten(g) =>
        disk.Append(GroupAsRead(g, num, Disk));
        digi.Append(GroupAsRead(g, num, Digioceand));
        written := written + [g];
      case ThreadOn(onDisk, t) =>
        if onDisk {
          disk.ThreadStep(manager, t, groupsIndex, minWorkerQueue);
        } else {
          digi.ThreadStep(manager, t, groupsIndex, minWorkerQueue);
        }
    }
  }

  /** Any interleaving of the generator and the threads of both pools. */
  method RunPools(steps: seq<Step>, size: nat, groupsIndex: nat, minWorkerQueue: nat)
      returns (disk: Pool, digi: Pool, manager: Manager, ghost written: seq<FileGroup>)
    requires GoodSteps(steps, size)
    ensures Now(disk, digi, manager, written) == StateAfter(steps, size, groupsIndex, minWorkerQueue)
    ensures Apart(disk, digi) && disk.Valid() && digi.Valid() && manager.Valid()
    ensures forall i :: 0 <= i <= |steps| ==>
              GoodSteps(steps[..i], size) && SystemOk(StateAfter(steps[..i], size, groupsIndex, minWorkerQueue), size)
  {
    hide *;
    GoodFront(steps, size);
    disk := new Pool(size, true);
    digi := new Pool(size, false);
    manager := new Manager();
    written := [];
    var num := 0;
    StartNow(disk, digi, manager, size);
    StartAfter(steps, size, groupsIndex, minWorkerQueue);
    var i := 0;
    while i < |steps|
      invariant 0 <= i <= |steps| && fresh(disk) && fresh(digi) && fresh(manager) && fresh(disk.threads) && fresh(digi.threads)
      invariant disk.threads.Length == digi.threads.Length == size && Apart(disk, digi)
      invariant disk.Valid() && digi.Valid() && manager.Valid() && num == |written|
      invariant GoodSteps(steps[..i], size)
      invariant Now(disk, digi, manager, written) == StateAfter(steps[..i], size, groupsIndex, minWorkerQueue)
    {
      AfterNext(steps, i, size, groupsIndex, minWorkerQueue);
      written := SystemStep(disk, digi, manager, written, num, steps[i], groupsIndex, minWorkerQueue);
      if steps[i].GroupWritten? { num := num + 1; }
      i := i + 1;
    }
    assert steps[..i] == steps;
  }

  lemma StartNow(disk: Pool, digi: Pool, manager: Manager, size: nat)
    requires disk.Now() == Idle(size) && digi.Now() == Idle(size) && manager.record == Record([], [], [])
    requires disk != digi && disk.threads != digi.threads && disk.onDisk && !digi.onDisk
    ensures Apart(disk, digi) && Now(disk, digi, manager, []) == Start(size)
  {
  }

  lemma StartAfter(steps: seq<Step>, size: nat, groupsIndex: nat, minWorkerQueue: nat)
    ensures GoodSteps(steps[..0], size) && StateAfter(steps[..0], size, groupsIndex, minWorkerQueue) == Start(size)
  {
    assert steps[..0] == [];
  }

  lemma AfterNext(steps: seq<Step>, i: nat, size: nat, groupsIndex: nat, minWorkerQueue: nat)
    requires GoodSteps(steps, size) && i < |steps|
    ensures GoodSteps(steps[..i], size) && GoodSteps(steps[..i + 1], size)
    ensures (steps[i].GroupWritten? ==> GoodGroup(steps[i].g)) && (steps[i].ThreadOn? ==> steps[i].thread < size)
    ensures var s := StateAfter(steps[..i], size, groupsIndex, minWorkerQueue);
            |s.disk.threads| == |s.digi.threads| == size
            && StateAfter(steps[..i + 1], size, groupsIndex, minWorkerQueue)
               == NextState(s, steps[i], groupsIndex, minWorkerQueue)
  {
    GoodFront(steps, size);
    hide GoodGroup;
    assert steps[..i + 1][..i] == steps[..i];
  }
}
