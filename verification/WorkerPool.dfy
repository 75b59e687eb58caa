/** The pools of debug-tools/shark/thread_manager.c before `destroy`: any number of threads that read,
    build and drain one queue (540-720, 939-1049).  Each section under a lock is one step. */
module WorkerPool {
  import opened JournalText
  import opened JournalGroups
  import opened Wrappers

  const DIR_TYPE := 1
  const SYMLINK_TYPE := 2
  const FILE_TYPE := 3

  /** The functions a worker can carry. */
  datatype Process = MkdirDirec | CeateFile | NeedOpenDirec | OperationDirec | NeedOpenFile | OperationFile | SymlinkOperation

  /** The indices are unsigned. */
  datatype Worker = Worker(fn: Process, args: OpList, groupIndex: nat, opListIndex: nat)

  /** thread_manager.c:613-655: the function by newness, file type and openness. */
  function ChooseProcess(op: OpList): Option<Process> {
    if op.isNew == 1 then
      if op.fileType == DIR_TYPE then Some(MkdirDirec)
      else if op.fileType == FILE_TYPE then Some(CeateFile)
      else None
    else if op.fileType == DIR_TYPE then
      Some(if op.isNeedOpen == 1 then NeedOpenDirec else OperationDirec)
    else if op.fileType == FILE_TYPE then
      Some(if op.isNeedOpen == 1 then NeedOpenFile else OperationFile)
    else if op.fileType == SYMLINK_TYPE then Some(SymlinkOperation)
    else None
  }

  function OperMalloc(op: OpList, groupIndex: int): Option<Worker> {
    match ChooseProcess(op)
    case None => None
    case Some(fn) => Some(Worker(fn, op, ToUint32(groupIndex), ToUint32(op.opsIndex)))
  }

  /** The lists that get a job: those of a directory (1) or a file (3), and of a symbolic link (2) that is
      not new. */
  predicate Workable(op: OpList) {
    op.fileType == 1 || op.fileType == 3 || (op.fileType == 2 && op.isNew != 1)
  }

  /** The job that a list gets: its function, case by case, its arguments and its place. */
  predicate JobFor(w: Worker, op: OpList, groupIndex: int) {
    && w.args == op
    && w.groupIndex == groupIndex % 0x1_0000_0000 && w.opListIndex == op.opsIndex % 0x1_0000_0000
    && (w.fn == MkdirDirec <==> op.isNew == 1 && op.fileType == 1)
    && (w.fn == CeateFile <==> op.isNew == 1 && op.fileType == 3)
    && (w.fn == NeedOpenDirec <==> op.isNew != 1 && op.fileType == 1 && op.isNeedOpen == 1)
    && (w.fn == OperationDirec <==> op.isNew != 1 && op.fileType == 1 && op.isNeedOpen != 1)
    && (w.fn == NeedOpenFile <==> op.isNew != 1 && op.fileType == 3 && op.isNeedOpen == 1)
    && (w.fn == OperationFile <==> op.isNew != 1 && op.fileType == 3 && op.isNeedOpen != 1)
    && (w.fn == SymlinkOperation <==> op.isNew != 1 && op.fileType == 2)
  }

  lemma JobMade(op: OpList, groupIndex: int)
    ensures Workable(op) <==> OperMalloc(op, groupIndex).Some?
    ensures Workable(op) ==> JobFor(OperMalloc(op, groupIndex).value, op, groupIndex)
  {
  }

  /** The jobs of a list of operation lists; an unknown type makes none. */
  function Jobs(ops: seq<OpList>, groupIndex: int): seq<Worker> {
    if ops == [] then []
    else
      var w := OperMalloc(ops[0], groupIndex);
      (if w.Some? then [w.value] else []) + Jobs(ops[1..], groupIndex)
  }

  /** In order, exactly the workable lists get a job each: job `i` is that of list `at[i]`. */
  ghost predicate JobsAt(at: seq<nat>, jobs: seq<Worker>, ops: seq<OpList>, groupIndex: int) {
    && |at| == |jobs| && (forall i, j :: 0 <= i < j < |at| ==> at[i] < at[j])
    && (forall i :: 0 <= i < |at| ==> at[i] < |ops| && JobFor(jobs[i], ops[at[i]], groupIndex))
    && forall k :: 0 <= k < |ops| ==> (k in at <==> Workable(ops[k]))
  }

  lemma {:induction false} JobsMade(ops: seq<OpList>, groupIndex: int) returns (at: seq<nat>)
    ensures JobsAt(at, Jobs(ops, groupIndex), ops, groupIndex)
  {
    if ops == [] {
      at := [];
    } else {
      hide JobsAt;
      hide Workable;
      hide JobFor;
      hide OperMalloc;
      var rest := JobsMade(ops[1..], groupIndex);
      JobMade(ops[0], groupIndex);
      var later := Later(rest, Jobs(ops[1..], groupIndex), ops, groupIndex);
      at := later;
      if OperMalloc(ops[0], groupIndex).Some? {
        at := [0] + later;
        OneFirst(later, Jobs(ops[1..], groupIndex), ops, groupIndex, OperMalloc(ops[0], groupIndex).value);
      } else {
        assert [] + Jobs(ops[1..], groupIndex) == Jobs(ops[1..], groupIndex);
        NoneFirst(later, Jobs(ops[1..], groupIndex), ops, groupIndex);
      }
    }
  }

  /** Places in the tail, as places in the list. */
  ghost predicate JobsBehind(at: seq<nat>, jobs: seq<Worker>, ops: seq<OpList>, groupIndex: int) {
    && |at| == |jobs| && (forall i, j :: 0 <= i < j < |at| ==> at[i] < at[j])
    && (forall i :: 0 <= i < |at| ==> 0 < at[i] < |ops| && JobFor(jobs[i], ops[at[i]], groupIndex))
    && forall k :: 0 < k < |ops| ==> (k in at <==> Workable(ops[k]))
  }

  lemma Later(rest: seq<nat>, jobs: seq<Worker>, ops: seq<OpList>, groupIndex: int) returns (later: seq<nat>)
    requires ops != [] && JobsAt(rest, jobs, ops[1..], groupIndex)
    ensures JobsBehind(later, jobs, ops, groupIndex)
  {
    hide JobFor;
    hide Workable;
    later := seq(|rest|, i requires 0 <= i < |rest| => rest[i] + 1);
    forall k | 0 < k < |ops| ensures k in later <==> Workable(ops[k]) {
      assert ops[1..][k - 1] == ops[k];
      if k - 1 in rest {
        var i :| 0 <= i < |rest| && rest[i] == k - 1;
        assert later[i] == k;
      }
    }
  }

  lemma OneFirst(later: seq<nat>, jobs: seq<Worker>, ops: seq<OpList>, groupIndex: int, w: Worker)
    requires ops != [] && JobsBehind(later, jobs, ops, groupIndex) && Workable(ops[0]) && JobFor(w, ops[0], groupIndex)
    ensures JobsAt([0] + later, [w] + jobs, ops, groupIndex)
  {
    hide JobFor;
    hide Workable;
  }

  lemma NoneFirst(later: seq<nat>, jobs: seq<Worker>, ops: seq<OpList>, groupIndex: int)
    requires ops != [] && JobsBehind(later, jobs, ops, groupIndex) && !Workable(ops[0])
    ensures JobsAt(later, jobs, ops, groupIndex)
  {
    hide JobFor;
    hide Workable;
  }

  function GroupsJobs(groups: seq<Group>): seq<Worker> {
    if groups == [] then [] else Jobs(groups[0].lists, groups[0].index) + GroupsJobs(groups[1..])
  }

  lemma {:induction false} GroupsJobsSnoc(groups: seq<Group>, g: Group)
    ensures GroupsJobs(groups + [g]) == GroupsJobs(groups) + Jobs(g.lists, g.index)
  {
    hide Jobs;
    if groups == [] {
      assert [g][1..] == [];
    } else {
      assert (groups + [g])[1..] == groups[1..] + [g];
      GroupsJobsSnoc(groups[1..], g);
    }
  }

  /** Where a thread stands in oper_thread.  `popping` tells from which of its two places
      build_worker_queue was called; `at` is the place of the job in the order of removal. */
  datatype Local =
    | AtPop
    | Looking(popping: bool)
    | Filling(ops: seq<OpList>, groupIndex: int)
    | Running(worker: Worker, ghost at: nat)
    | Recorded(worker: Worker, ghost at: nat)
    | Chosen
    | Exited

  /** The completions so far: the jobs, which were given to worker_move_list, and which pool did each. */
  datatype Record = Record(completed: seq<Worker>, moved: seq<bool>, from: seq<bool>)

  predicate RecordOk(r: Record) { |r.from| == |r.completed| && MovedRight(r.completed, r.moved) }

  /** One more completion: a job above the maximum becomes the maximum, any other is moved. */
  function Recording(r: Record, w: Worker, onDisk: bool): Record {
    Record(r.completed + [w], r.moved + [!Above(Key(w), MaxKey(r.completed))], r.from + [onDisk])
  }

  /** thread_manager: the shared maximum. */
  class Manager {
    var groupIndex: nat
    var opListIndex: nat
    ghost var record: Record

    ghost predicate Valid()
      reads this
    {
      (groupIndex, opListIndex) == MaxKey(record.completed) && RecordOk(record)
    }

    constructor ()
      ensures Valid() && record == Record([], [], [])
    {
      groupIndex, opListIndex, record := 0, 0, Record([], [], []);
    }

    /** file_choose_insert, 939-969. */
    method FileChooseInsert(worker: Worker, ghost onDisk: bool)
      requires Valid()
      modifies this
      ensures Valid() && record == Recording(old(record), worker, onDisk)
    {
      ghost var move := true;
      if worker.groupIndex > groupIndex {
        groupIndex, opListIndex, move := worker.groupIndex, worker.opListIndex, false;
      } else if worker.groupIndex == groupIndex && worker.opListIndex > opListIndex {
        groupIndex, opListIndex, move := worker.groupIndex, worker.opListIndex, false;
      }
      OneMore(record, worker, onDisk);
      hide MovedRight;
      record := Record(record.completed + [worker], record.moved + [move], record.from + [onDisk]);
    }
  }

  /** A job was moved just if, when it was completed, it was not above all jobs completed before. */
  predicate MovedRight(completed: seq<Worker>, moved: seq<bool>) {
    && |moved| == |completed|
    && forall i :: 0 <= i < |moved| ==> (moved[i] <==> !Above(Key(completed[i]), MaxKey(completed[..i])))
  }

  lemma OneMore(r: Record, w: Worker, onDisk: bool)
    requires RecordOk(r)
    ensures RecordOk(Recording(r, w, onDisk))
    ensures MaxKey(r.completed + [w]) == if Above(Key(w), MaxKey(r.completed)) then Key(w) else MaxKey(r.completed)
  {
    var after := r.completed + [w];
    assert after[..|r.completed|] == r.completed;
    assert forall i :: 0 <= i < |r.completed| ==> after[..i] == r.completed[..i];
  }

  type Pair = (nat, nat)

  function Key(w: Worker): Pair { (w.groupIndex, w.opListIndex) }

  predicate Above(a: Pair, b: Pair) { a.0 > b.0 || (a.0 == b.0 && a.1 > b.1) }

  function MaxKey(ws: seq<Worker>): Pair {
    if ws == [] then (0, 0)
    else
      var m, k := MaxKey(ws[..|ws| - 1]), Key(ws[|ws| - 1]);
      if Above(k, m) then k else m
  }

  /** It is the lexicographic maximum of the jobs and (0, 0): the group comes first, then the list. */
  lemma {:induction false} MaxKeyIsMax(ws: seq<Worker>)
    ensures forall i :: 0 <= i < |ws| ==>
              ws[i].groupIndex < MaxKey(ws).0 || (ws[i].groupIndex == MaxKey(ws).0 && ws[i].opListIndex <= MaxKey(ws).1)
    ensures MaxKey(ws) == (0, 0)
            || exists i :: 0 <= i < |ws| && MaxKey(ws) == (ws[i].groupIndex, ws[i].opListIndex)
  {
    if ws != [] {
      var n := |ws| - 1;
      var front := ws[..n];
      MaxKeyIsMax(front);
      forall i | 0 <= i < n
        ensures ws[i].groupIndex < MaxKey(ws).0 || (ws[i].groupIndex == MaxKey(ws).0 && ws[i].opListIndex <= MaxKey(ws).1) {
        assert front[i] == ws[i];
      }
      if MaxKey(ws) == Key(ws[n]) {
      } else if MaxKey(front) != (0, 0) {
        var i :| 0 <= i < |front| && MaxKey(front) == (front[i].groupIndex, front[i].opListIndex);
        assert ws[i] == front[i];
      }
    }
  }

  /** A job that both mounts have completed has been released, at the latest on the second completion,
      whatever else was completed before, between and after. */
  lemma ReleasedBySecond(r: Record, i: nat, j: nat)
    requires RecordOk(r) && i < j < |r.completed| && Key(r.completed[i]) == Key(r.completed[j])
    ensures r.moved[j]
  {
    var before := r.completed[..j];
    MaxKeyIsMax(before);
    assert before[i] == r.completed[i];
  }

  /** Job `a` is of a later group than `b`, or of the same group and no earlier list. */
  predicate NotBelow(a: Worker, b: Worker) {
    a.groupIndex > b.groupIndex || (a.groupIndex == b.groupIndex && a.opListIndex >= b.opListIndex)
  }

  /** On the first completion it is released just if it is not above everything completed so far. */
  lemma ReleasedByFirst(r: Record, i: nat)
    requires RecordOk(r) && i < |r.completed|
    ensures r.moved[i] <==>
              || (r.completed[i].groupIndex == 0 && r.completed[i].opListIndex == 0)
              || exists j :: 0 <= j < i && NotBelow(r.completed[j], r.completed[i])
  {
    var before := r.completed[..i];
    MaxKeyIsMax(before);
    if r.moved[i] && MaxKey(before) != (0, 0) {
      var j :| 0 <= j < |before| && MaxKey(before) == (before[j].groupIndex, before[j].opListIndex);
      assert r.completed[j] == before[j];
      assert NotBelow(r.completed[j], r.completed[i]);
    }
    forall j | 0 <= j < i && NotBelow(r.completed[j], r.completed[i]) ensures r.moved[i] {
      assert before[j] == r.completed[j];
    }
  }
}
