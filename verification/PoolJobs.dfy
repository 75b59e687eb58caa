/** From what the generator writes to what the threads are given: which lists of which groups become jobs
    of a pool, in which order, and with which function. */
module PoolJobs {
  import JournalOps
  import opened JournalGroups
  import opened JournalStream
  import opened WorkerPool
  import opened PoolSystem

  /** 1 is a directory, 2 a symbolic link, 3 a file. */
  predicate GetsJob(f: FileOps) {
    f.fileType == 1 || f.fileType == 3 || (f.fileType == 2 && f.isNew != 1)
  }

  predicate Opened(f: FileOps) { f.opType == JournalOps.OPENED_DIR_OP || f.opType == JournalOps.OPENED_FILE_OP }

  /** The job of list `j` of group `n`. */
  predicate WrittenJob(w: Worker, f: FileOps, n: nat, j: nat, t: WorkerType) {
    && w.groupIndex == n % 0x1_0000_0000 && w.opListIndex == j % 0x1_0000_0000
    && w.args.path == f.path && w.args.opType == f.opType && w.args.opListType == t
    && (w.fn == MkdirDirec <==> f.isNew == 1 && f.fileType == 1)
    && (w.fn == CeateFile <==> f.isNew == 1 && f.fileType == 3)
    && (w.fn == NeedOpenDirec <==> f.isNew != 1 && f.fileType == 1 && Opened(f))
    && (w.fn == OperationDirec <==> f.isNew != 1 && f.fileType == 1 && !Opened(f))
    && (w.fn == NeedOpenFile <==> f.isNew != 1 && f.fileType == 3 && Opened(f))
    && (w.fn == OperationFile <==> f.isNew != 1 && f.fileType == 3 && !Opened(f))
    && (w.fn == SymlinkOperation <==> f.isNew != 1 && f.fileType == 2)
  }

  type Place = (nat, nat)

  predicate Before(a: Place, b: Place) { a.0 < b.0 || (a.0 == b.0 && a.1 < b.1) }

  predicate InGroups(a: Place, groups: seq<FileGroup>) { a.0 < |groups| && a.1 < |groups[a.0].lists| }

  /** In order, exactly the lists that get a job have one: job `i` is that of the list at `at[i]`. */
  ghost predicate StreamAt(at: seq<Place>, jobs: seq<Worker>, groups: seq<FileGroup>, t: WorkerType) {
    && |at| == |jobs| && (forall i, j :: 0 <= i < j < |at| ==> Before(at[i], at[j]))
    && (forall i :: 0 <= i < |at| ==>
          InGroups(at[i], groups) && WrittenJob(jobs[i], groups[at[i].0].lists[at[i].1], at[i].0, at[i].1, t))
    && forall a: Place :: InGroups(a, groups) ==> (a in at <==> GetsJob(groups[a.0].lists[a.1]))
  }

  lemma ListJob(f: FileOps, n: nat, j: nat, t: WorkerType)
    requires GoodList(f)
    ensures Workable(ListAsRead(f, j, t)) <==> GetsJob(f)
    ensures forall w :: JobFor(w, ListAsRead(f, j, t), n) ==> WrittenJob(w, f, n, j, t)
  {
    hide GoodList;
    hide OpsAsRead;
  }

  lemma GroupJobs(g: FileGroup, n: nat, t: WorkerType, jobs: seq<Worker>) returns (at: seq<Place>)
    requires GoodGroup(g) && jobs == Jobs(GroupAsRead(g, n, t).lists, n)
    ensures |at| == |jobs| && (forall i, j :: 0 <= i < j < |at| ==> Before(at[i], at[j]))
    ensures forall i :: 0 <= i < |at| ==>
              at[i].0 == n && at[i].1 < |g.lists| && WrittenJob(jobs[i], g.lists[at[i].1], n, at[i].1, t)
    ensures forall j: nat :: j < |g.lists| ==> ((n, j) in at <==> GetsJob(g.lists[j]))
  {
    hide Jobs;
    hide JobFor;
    hide Workable;
    hide WrittenJob;
    hide GetsJob;
    hide GoodList;
    hide ListAsRead;
    var lists := GroupAsRead(g, n, t).lists;
    var k := JobsMade(lists, n);
    forall j: nat | j < |g.lists|
      ensures Workable(lists[j]) <==> GetsJob(g.lists[j])
      ensures forall w :: JobFor(w, lists[j], n) ==> WrittenJob(w, g.lists[j], n, j, t) {
      assert GoodList(g.lists[j]) && lists[j] == ListAsRead(g.lists[j], j, t);
      ListJob(g.lists[j], n, j, t);
    }
    at := seq(|k|, i requires 0 <= i < |k| => (n, k[i]));
    forall j: nat | j < |g.lists| ensures (n, j) in at <==> GetsJob(g.lists[j]) {
      if j in k {
        var i :| 0 <= i < |k| && k[i] == j;
        assert at[i] == (n, j);
      }
    }
  }

  lemma Joined(at: seq<Place>, jobs: seq<Worker>, groups: seq<FileGroup>, g: FileGroup, t: WorkerType,
               last: seq<Place>, more: seq<Worker>)
    requires StreamAt(at, jobs, groups, t) && |last| == |more|
    requires forall i, j :: 0 <= i < j < |last| ==> Before(last[i], last[j])
    requires forall i :: 0 <= i < |last| ==>
               last[i].0 == |groups| && last[i].1 < |g.lists| && WrittenJob(more[i], g.lists[last[i].1], |groups|, last[i].1, t)
    requires forall j: nat :: j < |g.lists| ==> ((|groups|, j) in last <==> GetsJob(g.lists[j]))
    ensures StreamAt(at + last, jobs + more, groups + [g], t)
  {
    hide WrittenJob;
    hide GetsJob;
    forall a: Place | InGroups(a, groups + [g])
      ensures a in at + last <==> GetsJob((groups + [g])[a.0].lists[a.1]) {
      if a.0 == |groups| {
        assert a == (|groups|, a.1);
        assert a !in at;
      } else {
        assert a !in last;
      }
    }
  }

  /** The jobs of a pool are those of the written lists that get one, in the order of the journal, each with
      the function that the list's newness, type and class ask for. */
  lemma {:induction false} StreamMade(groups: seq<FileGroup>, t: WorkerType) returns (at: seq<Place>)
    requires GoodGroups(groups)
    ensures StreamAt(at, GroupsJobs(AsRead(groups, t)), groups, t)
  {
    if groups == [] {
      at := [];
    } else {
      hide GoodGroup;
      hide GoodGroups;
      hide GroupAsRead;
      hide Jobs;
      hide StreamAt;
      hide WrittenJob;
      hide GetsJob;
      hide Before;
      var n := |groups| - 1;
      GoodPrefix(groups);
      var front := StreamMade(groups[..n], t);
      var more := Jobs(GroupAsRead(groups[n], n, t).lists, n);
      var last := GroupJobs(groups[n], n, t, more);
      GroupsJobsSnoc(AsRead(groups[..n], t), GroupAsRead(groups[n], n, t));
      assert GroupAsRead(groups[n], n, t).index == n by { ReadIndex(groups[n], n, t); }
      Joined(front, GroupsJobs(AsRead(groups[..n], t)), groups[..n], groups[n], t, last, more);
      assert groups[..n] + [groups[n]] == groups;
      at := front + last;
    }
  }

  lemma ReadIndex(g: FileGroup, n: nat, t: WorkerType)
    requires GoodGroup(g)
    ensures GroupAsRead(g, n, t).index == n
  {
  }
}
