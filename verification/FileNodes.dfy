/** The node table of debug-tools/shark/shark_file.c: idle and busy nodes, use counts along the parent
    chains, depth and paths.  The red-black trees appear as the finite maps that they implement. */
module FileNodes {
  import opened JournalText
  import opened Wrappers

  datatype FileType = Dir | Symlink | File

  const MAX_DEPTH := 10
  const LONG_SPAN: int := 0x1_0000_0000_0000_0000

  class FileNode {
    const fileType: FileType
    const index: nat
    const parent: FileNode?
    /** What mktemp and construction_file_name put behind the index. */
    const suffix: string
    var usecnt: int
    /** How many ancestors there are. */
    ghost const depth: nat

    constructor (fileType: FileType, index: nat, parent: FileNode?, suffix: string)
      ensures this.fileType == fileType && this.index == index && this.parent == parent && usecnt == 0
      ensures this.suffix == suffix && depth == if parent == null then 0 else parent.depth + 1
    {
      this.fileType, this.index, this.parent, this.usecnt := fileType, index, parent, 0;
      this.suffix := suffix;
      this.depth := if parent == null then 0 else parent.depth + 1;
    }

    /** construction_file_name, shark_file.c:33-62. */
    function FileName(): string { Digits(index) + "-" + suffix }
  }

  /** The parents upward. */
  ghost function Ancestors(n: FileNode): seq<FileNode>
    decreases n.depth
  {
    if n.parent == null || n.parent.depth >= n.depth then [] else [n.parent] + Ancestors(n.parent)
  }

  /** Place `j` of the chain carries a use: neither it nor any place before it is an initial directory. */
  ghost predicate Reached(chain: seq<FileNode>, initial: nat, j: nat)
    requires j < |chain|
  {
    forall i :: 0 <= i <= j ==> chain[i].index >= initial
  }

  ghost predicate Carries(chain: seq<FileNode>, initial: nat, d: FileNode) {
    exists j: nat :: j < |chain| && chain[j] == d && Reached(chain, initial, j)
  }

  type Key = (FileType, nat)

  /** The busy nodes whose use `d` carries. */
  ghost function Users(busy: map<Key, FileNode>, initial: nat, d: FileNode): set<Key> {
    set k | k in busy && Carries(Ancestors(busy[k]), initial, d)
  }

  lemma UsersEnter(busy: map<Key, FileNode>, initial: nat, k: Key, n: FileNode, d: FileNode)
    requires k !in busy
    ensures |Users(busy[k := n], initial, d)| == |Users(busy, initial, d)| + if Carries(Ancestors(n), initial, d) then 1 else 0
  {
    hide Carries;
    var was, now := Users(busy, initial, d), Users(busy[k := n], initial, d);
    if Carries(Ancestors(n), initial, d) {
      assert now == was + {k};
    } else {
      assert now == was;
    }
  }

  lemma UsersLeave(busy: map<Key, FileNode>, initial: nat, k: Key, d: FileNode)
    requires k in busy
    ensures |Users(busy - {k}, initial, d)| == |Users(busy, initial, d)| - if Carries(Ancestors(busy[k]), initial, d) then 1 else 0
  {
    hide Carries;
    var was, now := Users(busy, initial, d), Users(busy - {k}, initial, d);
    if Carries(Ancestors(busy[k]), initial, d) {
      assert was == now + {k};
    } else {
      assert now == was;
    }
  }

  /** Parents are directories of the table and lie one level up; the indices of a type were all given
      out, and none is used twice. */
  ghost predicate Tree(all: set<FileNode>, dirCnt: nat, symlinkCnt: nat, fileCnt: nat) {
    && (forall n :: n in all ==>
          && n.depth <= MAX_DEPTH
          && 1 <= n.index <= Cnt(n.fileType, dirCnt, symlinkCnt, fileCnt)
          && (n.parent == null ==> n.depth == 0)
          && (n.parent != null ==> n.parent in all && n.parent.fileType == Dir && n.depth == n.parent.depth + 1))
    && (forall m, n :: m in all && n in all && m.fileType == n.fileType && m.index == n.index ==> m == n)
  }

  /** The last index of a type given out. */
  function Cnt(t: FileType, dirCnt: nat, symlinkCnt: nat, fileCnt: nat): nat {
    match t
    case Dir => dirCnt
    case Symlink => symlinkCnt
    case File => fileCnt
  }

  /** The nodes stand under their own keys, and each is idle or busy, not both. */
  ghost predicate Filed(idle: map<Key, FileNode>, busy: map<Key, FileNode>, all: set<FileNode>) {
    && (forall k :: k in idle ==> idle[k] in all && k == (idle[k].fileType, idle[k].index))
    && (forall k :: k in busy ==> busy[k] in all && k == (busy[k].fileType, busy[k].index))
    && forall k :: k in idle ==> k !in busy
  }

  /** Every use count is exact. */
  ghost predicate Counted(busy: map<Key, FileNode>, initial: nat, all: set<FileNode>)
    reads all
  {
    forall d :: d in all ==> d.usecnt == |Users(busy, initial, d)|
  }

  /** Parents stay in the set and lie one level up. */
  ghost predicate Rooted(all: set<FileNode>) {
    forall n :: n in all ==>
      && (n.parent == null ==> n.depth == 0)
      && (n.parent != null ==> n.parent in all && n.parent.fileType == Dir && n.depth == n.parent.depth + 1)
  }

  /** The chain of a node of the table: it ends, has as many places as the node's depth, and holds no
      node twice. */
  lemma {:induction false} ChainIs(n: FileNode, all: set<FileNode>)
    requires Rooted(all) && n in all
    ensures |Ancestors(n)| == n.depth
    ensures forall i :: 0 <= i < |Ancestors(n)| ==>
              Ancestors(n)[i] in all && Ancestors(n)[i].depth == n.depth - 1 - i && Ancestors(n)[i].fileType == Dir
    ensures Linked(Ancestors(n)) && n.parent == if Ancestors(n) == [] then null else Ancestors(n)[0]
    decreases n.depth
  {
    if n.parent != null {
      ChainIs(n.parent, all);
    }
  }

  lemma TreeRooted(all: set<FileNode>, dirCnt: nat, symlinkCnt: nat, fileCnt: nat)
    requires Tree(all, dirCnt, symlinkCnt, fileCnt)
    ensures Rooted(all)
  {
  }

  /** shark_file.c:378-383: the index that a random number stands for, 0 for the mount point. */
  function Drawn(random: nat, dirCnt: nat): nat { if dirCnt == 0 then 0 else random % dirCnt }

  /** It is the remainder, so with directories the index is below their count. */
  lemma DrawnIs(random: nat, dirCnt: nat) returns (q: nat)
    ensures dirCnt == 0 ==> Drawn(random, dirCnt) == 0
    ensures dirCnt > 0 ==> Drawn(random, dirCnt) < dirCnt && random == q * dirCnt + Drawn(random, dirCnt)
  {
    q := if dirCnt == 0 then 0 else random / dirCnt;
  }

  /** The index can be a parent: it is the mount point, or an idle directory that is not too deep. */
  ghost predicate Lands(idle: map<Key, FileNode>, x: nat) {
    x != 0 ==> (Dir, x) in idle && idle[(Dir, x)].depth < MAX_DEPTH
  }

  function ParentAt(idle: map<Key, FileNode>, x: nat): FileNode? {
    if x != 0 && (Dir, x) in idle then idle[(Dir, x)] else null
  }

  /** The parent that the first of the random numbers that lands gives. */
  ghost function FirstParent(idle: map<Key, FileNode>, dirCnt: nat, draws: seq<nat>): Option<FileNode?> {
    if draws == [] then None
    else if Lands(idle, Drawn(draws[0], dirCnt)) then Some(ParentAt(idle, Drawn(draws[0], dirCnt)))
    else FirstParent(idle, dirCnt, draws[1..])
  }

  /** Place `i` is the first whose number lands; with none there is no parent. */
  lemma {:induction false} FirstLanding(idle: map<Key, FileNode>, dirCnt: nat, draws: seq<nat>) returns (i: nat)
    ensures i <= |draws| && forall j :: 0 <= j < i ==> !Lands(idle, Drawn(draws[j], dirCnt))
    ensures i == |draws| ==> FirstParent(idle, dirCnt, draws) == None
    ensures i < |draws| ==>
              && Lands(idle, Drawn(draws[i], dirCnt))
              && FirstParent(idle, dirCnt, draws)
                 == Some(if Drawn(draws[i], dirCnt) == 0 then null else idle[(Dir, Drawn(draws[i], dirCnt))])
  {
    hide Drawn;
    if draws == [] || Lands(idle, Drawn(draws[0], dirCnt)) {
      i := 0;
    } else {
      i := FirstLanding(idle, dirCnt, draws[1..]);
      i := i + 1;
    }
  }

  /** A table at one moment. */
  datatype State = State(idle: map<Key, FileNode>, busy: map<Key, FileNode>, all: set<FileNode>,
                         dirCnt: nat, symlinkCnt: nat, fileCnt: nat, uses: map<FileNode, int>)

  class NodeTable {
    const initialDirCnts: nat
    var idle: map<Key, FileNode>
    var busy: map<Key, FileNode>
    var dirCnt: nat
    var symlinkCnt: nat
    var fileCnt: nat
    /** All nodes ever made. */
    ghost var all: set<FileNode>

    ghost predicate Valid()
      reads this, all
    {
      && Tree(all, dirCnt, symlinkCnt, fileCnt) && Filed(idle, busy, all)
      && Counted(busy, initialDirCnts, all)
    }

    ghost function Now(): State
      reads this, all
    {
      State(idle, busy, all, dirCnt, symlinkCnt, fileCnt, map n | n in all :: n.usecnt)
    }

    constructor (initial: nat)
      ensures Valid() && all == {} && initialDirCnts == initial && Now() == State(map[], map[], {}, 0, 0, 0, map[])
    {
      initialDirCnts := initial;
      idle, busy, all := map[], map[], {};
      dirCnt, symlinkCnt, fileCnt := 0, 0, 0;
    }

    /** check_path_depth, shark_file.c:100-118. */
    static method CheckPathDepth(n: FileNode, ghost all: set<FileNode>) returns (ret: bool)
      requires Rooted(all) && n in all
      ensures ret <==> n.depth < MAX_DEPTH
    {
      ChainIs(n, all);
      ghost var chain := Ancestors(n);
      hide Rooted;
      var par, depth := n.parent, 0;
      while par != null
        invariant 0 <= depth <= |chain| && par == if depth < |chain| then chain[depth] else null
        decreases |chain| - depth
      {
        MemberNext(chain, depth);
        depth := depth + 1;
        par := par.parent;
      }
      ret := depth < MAX_DEPTH;
    }

    /** file_node_usecnt_update, shark_file.c:677-720. */
    static method UsecntUpdate(n: FileNode, isAdd: bool, initial: nat, ghost all: set<FileNode>)
      requires Rooted(all) && n in all
      modifies all
      ensures var chain := Ancestors(n);
              forall j :: 0 <= j < |chain| ==>
                chain[j] in all
                && chain[j].usecnt == old(chain[j].usecnt)
                   + if forall i :: 0 <= i <= j ==> chain[i].index >= initial then (if isAdd then 1 else -1) else 0
      ensures forall d :: d in all && d !in Ancestors(n) ==> d.usecnt == old(d.usecnt)
      ensures forall d :: d in all ==>
                d.usecnt == old(d.usecnt) + if Carries(Ancestors(n), initial, d) then Delta(isAdd) else 0
    {
      ChainIs(n, all);
      hide Rooted;
      hide Linked;
      hide Carries;
      ghost var chain := Ancestors(n);
      WalkUp(n.parent, isAdd, initial, chain, all);
      forall d | d in all
        ensures d.usecnt == old(d.usecnt) + if Carries(chain, initial, d) then Delta(isAdd) else 0 {
        CarriesAt(chain, initial, d);
        if d in chain {
          var j :| 0 <= j < |chain| && chain[j] == d;
          assert Carries(chain, initial, d) <==> forall i :: 0 <= i <= j ==> chain[i].index >= initial;
        }
      }
    }

    /** 577-593 and shark_ops.c:1097-1101: into the busy tree, and every ancestor of the walk is used
        once more. */
    method Enter(k: Key, n: FileNode)
      requires Rooted(all) && Counted(busy, initialDirCnts, all) && n in all && k !in busy
      modifies this`busy, all
      ensures Counted(busy, initialDirCnts, all) && busy == old(busy)[k := n]
    {
      hide Rooted;
      hide Users;
      hide Carries;
      ghost var was := busy;
      busy := busy[k := n];
      UsecntUpdate(n, true, initialDirCnts, all);
      forall d | d in all ensures d.usecnt == |Users(busy, initialDirCnts, d)| {
        UsersEnter(was, initialDirCnts, k, n, d);
      }
    }

    /** shark_posix.c:57-68 and worker_move_list: out of the busy tree, and every ancestor is used once
        less. */
    method Leave(k: Key)
      requires Rooted(all) && Counted(busy, initialDirCnts, all) && k in busy && busy[k] in all
      modifies this`busy, all
      ensures Counted(busy, initialDirCnts, all) && busy == old(busy) - {k}
    {
      hide Rooted;
      hide Users;
      hide Carries;
      ghost var was := busy;
      var n := busy[k];
      busy := busy - {k};
      UsecntUpdate(n, false, initialDirCnts, all);
      forall d | d in all ensures d.usecnt == |Users(busy, initialDirCnts, d)| {
        UsersLeave(was, initialDirCnts, k, d);
      }
    }

    /** An idle node is taken for operations: file_delete_form_rbt from the idle tree, then busy. */
    method MakeBusy(k: Key) returns (found: bool)
      requires Valid()
      modifies this`idle, this`busy, all
      ensures Valid() && found == (k in old(idle))
      ensures found ==> busy == old(busy)[k := old(idle)[k]] && idle == old(idle) - {k}
      ensures !found ==> busy == old(busy) && idle == old(idle)
    {
      hide Tree;
      hide Counted;
      found := k in idle;
      if found {
        var n := idle[k];
        TreeRooted(all, dirCnt, symlinkCnt, fileCnt);
        idle := idle - {k};
        Enter(k, n);
      }
    }

    /** A busy node is given back (mobile_list, worker_move_list): to the idle tree, or it is destroyed.
        An index that is not busy changes nothing. */
    method Release(k: Key, keep: bool) returns (found: bool)
      requires Valid()
      modifies this`idle, this`busy, all
      ensures Valid() && found == (k in old(busy))
      ensures found ==> busy == old(busy) - {k} && idle == if keep then old(idle)[k := old(busy)[k]] else old(idle)
      ensures !found ==> busy == old(busy) && idle == old(idle)
    {
      hide Tree;
      hide Counted;
      found := k in busy;
      if found {
        var n := busy[k];
        TreeRooted(all, dirCnt, symlinkCnt, fileCnt);
        Leave(k);
        if keep { idle := idle[k := n]; }
      }
    }

    /** get_idle_index, shark_file.c:64-98: the next index of a type. */
    method GetIdleIndex(t: FileType) returns (index: nat)
      requires Valid()
      modifies this`dirCnt, this`symlinkCnt, this`fileCnt
      ensures Valid() && index == old(Cnt(t, dirCnt, symlinkCnt, fileCnt))
      ensures forall u :: Cnt(u, dirCnt, symlinkCnt, fileCnt) == old(Cnt(u, dirCnt, symlinkCnt, fileCnt)) + if u == t then 1 else 0
    {
      hide Filed;
      hide Counted;
      index := Cnt(t, dirCnt, symlinkCnt, fileCnt);
      match t {
        case Dir => dirCnt := dirCnt + 1;
        case Symlink => symlinkCnt := symlinkCnt + 1;
        case File => fileCnt := fileCnt + 1;
      }
    }

    /** shark_file.c:376-406: a parent for one random number: the root for 0, else an idle directory that
        is not too deep, which leaves the idle tree meanwhile. */
    method PickParent(random: nat) returns (ok: bool, par: FileNode?)
      requires Valid()
      modifies this`idle
      ensures Valid()
      ensures ok && par == null ==> idle == old(idle)
      ensures ok && par != null ==>
                par in all && par.fileType == Dir && par.depth < MAX_DEPTH && old(idle) == idle[(Dir, par.index) := par]
                && (Dir, par.index) !in idle && (Dir, par.index) !in busy
      ensures !ok ==> idle == old(idle) && par == null
      ensures ok == Lands(old(idle), Drawn(random, dirCnt))
      ensures ok ==> par == ParentAt(old(idle), Drawn(random, dirCnt))
    {
      hide Tree;
      hide Counted;
      par, ok := null, true;
      var parIndex := Drawn(random, dirCnt);
      if parIndex != 0 {
        if (Dir, parIndex) !in idle {
          return false, null;
        }
        ghost var was := idle;
        par := idle[(Dir, parIndex)];
        idle := idle - {(Dir, parIndex)};
        TreeRooted(all, dirCnt, symlinkCnt, fileCnt);
        ok := CheckPathDepth(par, all);
        assert was == idle[(Dir, parIndex) := par];
        if !ok {
          idle := idle[(Dir, parIndex) := par];
          par := null;
        }
      }
    }

    /** shark_file.c:408-606: the node is made and filed, and the parent goes back to the idle tree. */
    method MakeNode(t: FileType, forOp: bool, index: nat, par: FileNode?, suffix: string) returns (n: FileNode)
      requires Valid() && 1 <= index == Cnt(t, dirCnt, symlinkCnt, fileCnt)
      requires forall m :: m in all && m.fileType == t ==> m.index < index
      requires par != null ==>
                 par in all && par.fileType == Dir && par.depth < MAX_DEPTH
                 && (Dir, par.index) !in idle && (Dir, par.index) !in busy
      modifies this`idle, this`busy, this`all, all
      ensures Valid() && fresh(n) && n.fileType == t && n.index == index && n.parent == par
      ensures n.suffix == suffix && all == old(all) + {n}
      ensures busy == if forOp then old(busy)[(t, index) := n] else old(busy)
      ensures var back := if par == null then old(idle) else old(idle)[(Dir, par.index) := par];
              (forOp ==> idle == back) && (!forOp ==> idle == back[(t, index) := n])
    {
      hide Tree;
      hide Counted;
      hide Filed;
      n := new FileNode(t, index, par, suffix);
      assert n !in all;
      FileNew(idle, busy, all, n);
      BusyIn(idle, busy, all);
      NewNode(all, n, busy, initialDirCnts, dirCnt, symlinkCnt, fileCnt);
      assert par != null ==> (Dir, par.index) != (t, index);
      all := all + {n};
      if forOp {
        TreeRooted(all, dirCnt, symlinkCnt, fileCnt);
        Enter((t, index), n);
      } else {
        idle := idle[(t, index) := n];
      }
      if par != null { BackToIdle(par); }
    }

    /** 598-601: the parent is idle again. */
    method BackToIdle(par: FileNode)
      requires Valid() && par in all && par.fileType == Dir && (Dir, par.index) !in busy
      modifies this`idle
      ensures Valid() && idle == old(idle)[(Dir, par.index) := par]
    {
      hide Tree;
      hide Counted;
      hide Filed;
      FileParent(idle, busy, all, par);
      idle := idle[(Dir, par.index) := par];
    }

    /** file_node_create, shark_file.c:349-611, every system call succeeding; `draws` are the random
        numbers.  Null: all draws so far have met no parent, and the loop would go on. */
    method FileNodeCreate(t: FileType, forOp: bool, draws: seq<nat>, suffix: string) returns (n: FileNode?)
      requires Valid()
      modifies this, all
      ensures Valid()
      ensures forall u :: Cnt(u, dirCnt, symlinkCnt, fileCnt) == old(Cnt(u, dirCnt, symlinkCnt, fileCnt)) + if u == t then 1 else 0
      ensures n == null ==> idle == old(idle) && busy == old(busy) && all == old(all)
      ensures FirstParent(old(idle), dirCnt, draws) == if n == null then None else Some(n.parent)
      ensures n != null ==>
                && fresh(n) && all == old(all) + {n} && n.fileType == t
                && n.index == old(Cnt(t, dirCnt, symlinkCnt, fileCnt)) + 1 && n.suffix == suffix
                && (forOp ==> busy == old(busy)[(t, n.index) := n] && idle == old(idle))
                && (!forOp ==> busy == old(busy) && idle == old(idle)[(t, n.index) := n])
    {
      AllBelow(all, t, dirCnt, symlinkCnt, fileCnt);
      hide Tree;
      hide Counted;
      hide Filed;
      var currIndex := GetIdleIndex(t);
      var i := 0;
      while i < |draws|
        invariant 0 <= i <= |draws| && Valid()
        invariant idle == old(idle) && busy == old(busy) && all == old(all)
        invariant Cnt(t, dirCnt, symlinkCnt, fileCnt) == currIndex + 1
        invariant forall u :: Cnt(u, dirCnt, symlinkCnt, fileCnt) == old(Cnt(u, dirCnt, symlinkCnt, fileCnt)) + if u == t then 1 else 0
        invariant FirstParent(idle, dirCnt, draws) == FirstParent(idle, dirCnt, draws[i..])
      {
        assert draws[i..][1..] == draws[i + 1..];
        var ok, par := PickParent(draws[i]);
        if ok {
          n := MakeNode(t, forOp, currIndex + 1, par, suffix);
          return;
        }
        i := i + 1;
      }
      n := null;
    }
  }

  lemma BusyIn(idle: map<Key, FileNode>, busy: map<Key, FileNode>, all: set<FileNode>)
    requires Filed(idle, busy, all)
    ensures forall k :: k in busy ==> busy[k] in all
  {
  }

  lemma AllBelow(all: set<FileNode>, t: FileType, dirCnt: nat, symlinkCnt: nat, fileCnt: nat)
    requires Tree(all, dirCnt, symlinkCnt, fileCnt)
    ensures forall m :: m in all && m.fileType == t ==> m.index < Cnt(t, dirCnt, symlinkCnt, fileCnt) + 1
  {
  }

  /** Filing a new node, or a parent that stood in neither tree. */
  lemma FileNew(idle: map<Key, FileNode>, busy: map<Key, FileNode>, all: set<FileNode>, n: FileNode)
    requires Filed(idle, busy, all) && n !in all
    requires forall m :: m in all && m.fileType == n.fileType ==> m.index != n.index
    ensures var k := (n.fileType, n.index);
            k !in idle && k !in busy && Filed(idle[k := n], busy, all + {n}) && Filed(idle, busy[k := n], all + {n})
  {
  }

  lemma FileParent(idle: map<Key, FileNode>, busy: map<Key, FileNode>, all: set<FileNode>, par: FileNode)
    requires Filed(idle, busy, all) && par in all && par.fileType == Dir && (Dir, par.index) !in busy
    ensures Filed(idle[(Dir, par.index) := par], busy, all)
  {
  }

  /** A fresh node one level below its parent keeps the tree, and nobody uses it yet. */
  lemma NewNode(all: set<FileNode>, n: FileNode, busy: map<Key, FileNode>, initial: nat, dirCnt: nat, symlinkCnt: nat, fileCnt: nat)
    requires Tree(all, dirCnt, symlinkCnt, fileCnt) && Counted(busy, initial, all) && n !in all && n.usecnt == 0
    requires forall k :: k in busy ==> busy[k] in all
    requires 1 <= n.index <= Cnt(n.fileType, dirCnt, symlinkCnt, fileCnt)
    requires forall m :: m in all && m.fileType == n.fileType ==> m.index != n.index
    requires n.parent == null ==> n.depth == 0
    requires n.parent != null ==> n.parent in all && n.parent.fileType == Dir && n.depth == n.parent.depth + 1 <= MAX_DEPTH
    ensures Tree(all + {n}, dirCnt, symlinkCnt, fileCnt) && Counted(busy, initial, all + {n})
  {
    TreeRooted(all, dirCnt, symlinkCnt, fileCnt);
    forall k | k in busy ensures !Carries(Ancestors(busy[k]), initial, n) {
      ChainIs(busy[k], all);
    }
    assert Users(busy, initial, n) == {};
  }

  ghost predicate Linked(chain: seq<FileNode>) {
    && (forall i :: 0 <= i < |chain| - 1 ==> chain[i].parent == chain[i + 1])
    && (chain != [] ==> chain[|chain| - 1].parent == null)
    && forall i, j :: 0 <= i < j < |chain| ==> chain[i] != chain[j]
  }

  function Delta(isAdd: bool): int { if isAdd then 1 else -1 }

  /** The loop at shark_file.c:688-715: up to the first initial directory. */
  method WalkUp(first: FileNode?, isAdd: bool, initial: nat, ghost chain: seq<FileNode>, ghost all: set<FileNode>)
    requires Linked(chain) && (forall i :: 0 <= i < |chain| ==> chain[i] in all)
    requires first == if chain == [] then null else chain[0]
    modifies all
    ensures forall j :: 0 <= j < |chain| ==>
              chain[j].usecnt == old(chain[j].usecnt)
                + if forall i :: 0 <= i <= j ==> chain[i].index >= initial then (if isAdd then 1 else -1) else 0
    ensures forall d :: d in all && d !in chain ==> d.usecnt == old(d.usecnt)
  {
    hide Linked;
    var par := first;
    ghost var k := 0;
    while par != null
      invariant 0 <= k <= |chain| && par == if k < |chain| then chain[k] else null
      invariant forall j :: 0 <= j < k ==> chain[j].index >= initial
      invariant forall d :: d in all ==> d.usecnt == old(d.usecnt) + if d in chain[..k] then Delta(isAdd) else 0
      decreases |chain| - k
    {
      if par.index < initial {
        break;
      }
      MemberNext(chain, k);
      par.usecnt := par.usecnt + Delta(isAdd);
      par := par.parent;
      k := k + 1;
    }
    forall j | 0 <= j < |chain|
      ensures chain[j] in chain[..k] <==> forall i :: 0 <= i <= j ==> chain[i].index >= initial {
      FrontHas(chain, j, k);
    }
  }

  lemma CarriesAt(chain: seq<FileNode>, initial: nat, d: FileNode)
    requires Linked(chain)
    ensures d !in chain ==> !Carries(chain, initial, d)
    ensures forall j :: 0 <= j < |chain| && chain[j] == d ==>
              (Carries(chain, initial, d) <==> forall i :: 0 <= i <= j ==> chain[i].index >= initial)
  {
    forall j | 0 <= j < |chain| && chain[j] == d
      ensures Carries(chain, initial, d) <==> forall i :: 0 <= i <= j ==> chain[i].index >= initial {
      assert Carries(chain, initial, d) <==> Reached(chain, initial, j);
    }
  }

  lemma FrontHas(chain: seq<FileNode>, j: nat, k: nat)
    requires Linked(chain) && j < |chain| && k <= |chain|
    ensures chain[j] in chain[..k] <==> j < k
  {
    if j < k { assert chain[..k][j] == chain[j]; }
  }

  lemma MemberNext(chain: seq<FileNode>, i: nat)
    requires Linked(chain) && i < |chain|
    ensures chain[i] !in chain[..i] && chain[i].parent == if i + 1 < |chain| then chain[i + 1] else null
    ensures forall d :: d in chain[..i + 1] <==> d in chain[..i] || d == chain[i]
  {
    assert chain[..i + 1] == chain[..i] + [chain[i]];
    if i == |chain| - 1 {
      assert chain[i].parent == null;
    } else {
      assert chain[i].parent == chain[i + 1];
    }
    forall d ensures d in chain[..i + 1] <==> d in chain[..i] || d == chain[i] {
      assert d in chain[..i + 1] <==> d in chain[..i] + [chain[i]];
    }
  }

  /** What the walks rely on and the table keeps: at most 10 ancestors, an end of the walk, counts that
      are no less than 0, and no index in both trees. */
  lemma Shallow(table: NodeTable, n: FileNode)
    requires table.Valid() && n in table.all
    ensures |Ancestors(n)| <= MAX_DEPTH && Linked(Ancestors(n))
    ensures n.usecnt >= 0 && (n.fileType != Dir ==> n.usecnt == 0)
    ensures !((n.fileType, n.index) in table.idle && (n.fileType, n.index) in table.busy)
  {
    TreeRooted(table.all, table.dirCnt, table.symlinkCnt, table.fileCnt);
    ChainIs(n, table.all);
    var users := Users(table.busy, table.initialDirCnts, n);
    if n.fileType != Dir {
      forall k | k in table.busy ensures k !in users {
        ChainIs(table.busy[k], table.all);
      }
      assert users == {};
    }
  }

  /** One thing done to the table. */
  datatype Use =
    | CreateUse(t: FileType, forOp: bool, draws: seq<nat>, suffix: string)
    | BusyUse(k: Key)
    | ReleaseUse(b: Key, keep: bool)

  /** What holds at every moment: the tree, the two files, and exact use counts. */
  ghost predicate Good(s: State, initial: nat) {
    && Tree(s.all, s.dirCnt, s.symlinkCnt, s.fileCnt) && Filed(s.idle, s.busy, s.all)
    && s.uses.Keys == s.all && forall d :: d in s.all ==> s.uses[d] == |Users(s.busy, initial, d)|
  }

  ghost predicate SameNodes(s: State, s': State) {
    s'.all == s.all && s'.dirCnt == s.dirCnt && s'.symlinkCnt == s.symlinkCnt && s'.fileCnt == s.fileCnt
  }

  ghost predicate NextIndex(s: State, t: FileType, s': State) {
    && s'.dirCnt == s.dirCnt + (if t == Dir then 1 else 0)
    && s'.symlinkCnt == s.symlinkCnt + (if t == Symlink then 1 else 0)
    && s'.fileCnt == s.fileCnt + (if t == File then 1 else 0)
  }

  /** The new node `n` under `parent`. */
  ghost predicate Made(s: State, t: FileType, forOp: bool, parent: FileNode?, suffix: string, n: FileNode, s': State) {
    && n !in s.all && s'.all == s.all + {n}
    && n.fileType == t && n.index == Cnt(t, s'.dirCnt, s'.symlinkCnt, s'.fileCnt)
    && n.parent == parent && n.suffix == suffix
    && s'.busy == (if forOp then s.busy[(t, n.index) := n] else s.busy)
    && s'.idle == (if forOp then s.idle else s.idle[(t, n.index) := n])
  }

  /** What one use makes of a table. */
  ghost predicate Stepped(s: State, use: Use, s': State) {
    match use
    case CreateUse(t, forOp, draws, suffix) =>
      var parent := FirstParent(s.idle, s'.dirCnt, draws);
      NextIndex(s, t, s')
      && if parent == None then s'.all == s.all && s'.idle == s.idle && s'.busy == s.busy
         else exists n :: n in s'.all && Made(s, t, forOp, parent.value, suffix, n, s')
    case BusyUse(k) =>
      SameNodes(s, s')
      && if k in s.idle then s'.busy == s.busy[k := s.idle[k]] && s'.idle == s.idle - {k}
         else s'.busy == s.busy && s'.idle == s.idle
    case ReleaseUse(k, keep) =>
      SameNodes(s, s')
      && if k in s.busy then s'.busy == s.busy - {k} && s'.idle == if keep then s.idle[k := s.busy[k]] else s.idle
         else s'.busy == s.busy && s'.idle == s.idle
  }

  method Do(table: NodeTable, use: Use)
    requires table.Valid()
    modifies table, table.all
    ensures table.Valid() && fresh(table.all - old(table.all))
    ensures Stepped(old(table.Now()), use, table.Now())
  {
    hide Tree;
    hide Counted;
    hide Filed;
    hide FirstParent;
    ghost var s := table.Now();
    match use {
      case CreateUse(t, forOp, draws, suffix) =>
        var n := table.FileNodeCreate(t, forOp, draws, suffix);
        ghost var s' := table.Now();
        assert forall u :: Cnt(u, s'.dirCnt, s'.symlinkCnt, s'.fileCnt)
                        == Cnt(u, s.dirCnt, s.symlinkCnt, s.fileCnt) + if u == t then 1 else 0;
        CntsNext(s, t, s');
        if n != null {
          assert Made(s, t, forOp, n.parent, suffix, n, s');
        }
      case BusyUse(k) =>
        var found := table.MakeBusy(k);
      case ReleaseUse(k, keep) =>
        var found := table.Release(k, keep);
    }
  }

  lemma CntsNext(s: State, t: FileType, s': State)
    requires forall u :: Cnt(u, s'.dirCnt, s'.symlinkCnt, s'.fileCnt)
                      == Cnt(u, s.dirCnt, s.symlinkCnt, s.fileCnt) + if u == t then 1 else 0
    ensures NextIndex(s, t, s')
  {
    assert s'.dirCnt == Cnt(Dir, s'.dirCnt, s'.symlinkCnt, s'.fileCnt);
    assert s'.symlinkCnt == Cnt(Symlink, s'.dirCnt, s'.symlinkCnt, s'.fileCnt);
    assert s'.fileCnt == Cnt(File, s'.dirCnt, s'.symlinkCnt, s'.fileCnt);
  }

  lemma NowGood(table: NodeTable)
    requires table.Valid()
    ensures Good(table.Now(), table.initialDirCnts)
  {
    hide Tree;
    hide Filed;
    hide Users;
  }

  /** In every state of a run a node's count is the number of the busy nodes that have it as an ancestor with
      no initial directory at or below it on the way. */
  lemma CountExact(s: State, initial: nat, d: FileNode) returns (users: set<Key>)
    requires Good(s, initial) && d in s.all
    ensures s.uses[d] == |users| && forall k :: k in users ==> k in s.busy
    ensures forall k :: k in s.busy ==>
              var chain := Ancestors(s.busy[k]);
              (k in users <==>
                 exists j :: 0 <= j < |chain| && chain[j] == d && forall i :: 0 <= i <= j ==> chain[i].index >= initial)
  {
    hide *;
    UsesCount(s, initial, d);
    users := Users(s.busy, initial, d);
    assert forall k :: k in users ==> k in s.busy by { UsersBusy(s.busy, initial, d); }
    forall k | k in s.busy
      ensures var chain := Ancestors(s.busy[k]);
              (k in users <==>
                 exists j :: 0 <= j < |chain| && chain[j] == d && forall i :: 0 <= i <= j ==> chain[i].index >= initial) {
      UserWhere(s.busy, initial, d, k);
    }
  }

  lemma UsesCount(s: State, initial: nat, d: FileNode)
    requires Good(s, initial) && d in s.all
    ensures d in s.uses && s.uses[d] == |Users(s.busy, initial, d)|
  {
    hide Tree;
    hide Filed;
    hide Users;
  }

  lemma UsersBusy(busy: map<Key, FileNode>, initial: nat, d: FileNode)
    ensures forall k :: k in Users(busy, initial, d) ==> k in busy
  {
  }

  lemma UserWhere(busy: map<Key, FileNode>, initial: nat, d: FileNode, k: Key)
    requires k in busy
    ensures var chain := Ancestors(busy[k]);
            (k in Users(busy, initial, d) <==>
               exists j :: 0 <= j < |chain| && chain[j] == d && forall i :: 0 <= i <= j ==> chain[i].index >= initial)
  {
    CarriesWhere(Ancestors(busy[k]), initial, d);
    assert k in Users(busy, initial, d) <==> Carries(Ancestors(busy[k]), initial, d);
  }

  lemma CarriesWhere(chain: seq<FileNode>, initial: nat, d: FileNode)
    ensures Carries(chain, initial, d) <==>
              exists j :: 0 <= j < |chain| && chain[j] == d && forall i :: 0 <= i <= j ==> chain[i].index >= initial
  {
    if j :| 0 <= j < |chain| && chain[j] == d && forall i :: 0 <= i <= j ==> chain[i].index >= initial {
      assert Reached(chain, initial, j);
    }
  }

  /** The states of a run from the empty table: each follows from the one before by its use, and in each
      the counts are exact, the indices apart and the paths shallow. */
  ghost predicate History(trace: seq<State>, uses: seq<Use>, initial: nat) {
    && |trace| == |uses| + 1 && trace[0] == State(map[], map[], {}, 0, 0, 0, map[])
    && (forall i :: 0 <= i < |uses| ==> Stepped(trace[i], uses[i], trace[i + 1]))
    && forall i :: 0 <= i < |trace| ==> Good(trace[i], initial)
  }

  lemma HistoryNext(trace: seq<State>, uses: seq<Use>, initial: nat, i: nat, s: State)
    requires i < |uses| && History(trace, uses[..i], initial) && Stepped(trace[i], uses[i], s) && Good(s, initial)
    ensures History(trace + [s], uses[..i + 1], initial)
  {
    hide Good;
    hide Stepped;
  }

  lemma HistoryStart(s: State, uses: seq<Use>, initial: nat)
    requires s == State(map[], map[], {}, 0, 0, 0, map[]) && Good(s, initial)
    ensures History([s], uses[..0], initial)
  {
    hide Good;
  }

  /** Any run from the empty table. */
  method Run(uses: seq<Use>, initial: nat) returns (table: NodeTable, ghost trace: seq<State>)
    ensures History(trace, uses, initial)
    ensures table.Valid() && table.initialDirCnts == initial && table.Now() == trace[|uses|]
  {
    hide *;
    table := new NodeTable(initial);
    NowGood(table);
    trace := [table.Now()];
    HistoryStart(table.Now(), uses, initial);
    var i := 0;
    while i < |uses|
      invariant 0 <= i <= |uses| && table.Valid() && fresh(table) && fresh(table.all) && table.initialDirCnts == initial
      invariant |trace| == i + 1 && History(trace, uses[..i], initial) && table.Now() == trace[i]
    {
      Do(table, uses[i]);
      NowGood(table);
      HistoryNext(trace, uses, initial, i, table.Now());
      trace := trace + [table.Now()];
      i := i + 1;
    }
    assert uses[..i] == uses;
  }

  /** The names from the top down, with slashes between. */
  ghost function Path(n: FileNode): string
    decreases n.depth
  {
    if n.parent == null || n.parent.depth >= n.depth then n.FileName() else Path(n.parent) + "/" + n.FileName()
  }

  /** The text between the slashes. */
  function Segments(path: string): (parts: seq<string>)
    ensures parts != []
  {
    if path == "" then [""]
    else
      var rest := Segments(path[1..]);
      if path[0] == '/' then [""] + rest else [[path[0]] + rest[0]] + rest[1..]
  }

  lemma {:induction false} OneSegment(name: string)
    requires Free(name, '/')
    ensures Segments(name) == [name]
  {
    if name != "" {
      OneSegment(name[1..]);
      assert [name[0]] + name[1..] == name;
    }
  }

  lemma {:induction false} LastSegment(path: string, name: string)
    requires Free(name, '/')
    ensures Segments(path + "/" + name) == Segments(path) + [name]
  {
    var all := path + "/" + name;
    if path == "" {
      assert all[1..] == name;
      OneSegment(name);
    } else {
      assert all[1..] == path[1..] + "/" + name;
      LastSegment(path[1..], name);
    }
  }

  /** Between its slashes the path has the names of all ancestors from the top down, and then the node's own. */
  lemma {:induction false} PathSegments(n: FileNode)
    requires Free(n.suffix, '/') && forall i :: 0 <= i < |Ancestors(n)| ==> Free(Ancestors(n)[i].suffix, '/')
    ensures var names, chain := Segments(Path(n)), Ancestors(n);
            && |names| == |chain| + 1 && names[|chain|] == n.FileName()
            && forall i :: 0 <= i < |chain| ==> names[i] == chain[|chain| - 1 - i].FileName()
    decreases n.depth
  {
    hide Segments;
    hide Free;
    NameFree(n.index, n.suffix);
    if n.parent == null || n.parent.depth >= n.depth {
      OneSegment(n.FileName());
    } else {
      assert Ancestors(n)[0] == n.parent;
      assert Ancestors(n)[1..] == Ancestors(n.parent);
      PathSegments(n.parent);
      LastSegment(Path(n.parent), n.FileName());
      var names, chain := Segments(Path(n)), Ancestors(n);
      forall i | 0 <= i < |chain| ensures names[i] == chain[|chain| - 1 - i].FileName() {
        if i < |chain| - 1 {
          assert chain[|chain| - 1 - i] == chain[1..][|chain| - 2 - i];
        }
      }
    }
  }

  /** get_path_for_file_node, shark_file.c:759-797. */
  method GetPathForFileNode(n: FileNode, ghost all: set<FileNode>) returns (buf: string)
    requires Rooted(all) && n in all
    ensures buf == Path(n)
  {
    buf := n.FileName();
    var par := n.parent;
    while par != null
      invariant par != null ==> par in all && Path(n) == Path(par) + "/" + buf
      invariant par == null ==> Path(n) == buf
      decreases if par == null then 0 else par.depth + 1
    {
      ghost var was := buf;
      buf := par.FileName() + "/" + buf;
      if par.parent != null {
        assert Path(n) == Path(par.parent) + "/" + buf by {
          assert Path(par) == Path(par.parent) + "/" + par.FileName();
          Slashes(Path(par.parent), par.FileName(), was);
        }
      }
      par := par.parent;
    }
  }

  lemma Slashes(a: string, b: string, c: string)
    ensures (a + "/" + b) + "/" + c == a + "/" + (b + "/" + c)
  {
  }

  /** The place of the last slash, looked for from `i` down; 0 at the latest. */
  function SlashFrom(path: string, i: nat): (r: nat)
    requires i < |path|
    ensures r <= i && (r > 0 ==> path[r] == '/') && forall j :: r < j <= i ==> path[j] != '/'
  {
    if i == 0 || path[i] == '/' then i else SlashFrom(path, i - 1)
  }

  predicate IsSpace(c: char) { c in " \t\n\r" || c as int == 11 || c as int == 12 }

  /** sscanf with %ld: white space and one sign are passed over; no number leaves the 0 of before. */
  function ReadLong(s: string): int {
    if s == "" then 0
    else if IsSpace(s[0]) then ReadLong(s[1..])
    else if s[0] == '-' then 0 - Scan(0, s[1..])
    else Scan(0, if s[0] == '+' then s[1..] else s)
  }

  lemma {:induction false} BlanksSkipped(blanks: string, rest: string)
    requires forall i :: 0 <= i < |blanks| ==> IsSpace(blanks[i])
    ensures ReadLong(blanks + rest) == ReadLong(rest)
  {
    if blanks == "" {
      assert blanks + rest == rest;
    } else {
      assert (blanks + rest)[0] == blanks[0] && (blanks + rest)[1..] == blanks[1..] + rest;
      BlanksSkipped(blanks[1..], rest);
    }
  }

  lemma SignedRead(sign: string, digits: string)
    requires sign in ["", "+", "-"] && digits != "" && '0' <= digits[0] <= '9'
    ensures ReadLong(sign + digits) == if sign == "-" then 0 - Scan(0, digits) else Scan(0, digits)
  {
    hide Scan;
    if sign == "" {
      assert sign + digits == digits;
    } else {
      assert (sign + digits)[0] == sign[0] && (sign + digits)[1..] == digits;
    }
  }

  /** White space, a sign or none, digits, and what follows them. */
  lemma LongIs(blanks: string, sign: string, n: nat, rest: string)
    requires (forall i :: 0 <= i < |blanks| ==> IsSpace(blanks[i])) && sign in ["", "+", "-"] && NoDigitFirst(rest)
    ensures ReadLong(blanks + (sign + (Digits(n) + rest))) == if sign == "-" then 0 - n else n
  {
    BlanksSkipped(blanks, sign + (Digits(n) + rest));
    ScanDigits(n, rest);
    assert Scan(n, rest) == n;
    hide *;
    assert Digits(n) != "" && (Digits(n) + rest)[0] == Digits(n)[0];
    SignedRead(sign, Digits(n) + rest);
  }

  /** What the program takes for the file name, and the number at its front, as a uint64_t. */
  function IndexIn(path: string): nat {
    ReadLong(if path == "" then "" else path[SlashFrom(path, |path| - 1) + 1..]) % LONG_SPAN
  }

  /** cut_str_to_int, thread_manager.c:34-69. */
  method CutStrToInt(path: string) returns (index: nat)
    ensures index == IndexIn(path)
  {
    var i := |path| - 1;
    while i > 0
      invariant -1 <= i < |path|
      invariant path != "" ==> 0 <= i && SlashFrom(path, |path| - 1) == SlashFrom(path, i)
    {
      if path[i] == '/' {
        break;
      }
      i := i - 1;
    }
    var file: string := [];
    while i + 1 < |path|
      invariant -1 <= i < |path|
      invariant path != "" ==> var k := SlashFrom(path, |path| - 1); k <= i && file == path[k + 1..i + 1]
      invariant path == "" ==> file == ""
    {
      i := i + 1;
      file := file + [path[i]];
    }
    assert file == if path == "" then "" else path[SlashFrom(path, |path| - 1) + 1..];
    index := ReadLong(file) % LONG_SPAN;
  }

  lemma {:induction false} SlashAt(pre: string, base: string, i: nat)
    requires Free(base, '/') && |pre| <= i < |pre| + 1 + |base|
    ensures SlashFrom(pre + "/" + base, i) == |pre|
    decreases i
  {
    var path := pre + "/" + base;
    if i > |pre| {
      assert path[i] == base[i - |pre| - 1];
      SlashAt(pre, base, i - 1);
    }
  }

  lemma NameRead(index: nat, suffix: string)
    ensures ReadLong(Digits(index) + "-" + suffix) == index
  {
    var rest := "-" + suffix;
    var name := Digits(index) + "-" + suffix;
    assert name == Digits(index) + rest;
    ScanDigits(index, rest);
    assert rest[0] == '-' && Scan(index, rest) == index;
    assert '0' <= Digits(index)[0] <= '9' && name[0] == Digits(index)[0];
    hide Digits;
    hide Scan;
    assert ReadLong(name) == Scan(0, name);
  }

  lemma NameFree(index: nat, suffix: string)
    requires Free(suffix, '/')
    ensures Free(Digits(index) + "-" + suffix, '/')
  {
  }

  /** The index cut from mount path and node path is the one that the name was printed with. */
  lemma IndexRoundTrip(mount: string, n: FileNode)
    requires Free(n.suffix, '/')
    ensures IndexIn(mount + "/" + Path(n)) == n.index % LONG_SPAN
  {
    hide Digits;
    hide ReadLong;
    hide Scan;
    hide Free;
    var name := n.FileName();
    NameFree(n.index, n.suffix);
    NameRead(n.index, n.suffix);
    var top := n.parent == null || n.parent.depth >= n.depth;
    var pre := if top then mount else mount + "/" + Path(n.parent);
    var path := pre + "/" + name;
    assert mount + "/" + Path(n) == path by {
      if !top { Slashes(mount, Path(n.parent), name); }
    }
    SlashAt(pre, name, |path| - 1);
    assert path[|pre| + 1..] == name;
  }
}
