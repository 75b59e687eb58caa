/** The weighted random tables of debug-tools/shark/shark_ops.c:134-573, over exact ratios. */
module Layouts {
  import JournalDeclared
  import JournalOps

  /** A key and the share of the draws it is to get. */
  datatype Share = Share(key: int, ratio: real)

  datatype Layout = Layout(start: int, end: int, key: int)

  /** layout_type_t, shark_ops.h. */
  datatype LayoutType =
    | OpsFileType | NewDir | OpenDir | OpenDirOps | NoOpenDirOps
    | NewFile | OpenFile | OpenFileOps | NoOpenFileOps | SymlinkOps

  /** The keys in the order in which create_layout_table makes their layouts: numbers from 1, except for
      the two-way choices. */
  function KeysOf(t: LayoutType): seq<int> {
    match t
    case OpsFileType => Counted(3)
    case NewDir => [1, 0]
    case OpenDir => [0, 1]
    case OpenDirOps => Counted(9)
    case NoOpenDirOps => Counted(12)
    case NewFile => [1, 0]
    case OpenFile => [2, 3]
    case OpenFileOps => Counted(13)
    case NoOpenFileOps => Counted(14)
    case SymlinkOps => Counted(2)
  }

  function Counted(n: nat): seq<int> { seq(n, i => i + 1) }

  /** Shares of a table: the keys of the type, each with a ratio in [0, 1], at most 1 together. */
  predicate Fair(t: LayoutType, shares: seq<Share>) {
    && |shares| == |KeysOf(t)|
    && (forall i :: 0 <= i < |shares| ==> shares[i].key == KeysOf(t)[i] && 0.0 <= shares[i].ratio <= 1.0)
    && Total(shares, |shares|) <= 1.0
  }

  function Total(shares: seq<Share>, n: nat): real
    requires n <= |shares|
  {
    if n == 0 then 0.0 else Total(shares, n - 1) + shares[n - 1].ratio
  }

  /** How many draws a share gets: the product cut to a whole number. */
  function Part(accuracy: nat, s: Share): int { (accuracy as real * s.ratio).Floor }

  /** The assignment to hb->end: a sum of a whole number and a product, cut. */
  function EndOf(lastEnd: int, accuracy: nat, s: Share): int { (lastEnd as real + accuracy as real * s.ratio).Floor }

  lemma EndIs(lastEnd: int, accuracy: nat, s: Share)
    ensures EndOf(lastEnd, accuracy, s) == lastEnd + Part(accuracy, s)
  {
    FloorSum(lastEnd, accuracy as real * s.ratio);
  }

  lemma FloorSum(n: int, x: real)
    ensures (n as real + x).Floor == n + x.Floor
  {
  }

  /** Where layout `n` starts. */
  function Start(accuracy: nat, shares: seq<Share>, n: nat): int
    requires n <= |shares|
  {
    if n == 0 then 0 else Start(accuracy, shares, n - 1) + Part(accuracy, shares[n - 1])
  }

  /** The table that belongs to the shares: list_add puts each layout in front, so that they stand in
      reverse order. */
  function Table(accuracy: nat, shares: seq<Share>): (ls: seq<Layout>)
    ensures |ls| == |shares|
  {
    seq(|shares|, i requires 0 <= i < |shares| =>
      var x := |shares| - 1 - i;
      Layout(Start(accuracy, shares, x), Start(accuracy, shares, x + 1), shares[x].key))
  }

  /** create_layout_table, shark_ops.c:134-521. */
  method CreateLayoutTable(t: LayoutType, accuracy: nat, shares: seq<Share>) returns (layouts: seq<Layout>)
    requires Fair(t, shares)
    ensures layouts == Table(accuracy, shares)
  {
    var lastEnd := 0;
    layouts := [];
    var i := 0;
    hide EndOf;
    hide Part;
    hide Fair;
    while i < |shares|
      invariant 0 <= i <= |shares| && |layouts| == i && lastEnd == Start(accuracy, shares, i)
      invariant layouts == Made(accuracy, shares, i)
    {
      var start := lastEnd;
      var end := EndOf(lastEnd, accuracy, shares[i]);
      EndIs(lastEnd, accuracy, shares[i]);
      lastEnd := end;
      layouts := [Layout(start, end, shares[i].key)] + layouts;
      i := i + 1;
    }
    MadeIsTable(accuracy, shares, i);
    assert Table(accuracy, shares)[0..] == Table(accuracy, shares);
  }

  /** The first `n` layouts, the newest in front. */
  function Made(accuracy: nat, shares: seq<Share>, n: nat): seq<Layout>
    requires n <= |shares|
  {
    if n == 0 then []
    else [Layout(Start(accuracy, shares, n - 1), Start(accuracy, shares, n), shares[n - 1].key)] + Made(accuracy, shares, n - 1)
  }

  lemma {:induction false} MadeIsTable(accuracy: nat, shares: seq<Share>, n: nat)
    requires n <= |shares|
    ensures Made(accuracy, shares, n) == Table(accuracy, shares)[|shares| - n..]
  {
    hide Start;
    if n > 0 {
      MadeIsTable(accuracy, shares, n - 1);
      var ls := Table(accuracy, shares);
      assert ls[|shares| - n..] == [ls[|shares| - n]] + ls[|shares| - (n - 1)..];
    }
  }

  /** The first layout of the list that holds the draw gives its key. */
  function Drawn(layouts: seq<Layout>, draw: int): int {
    if layouts == [] then -1
    else if layouts[0].start <= draw < layouts[0].end then layouts[0].key
    else Drawn(layouts[1..], draw)
  }

  /** random_handler, shark_ops.c:543-573, with `random` the number drawn. */
  method RandomHandler(layouts: seq<Layout>, accuracy: nat, random: nat) returns (ret: int)
    ensures ret == if accuracy == 0 then -1 else Drawn(layouts, random % accuracy)
  {
    ret := -1;
    if accuracy == 0 {
      return;
    }
    var hashVal := random % accuracy;
    var i := 0;
    assert layouts[0..] == layouts;
    while i < |layouts|
      invariant 0 <= i <= |layouts| && ret == -1 && Drawn(layouts, hashVal) == Drawn(layouts[i..], hashVal)
    {
      assert layouts[i..][1..] == layouts[i + 1..];
      if layouts[i].start <= hashVal < layouts[i].end {
        ret := layouts[i].key;
        break;
      }
      i := i + 1;
    }
  }

  lemma KeysDistinct(t: LayoutType)
    ensures forall i, j :: 0 <= i < j < |KeysOf(t)| ==> KeysOf(t)[i] != KeysOf(t)[j]
    ensures forall i :: 0 <= i < |KeysOf(t)| ==> KeysOf(t)[i] >= 0
  {
  }

  /** The intervals follow each other from 0, inside the range of the draws. */
  lemma {:induction false} StartGrows(accuracy: nat, shares: seq<Share>, n: nat)
    requires n <= |shares| && forall i :: 0 <= i < |shares| ==> shares[i].ratio >= 0.0
    ensures 0 <= Start(accuracy, shares, n)
    ensures n > 0 ==> Start(accuracy, shares, n - 1) <= Start(accuracy, shares, n)
    ensures Start(accuracy, shares, n) as real <= accuracy as real * Total(shares, n)
  {
    if n > 0 {
      StartGrows(accuracy, shares, n - 1);
      Cut(accuracy as real, shares[n - 1].ratio, Total(shares, n - 1));
    }
  }

  lemma Cut(a: real, r: real, total: real)
    requires a >= 0.0 && r >= 0.0
    ensures 0 <= (a * r).Floor && (a * r).Floor as real <= a * r && a * total + a * r == a * (total + r)
  {
    Distribute(a, total, r);
    assert a * r >= 0.0;
  }

  lemma {:induction false} StartMonotone(accuracy: nat, shares: seq<Share>, m: nat, n: nat)
    requires m <= n <= |shares| && forall i :: 0 <= i < |shares| ==> shares[i].ratio >= 0.0
    ensures Start(accuracy, shares, m) <= Start(accuracy, shares, n)
  {
    if m < n {
      StartMonotone(accuracy, shares, m, n - 1);
      StartGrows(accuracy, shares, n);
    }
  }

  lemma InRange(accuracy: nat, t: LayoutType, shares: seq<Share>)
    requires Fair(t, shares)
    ensures Start(accuracy, shares, |shares|) <= accuracy
  {
    StartGrows(accuracy, shares, |shares|);
    Scale(accuracy as real, Total(shares, |shares|));
  }

  lemma Scale(a: real, x: real)
    requires a >= 0.0 && x <= 1.0
    ensures a * x <= a
  {
  }

  /** The share whose interval holds the draw. */
  function Holder(accuracy: nat, shares: seq<Share>, n: nat, draw: int): int
    requires n <= |shares|
  {
    if n == 0 then -1
    else if Start(accuracy, shares, n - 1) <= draw < Start(accuracy, shares, n) then n - 1
    else Holder(accuracy, shares, n - 1, draw)
  }

  /** Scanning the table finds it. */
  lemma {:induction false} DrawnHolder(accuracy: nat, shares: seq<Share>, n: nat, draw: int)
    requires n <= |shares|
    ensures -1 <= Holder(accuracy, shares, n, draw) < n
    ensures var x := Holder(accuracy, shares, n, draw);
            Drawn(Table(accuracy, shares)[|shares| - n..], draw) == if x == -1 then -1 else shares[x].key
  {
    var ls := Table(accuracy, shares)[|shares| - n..];
    if n > 0 {
      assert ls[1..] == Table(accuracy, shares)[|shares| - (n - 1)..];
      DrawnHolder(accuracy, shares, n - 1, draw);
    }
  }

  /** One interval holds the draw, and only one; none holds it from the last end on. */
  lemma {:induction false} HolderIs(accuracy: nat, shares: seq<Share>, n: nat, x: nat, draw: nat)
    requires x < n <= |shares| && forall i :: 0 <= i < |shares| ==> shares[i].ratio >= 0.0
    ensures Holder(accuracy, shares, n, draw) == x <==> Start(accuracy, shares, x) <= draw < Start(accuracy, shares, x + 1)
  {
    if x < n - 1 {
      HolderIs(accuracy, shares, n - 1, x, draw);
      StartMonotone(accuracy, shares, x + 1, n - 1);
    } else {
      DrawnHolder(accuracy, shares, n - 1, draw);
    }
  }

  lemma {:induction false} HolderNone(accuracy: nat, shares: seq<Share>, n: nat, draw: nat)
    requires n <= |shares| && forall i :: 0 <= i < |shares| ==> shares[i].ratio >= 0.0
    ensures Holder(accuracy, shares, n, draw) == -1 <==> draw >= Start(accuracy, shares, n)
  {
    if n > 0 {
      HolderNone(accuracy, shares, n - 1, draw);
      StartGrows(accuracy, shares, n);
    }
  }

  /** How many of the draws below `n` give the key. */
  function Hits(layouts: seq<Layout>, key: int, n: nat): nat {
    if n == 0 then 0 else Hits(layouts, key, n - 1) + if Drawn(layouts, n - 1) == key then 1 else 0
  }

  lemma DrawnKey(t: LayoutType, accuracy: nat, shares: seq<Share>, x: nat, draw: nat)
    requires Fair(t, shares) && x < |shares|
    ensures Drawn(Table(accuracy, shares), draw) == shares[x].key
            <==> Start(accuracy, shares, x) <= draw < Start(accuracy, shares, x + 1)
    ensures Drawn(Table(accuracy, shares), draw) == -1 <==> draw >= Start(accuracy, shares, |shares|)
  {
    KeysDistinct(t);
    assert Table(accuracy, shares)[0..] == Table(accuracy, shares);
    DrawnHolder(accuracy, shares, |shares|, draw);
    HolderIs(accuracy, shares, |shares|, x, draw);
    HolderNone(accuracy, shares, |shares|, draw);
    var h := Holder(accuracy, shares, |shares|, draw);
    assert h != -1 && h != x ==> shares[h].key != shares[x].key;
  }

  lemma {:induction false} HitsBelow(t: LayoutType, accuracy: nat, shares: seq<Share>, x: nat, n: nat)
    requires Fair(t, shares) && x < |shares|
    ensures var a, b := Start(accuracy, shares, x), Start(accuracy, shares, x + 1);
            a <= b && Hits(Table(accuracy, shares), shares[x].key, n) == if n <= a then 0 else if n <= b then n - a else b - a
  {
    StartGrows(accuracy, shares, x + 1);
    if n > 0 {
      HitsBelow(t, accuracy, shares, x, n - 1);
      DrawnKey(t, accuracy, shares, x, n - 1);
    } else {
      StartGrows(accuracy, shares, x);
    }
  }

  lemma HitsPart(t: LayoutType, accuracy: nat, shares: seq<Share>, x: nat)
    requires Fair(t, shares) && x < |shares|
    ensures Hits(Table(accuracy, shares), shares[x].key, accuracy) == Part(accuracy, shares[x])
  {
    HitsBelow(t, accuracy, shares, x, accuracy);
    StartGrows(accuracy, shares, x);
    StartMonotone(accuracy, shares, x + 1, |shares|);
    InRange(accuracy, t, shares);
    assert Start(accuracy, shares, x + 1) == Start(accuracy, shares, x) + Part(accuracy, shares[x]);
  }

  /** Over all draws each key comes exactly as often as its ratio, cut to whole draws, says. */
  lemma KeyFrequency(t: LayoutType, accuracy: nat, shares: seq<Share>, x: nat)
    requires Fair(t, shares) && x < |shares|
    ensures var h := Hits(Table(accuracy, shares), shares[x].key, accuracy) as real;
            h <= accuracy as real * shares[x].ratio < h + 1.0
  {
    hide *;
    HitsPart(t, accuracy, shares, x);
    PartIs(accuracy, shares[x]);
  }

  lemma PartIs(accuracy: nat, s: Share)
    ensures Part(accuracy, s) as real <= accuracy as real * s.ratio < Part(accuracy, s) as real + 1.0
  {
  }

  /** The tables of operations hand out exactly the numbers of the declared operations of their class, and the
      others the file types, the two classes of directories or files, and yes or no. */
  lemma KeysDeclared(k: int)
    ensures k in KeysOf(OpsFileType) <==> 1 <= k <= 3
    ensures k in KeysOf(OpenDir) <==> k == JournalOps.OPENED_DIR_OP || k == JournalOps.NO_OPEN_DIR_OP
    ensures k in KeysOf(OpenFile) <==> k == JournalOps.OPENED_FILE_OP || k == JournalOps.NO_OPEN_FILE_OP
    ensures (k in KeysOf(NewDir) <==> 0 <= k <= 1) && (k in KeysOf(NewFile) <==> 0 <= k <= 1)
    ensures k in KeysOf(OpenDirOps) <==> JournalDeclared.Known(JournalOps.OPENED_DIR_OP, k)
    ensures k in KeysOf(NoOpenDirOps) <==> JournalDeclared.Known(JournalOps.NO_OPEN_DIR_OP, k)
    ensures k in KeysOf(OpenFileOps) <==> JournalDeclared.Known(JournalOps.OPENED_FILE_OP, k)
    ensures k in KeysOf(NoOpenFileOps) <==> JournalDeclared.Known(JournalOps.NO_OPEN_FILE_OP, k)
    ensures k in KeysOf(SymlinkOps) <==> JournalDeclared.Known(JournalOps.SYMLINK_OP, k)
  {
    JournalDeclared.HowMany();
    CountedHas(9, k);
    CountedHas(12, k);
    CountedHas(13, k);
    CountedHas(14, k);
    CountedHas(2, k);
    CountedHas(3, k);
    hide Counted;
    hide JournalDeclared.Declared;
  }

  lemma CountedHas(n: nat, k: int)
    ensures k in Counted(n) <==> 1 <= k <= n
  {
    if 1 <= k <= n { assert Counted(n)[k - 1] == k; }
  }

  /** No draw misses all layouts just if the parts add up to the accuracy. */
  lemma NoMiss(t: LayoutType, accuracy: nat, shares: seq<Share>)
    requires Fair(t, shares)
    ensures (forall draw :: 0 <= draw < accuracy ==> Drawn(Table(accuracy, shares), draw) != -1)
            <==> Start(accuracy, shares, |shares|) == accuracy
  {
    var end := Start(accuracy, shares, |shares|);
    InRange(accuracy, t, shares);
    StartGrows(accuracy, shares, |shares|);
    if end < accuracy {
      Misses(t, accuracy, shares, end);
    } else {
      forall draw: nat | draw < accuracy ensures Drawn(Table(accuracy, shares), draw) != -1 {
        Misses(t, accuracy, shares, draw);
      }
    }
  }

  /** A draw misses just if it lies behind all intervals. */
  lemma Misses(t: LayoutType, accuracy: nat, shares: seq<Share>, draw: nat)
    requires Fair(t, shares)
    ensures Drawn(Table(accuracy, shares), draw) == -1 <==> draw >= Start(accuracy, shares, |shares|)
  {
    KeysDistinct(t);
    DrawnKey(t, accuracy, shares, 0, draw);
  }

  lemma Distribute(a: real, t: real, r: real)
    ensures a * t + a * r == a * (t + r)
  {
  }

  /** Whole products are not cut. */
  lemma {:induction false} WholeParts(accuracy: nat, shares: seq<Share>, n: nat)
    requires n <= |shares|
    requires forall i :: 0 <= i < |shares| ==> accuracy as real * shares[i].ratio == Part(accuracy, shares[i]) as real
    ensures Start(accuracy, shares, n) as real == accuracy as real * Total(shares, n)
  {
    if n > 0 {
      WholeParts(accuracy, shares, n - 1);
      Distribute(accuracy as real, Total(shares, n - 1), shares[n - 1].ratio);
    }
  }

  /** With whole products, and ratios that add up to 1, every draw gives a key. */
  lemma WholePartsNoMiss(t: LayoutType, accuracy: nat, shares: seq<Share>)
    requires Fair(t, shares) && Total(shares, |shares|) == 1.0
    requires forall i :: 0 <= i < |shares| ==> accuracy as real * shares[i].ratio == Part(accuracy, shares[i]) as real
    ensures forall draw :: 0 <= draw < accuracy ==> Drawn(Table(accuracy, shares), draw) != -1
  {
    hide Drawn;
    hide Table;
    hide Part;
    hide Start;
    hide Fair;
    WholeParts(accuracy, shares, |shares|);
    assert accuracy as real * 1.0 == accuracy as real;
    NoMiss(t, accuracy, shares);
  }
}
