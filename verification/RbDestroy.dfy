/** rb_destroy (rb.c:862-887): frees a table without a stack, by rotating every left child up. */
module RbDestroy {
  import opened RbShape
  import opened RbRules
  import opened RbSteps
  import opened RbTable

  /** The first entry is consumed. */
  lemma DropFirst(m: Mem, m': Mem, c: Color, p: RbNode, x: Item, r: Tree)
    requires Zip(m, Top, Node(c, Leaf, p, x, r))
    requires forall n :: n in m && n != p ==> n in m' && m'[n] == m[n]
    ensures Zip(m', Top, r)
  {
    Open(m, false, c, Leaf, p, x, r, -1, KEY_END);
    RepFrame(m, m', r, x.key, KEY_END);
    BstWiden(r, x.key, KEY_END, -1, KEY_END);
  }

  /** A node with a left child, about to be rotated. */
  method RotateRight(ghost live: set<RbNode>, p: RbNode, ghost t: Tree) returns (q: RbNode, ghost t': Tree)
    requires Zip(Snap(live), Top, t) && t.Node? && t.n == p && t.l.Node? && p in live
    modifies live
    ensures t' == Rotated(t) && q == t'.n
    ensures Zip(Snap(live), Top, t') && Flat(t') == Flat(t) && q in live
    ensures Size(t') == Size(t) && Size(t'.l) < Size(t.l)
  {
    ghost var m := Snap(live);
    ghost var l := t.l;
    RotateReads(m, false, t.c, l.c, l.l, l.n, l.x, l.r, p, t.x, t.r, Top);
    q := p.left;
    SetLink(live, p, false, q.right);
    SetLink(live, q, true, p);
    t' := Node(l.c, l.l, q, l.x, Node(t.c, l.r, p, t.x, t.r));
    assert Snap(live) == Relink(m[p := MkCell(false, Ptr(l.r), Ptr(t.r), t.x, t.c)][q := MkCell(false, Ptr(l.l), p, l.x, l.c)], Top, q);
    Rotate(m, Snap(live), false, t.c, l.c, l.l, q, l.x, l.r, p, t.x, t.r, Top);
    RotateFlat(false, t.c, l.c, l.l, q, l.x, l.r, p, t.x, t.r);
  }

  /** The two sequences spell out the entries. */
  predicate Spells(log: seq<Item>, freed: seq<RbNode>, es: seq<Entry>) {
    |log| == |freed| == |es| && forall i :: 0 <= i < |es| ==> es[i] == Entry(freed[i], log[i])
  }

  lemma Reads(live: set<RbNode>, t: Tree)
    requires Zip(Snap(live), Top, t) && t.Node?
    ensures t.n in live && t.n.left == Ptr(t.l) && t.n.right == Ptr(t.r) && t.n.data == t.x
  {
  }

  /** rb.c:873-878: the node is handed over and given back; it is not live any more. */
  method Free(ghost live: set<RbNode>, p: RbNode, ghost t: Tree) returns (q: RbNode?, x: Item)
    requires Zip(Snap(live), Top, t) && t.Node? && t.n == p && t.l.Leaf?
    ensures q == Ptr(t.r) && Zip(Snap(live - {p}), Top, t.r)
    ensures Flat(t) == [Entry(p, x)] + Flat(t.r)
  {
    Reads(live, t);
    q, x := p.right, p.data;
    DropFirst(Snap(live), Snap(live - {p}), t.c, p, t.x, t.r);
  }

  /** What a turn of the loop reads and writes: two nodes rotated, or one handed over and given back. */
  datatype Touch = Turned(p: RbNode, q: RbNode) | Given(n: RbNode)

  /** The tree after the turn at a node with a left child. */
  function Rotated(t: Tree): (t': Tree)
    requires t.Node? && t.l.Node?
    ensures t'.Node? && Size(t') == Size(t) && Size(t'.l) < Size(t.l)
  {
    Node(t.l.c, t.l.l, t.l.n, t.l.x, Node(t.c, t.l.r, t.n, t.x, t.r))
  }

  /** What the loop touches on its way through a tree, turn by turn. */
  function Touched(t: Tree): seq<Touch>
    decreases Size(t), if t.Leaf? then 0 else Size(t.l)
  {
    if t.Leaf? then []
    else if t.l.Leaf? then [Given(t.n)] + Touched(t.r)
    else [Turned(t.n, t.l.n)] + Touched(Rotated(t))
  }

  predicate Touches(t: Touch, n: RbNode) {
    match t
    case Turned(p, q) => n == p || n == q
    case Given(g) => n == g
  }

  /** No node is touched after it has been given back. */
  predicate Safe(trace: seq<Touch>) {
    forall i, j :: 0 <= i < j < |trace| && trace[i].Given? ==> !Touches(trace[j], trace[i].n)
  }

  /** The nodes given back, in order. */
  function GivenBack(trace: seq<Touch>): seq<RbNode> {
    if trace == [] then [] else (if trace[0].Given? then [trace[0].n] else []) + GivenBack(trace[1..])
  }

  /** They are the nodes of the tree, in the order of the entries. */
  lemma {:induction false} GivenInOrder(t: Tree)
    ensures |GivenBack(Touched(t))| == |Flat(t)|
    ensures forall i :: 0 <= i < |Flat(t)| ==> GivenBack(Touched(t))[i] == Flat(t)[i].n
    decreases Size(t), if t.Leaf? then 0 else Size(t.l)
  {
    if t.Leaf? {
    } else if t.l.Leaf? {
      FlatParts(t);
      GivenInOrder(t.r);
      assert Touched(t)[1..] == Touched(t.r);
    } else {
      RotatedFlat(t);
      GivenInOrder(Rotated(t));
      assert Touched(t)[1..] == Touched(Rotated(t));
    }
  }

  predicate NodesApart(es: seq<Entry>) { forall i, j :: 0 <= i < j < |es| ==> es[i].n != es[j].n }

  lemma FlatParts(t: Tree)
    requires t.Node?
    ensures Entry(t.n, t.x) in Flat(t)
    ensures forall e :: e in Flat(t) <==> e in Flat(t.l) || e == Entry(t.n, t.x) || e in Flat(t.r)
    ensures t.l.Leaf? ==> Flat(t) == [Entry(t.n, t.x)] + Flat(t.r)
  {
    var a, b := Flat(t.l), Flat(t.r);
    assert Flat(t) == a + [Entry(t.n, t.x)] + b && (t.l.Leaf? ==> a == []);
    hide Flat;
    Members(a, Entry(t.n, t.x), b);
  }

  lemma Members(a: seq<Entry>, e: Entry, b: seq<Entry>)
    ensures forall f :: f in a + [e] + b <==> f in a || f == e || f in b
    ensures a == [] ==> a + [e] + b == [e] + b
  {
  }

  lemma RotatedFlat(t: Tree)
    requires t.Node? && t.l.Node?
    ensures Flat(Rotated(t)) == Flat(t)
  {
    RotateFlat(false, t.c, t.l.c, t.l.l, t.l.n, t.l.x, t.l.r, t.n, t.x, t.r);
  }

  /** Only nodes of the tree are touched. */
  lemma {:induction false} TouchedInside(t: Tree, i: nat, n: RbNode)
    requires i < |Touched(t)| && Touches(Touched(t)[i], n)
    ensures exists e :: e in Flat(t) && e.n == n
    decreases Size(t), if t.Leaf? then 0 else Size(t.l)
  {
    FlatParts(t);
    if t.l.Leaf? {
      if i == 0 {
        assert Entry(t.n, t.x) in Flat(t);
      } else {
        TouchedInside(t.r, i - 1, n);
      }
    } else {
      RotatedFlat(t);
      if i == 0 {
        FlatParts(t.l);
        assert Entry(t.n, t.x) in Flat(t) && Entry(t.l.n, t.l.x) in Flat(t);
      } else {
        TouchedInside(Rotated(t), i - 1, n);
      }
    }
  }

  /** In a tree of distinct nodes the loop never comes back to a node that it has given back. */
  lemma {:induction false} TouchedSafe(t: Tree)
    requires NodesApart(Flat(t))
    ensures Safe(Touched(t))
    decreases Size(t), if t.Leaf? then 0 else Size(t.l)
  {
    if t.Leaf? {
    } else if t.l.Leaf? {
      FlatParts(t);
      ApartTail(Flat(t), Entry(t.n, t.x), Flat(t.r));
      TouchedSafe(t.r);
      forall j | 0 <= j < |Touched(t.r)| ensures !Touches(Touched(t.r)[j], t.n) {
        if Touches(Touched(t.r)[j], t.n) { TouchedInside(t.r, j, t.n); }
      }
      SafeCons(Given(t.n), Touched(t.r));
    } else {
      RotatedFlat(t);
      TouchedSafe(Rotated(t));
      SafeCons(Turned(t.n, t.l.n), Touched(Rotated(t)));
    }
  }

  lemma SafeCons(first: Touch, rest: seq<Touch>)
    requires Safe(rest) && (first.Given? ==> forall j :: 0 <= j < |rest| ==> !Touches(rest[j], first.n))
    ensures Safe([first] + rest)
  {
  }

  lemma ApartTail(es: seq<Entry>, e: Entry, rest: seq<Entry>)
    requires NodesApart(es) && es == [e] + rest
    ensures NodesApart(rest) && forall f :: f in rest ==> f.n != e.n
  {
    forall i | 0 <= i < |rest| ensures rest[i] == es[i + 1] && rest[i].n != e.n {
      assert es[0] == e;
    }
  }

  /** The loop of rb_destroy.  `log` is the sequence of items handed to the callback, `freed` the
      nodes given back, `trace` what the turns of the loop touch. */
  method Drain(p0: RbNode?, ghost live0: set<RbNode>, ghost t0: Tree)
      returns (log: seq<Item>, freed: seq<RbNode>, ghost trace: seq<Touch>)
    requires Zip(Snap(live0), Top, t0) && p0 == Ptr(t0)
    modifies live0
    ensures Spells(log, freed, Flat(t0))
    ensures trace == Touched(t0) && Safe(trace) && GivenBack(trace) == freed
  {
    var p := p0;
    ghost var live, t, done := live0, t0, [];
    log, freed, trace := [], [], [];
    ZipApart(Snap(live0), t0);
    hide GivenBack;
    hide NodesApart;
    hide Zip;
    hide Safe;
    hide Touched;
    while p != null
      invariant Zip(Snap(live), Top, t) && p == Ptr(t) && live <= live0
      invariant Flat(t0) == done + Flat(t) && Spells(log, freed, done)
      invariant Touched(t0) == trace + Touched(t)
      decreases Size(t), if t.Leaf? then 0 else Size(t.l)
    {
      Reads(live, t);
      TouchedStep(t, trace);
      if p.left == null {
        var q, x := Free(live, p, t);
        SpellMore(log, freed, done, p, x);
        AppendOne(done, Entry(p, x), Flat(t.r));
        log, freed, done := log + [x], freed + [p], done + [Entry(p, x)];
        live, t, trace := live - {p}, t.r, trace + [Given(p)];
        p := q;
      } else {
        var q;
        q, t := RotateRight(live, p, t);
        trace := trace + [Turned(p, q)];
        p := q;
      }
    }
    assert done + [] == done;
    TouchedNone();
    assert trace + [] == trace;
    GivenIsFreed(t0, trace, log, freed);
  }

  lemma GivenIsFreed(t: Tree, trace: seq<Touch>, log: seq<Item>, freed: seq<RbNode>)
    requires trace == Touched(t) && Spells(log, freed, Flat(t)) && NodesApart(Flat(t))
    ensures Safe(trace) && GivenBack(trace) == freed
  {
    GivenInOrder(t);
    TouchedSafe(t);
    SpelledNodes(log, freed, Flat(t), GivenBack(trace));
  }

  lemma SpelledNodes(log: seq<Item>, freed: seq<RbNode>, es: seq<Entry>, given: seq<RbNode>)
    requires Spells(log, freed, es) && |given| == |es| && forall i :: 0 <= i < |es| ==> given[i] == es[i].n
    ensures given == freed
  {
  }

  lemma TouchedStep(t: Tree, trace: seq<Touch>)
    requires t.Node?
    ensures t.l.Leaf? ==> trace + Touched(t) == (trace + [Given(t.n)]) + Touched(t.r)
    ensures t.l.Node? ==> trace + Touched(t) == (trace + [Turned(t.n, t.l.n)]) + Touched(Rotated(t))
  {
  }

  lemma TouchedNone()
    ensures Touched(Leaf) == []
  {
  }

  /** Nodes of a search tree in memory are distinct. */
  lemma ZipApart(m: Mem, t: Tree)
    requires Zip(m, Top, t)
    ensures NodesApart(Flat(t))
  {
    RepEntries(m, t);
    BstSorted(t, -1, KEY_END);
    hide Flat;
    hide Rep;
    hide Bst;
    var es := Flat(t);
    forall i, j | 0 <= i < j < |es| ensures es[i].n != es[j].n {
      assert es[i] in es && es[j] in es;
      assert m[es[i].n].x.key < m[es[j].n].x.key;
    }
  }

  lemma SpellMore(log: seq<Item>, freed: seq<RbNode>, es: seq<Entry>, p: RbNode, x: Item)
    requires Spells(log, freed, es)
    ensures Spells(log + [x], freed + [p], es + [Entry(p, x)])
  {
  }

  lemma AppendOne(a: seq<Entry>, e: Entry, b: seq<Entry>)
    ensures a + ([e] + b) == (a + [e]) + b
  {
  }

  /** The callback sees every item once, in ascending order, and every node is freed once. */
  method Destroy(table: Table) returns (log: seq<Item>, freed: seq<RbNode>, ghost trace: seq<Touch>)
    requires table.Valid()
    modifies Nodes(table.tree)
    ensures Spells(log, freed, old(table.Entries()))
    ensures forall i, j :: 0 <= i < j < |log| ==> log[i].key < log[j].key
    ensures forall i, j :: 0 <= i < j < |freed| ==> freed[i] != freed[j]
    ensures (set n | n in freed) == old(Nodes(table.tree))
    ensures trace == Touched(old(table.tree)) && Safe(trace) && GivenBack(trace) == freed
  {
    ghost var es := table.Entries();
    table.EntriesSorted();
    Freed(es, table);
    hide Flat;
    log, freed, trace := Drain(table.head.left, Nodes(table.tree), table.tree);
    SpelledOut(log, freed, es, Nodes(table.tree));
  }

  lemma Freed(es: seq<Entry>, table: Table)
    requires table.Valid() && es == table.Entries()
    ensures forall i, j :: 0 <= i < j < |es| ==> es[i].n != es[j].n
  {
    table.EntriesSorted();
    forall i, j | 0 <= i < j < |es| ensures es[i].n != es[j].n {
      assert es[i] in es && es[j] in es;
    }
  }

  lemma SpelledOut(log: seq<Item>, freed: seq<RbNode>, es: seq<Entry>, nodes: set<RbNode>)
    requires Spells(log, freed, es) && Sorted(es, -1, KEY_END)
    requires forall i, j :: 0 <= i < j < |es| ==> es[i].n != es[j].n
    requires nodes == set e | e in es :: e.n
    ensures forall i, j :: 0 <= i < j < |log| ==> log[i].key < log[j].key
    ensures forall i, j :: 0 <= i < j < |freed| ==> freed[i] != freed[j]
    ensures (set n | n in freed) == nodes
  {
    forall n | n in nodes ensures n in freed {
      var e :| e in es && e.n == n;
      var i :| 0 <= i < |es| && es[i] == e;
      assert freed[i] == n;
    }
    forall n | n in freed ensures n in nodes {
      var i :| 0 <= i < |freed| && freed[i] == n;
      assert es[i] in es;
    }
  }
}
