/** Whole histories of a table: what rb_find answers, and what a cursor sees, after any run of
    insertions and deletions. */
module RbHistory {
  import opened RbShape
  import opened RbHeight
  import opened RbSteps
  import opened RbContents
  import opened RbTable
  import opened RbTraverser
  import opened Wrappers

  datatype Op = Put(item: Item, oom: bool) | Remove(item: Item)

  /** The finite map a run of operations amounts to. */
  ghost function Apply(op: Op, m: map<int, Item>): map<int, Item> {
    match op
    case Put(x, oom) => if x.key in m || oom then m else m[x.key := x]
    case Remove(x) => m - {x.key}
  }

  ghost function Replay(ops: seq<Op>, m: map<int, Item>): map<int, Item> {
    if ops == [] then m else Replay(ops[1..], Apply(ops[0], m))
  }

  /** No operation of the run deletes this key. */
  predicate Spares(ops: seq<Op>, key: int) {
    forall i :: 0 <= i < |ops| ==> ops[i].Remove? ==> ops[i].item.key != key
  }

  lemma KeptByInsert(es: seq<Entry>, i: nat, e: Entry, f: Entry)
    requires i <= |es| && f in es
    ensures f in es[..i] + [e] + es[i..]
  {
    assert es == es[..i] + es[i..];
  }

  lemma KeptByRemove(es: seq<Entry>, i: nat, f: Entry)
    requires i < |es| && f in es && f != es[i]
    ensures f in es[..i] + es[i + 1..]
  {
    assert es == es[..i] + [es[i]] + es[i + 1..];
  }

  /** The table still holds node `n` with item `x`. */
  ghost predicate Holds(table: Table, n: RbNode, x: Item)
    reads table, table.head, Nodes(table.tree)
  {
    table.Valid() && n in Nodes(table.tree) && n.data == x
  }

  lemma HoldsEntry(table: Table, n: RbNode, x: Item)
    requires table.Valid()
    ensures Holds(table, n, x) <==> Entry(n, x) in table.Entries()
  {
    table.EntriesSorted();
  }

  /** An insertion leaves every node of the table where its users hold it. */
  method Put1(table: Table, x: Item, oom: bool, ghost n: RbNode?)
    requires table.Valid() && table.count < MAX_COUNT
    requires n != null ==> n in Nodes(table.tree)
    modifies table, table.head, Nodes(table.tree)
    ensures table.Valid() && table.Contents() == Apply(Put(x, oom), old(table.Contents()))
    ensures table.count <= old(table.count) + 1 && old(table.stamp) <= table.stamp <= old(table.stamp) + 1
    ensures table.stamp == old(table.stamp) ==> table.tree == old(table.tree)
    ensures n != null ==> Holds(table, n, old(n.data))
    ensures fresh(Nodes(table.tree) - old(Nodes(table.tree)))
  {
    ghost var es := table.Entries();
    if n != null { HoldsEntry(table, n, n.data); }
    ghost var f := if n != null then Entry(n, n.data) else Entry(table.head, x);
    var r;
    ghost var i;
    r, i := table.Probe(x, oom);
    if n != null {
      if table.stamp != old(table.stamp) {
        KeptByInsert(es, i, Entry(r, x), f);
      }
      HoldsEntry(table, n, f.x);
    }
  }

  /** A deletion leaves every other node of the table where its users hold it. */
  method Remove1(table: Table, x: Item, ghost n: RbNode?)
    requires table.Valid()
    requires n != null ==> n in Nodes(table.tree) && n.data.key != x.key
    modifies table, table.head, Nodes(table.tree)
    ensures table.Valid() && table.Contents() == Apply(Remove(x), old(table.Contents()))
    ensures table.count <= old(table.count) && old(table.stamp) <= table.stamp <= old(table.stamp) + 1
    ensures table.stamp == old(table.stamp) ==> table.tree == old(table.tree)
    ensures n != null ==> Holds(table, n, old(n.data))
    ensures fresh(Nodes(table.tree) - old(Nodes(table.tree)))
  {
    ghost var es := table.Entries();
    if n != null { HoldsEntry(table, n, n.data); }
    ghost var f := if n != null then Entry(n, n.data) else Entry(table.head, x);
    var r;
    ghost var i;
    r, i := table.Delete(x);
    if n != null {
      if r.Some? {
        KeptByRemove(es, i, f);
      }
      HoldsEntry(table, n, f.x);
    }
  }

  /** The part of a cursor position that does not look at the heap. */
  ghost predicate Path(trav: Traverser, tree: Tree)
    reads trav
  {
    && trav.sub.Node? && trav.sub.n == trav.node && Plug(trav.ctx, trav.sub) == tree
    && |trav.stack| == RB_MAX_HEIGHT && Ancestors(trav.ctx, trav.stack, trav.height) && Height(tree) <= 126
  }

  lemma PathOf(trav: Traverser)
    requires trav.Valid() && trav.node != null && trav.stamp == trav.table.stamp
    ensures Path(trav, trav.table.tree)
  {
  }

  /** A cursor is valid again as soon as its table is. */
  lemma Revalid(trav: Traverser)
    requires trav.table.Valid() && |trav.stack| == RB_MAX_HEIGHT
    requires trav.generation == trav.stamp % KEY_END && trav.stamp <= trav.table.stamp < trav.stamp + KEY_END
    requires trav.node != null ==> trav.node in Nodes(trav.table.tree)
    requires trav.node != null && trav.stamp == trav.table.stamp ==> Path(trav, trav.table.tree)
    ensures trav.Valid()
  {
    if trav.node != null && trav.stamp == trav.table.stamp {
      Within(trav.table.head, Nodes(trav.table.tree), trav.ctx, trav.sub);
    }
  }

  /** One operation, with a cursor standing by on a node that is not deleted. */
  method Run1(trav: Traverser, op: Op)
    requires trav.Valid() && trav.table.count < MAX_COUNT && trav.table.stamp + 1 < trav.stamp + KEY_END
    requires trav.node != null && op.Remove? ==> op.item.key != trav.node.data.key
    modifies trav.table, trav.table.head, Nodes(trav.table.tree)
    ensures trav.Valid() && trav.table.Contents() == Apply(op, old(trav.table.Contents()))
    ensures trav.table.count <= old(trav.table.count) + 1 && trav.table.stamp <= old(trav.table.stamp) + 1
    ensures trav.node != null ==> trav.node.data == old(trav.node.data)
    ensures fresh(Nodes(trav.table.tree) - old(Nodes(trav.table.tree)))
  {
    var table := trav.table;
    if trav.node != null && trav.stamp == table.stamp { PathOf(trav); }
    hide At;
    hide Heap;
    hide Nodes;
    hide Path;
    hide MapOf;
    hide Balanced;
    match op
    case Put(x, oom) =>
      Put1(table, x, oom, trav.node);
      Revalid(trav);
    case Remove(x) =>
      Remove1(table, x, trav.node);
      Revalid(trav);
  }

  /** Any run of operations that spares the cursor's item; fewer than 2^64 changes, so that the
      wrapped generation number tells old from new. */
  method Run(trav: Traverser, ops: seq<Op>)
    requires trav.Valid() && trav.table.count + |ops| <= MAX_COUNT && trav.table.stamp + |ops| < trav.stamp + KEY_END
    requires trav.node != null ==> Spares(ops, trav.node.data.key)
    modifies trav.table, trav.table.head, Nodes(trav.table.tree)
    ensures trav.Valid() && trav.table.Contents() == Replay(ops, old(trav.table.Contents()))
    ensures trav.node != null ==> trav.node.data == old(trav.node.data)
    decreases |ops|
  {
    if ops != [] {
      Run1(trav, ops[0]);
      assert trav.node != null ==> Spares(ops[1..], trav.node.data.key);
      Run(trav, ops[1..]);
    }
  }

  /** rb_find after any history answers as the finite map does. */
  method FindAfterRun(table: Table, ops: seq<Op>, item: Item) returns (r: Option<Item>)
    requires table.Valid() && table.count + |ops| <= MAX_COUNT && |ops| < KEY_END
    modifies table, table.head, Nodes(table.tree)
    ensures r == Lookup(Replay(ops, old(table.Contents())), item.key)
  {
    var trav := new Traverser(table);
    Run(trav, ops);
    r := table.Find(item);
  }

  /** `r` is the item next to `key` on side `d` among the map's items. */
  ghost predicate Neighbour(m: map<int, Item>, key: int, d: bool, r: Option<Item>) {
    match r
    case Some(x) =>
      && x.key in m && m[x.key] == x && (if d then key < x.key else x.key < key)
      && forall k :: k in m && (if d then key < k else k < key) ==> if d then x.key <= k else k <= x.key
    case None => forall k :: k in m ==> if d then k <= key else key <= k
  }

  lemma PositionOf(s: seq<Entry>, k: int) returns (h: int)
    requires DistinctKeys(s) && k in MapOf(s)
    ensures 0 <= h < |s| && s[h].x.key == k
  {
    MapOfHas(s);
    h :| 0 <= h < |s| && s[h].x.key == k;
  }

  /** In a sorted list the neighbours are the list's neighbours. */
  lemma NextIsNeighbour(s: seq<Entry>, i: int, d: bool)
    requires Sorted(s, -1, KEY_END) && 0 <= i < |s|
    ensures var j := if d then i + 1 else i - 1;
            Neighbour(MapOf(s), s[i].x.key, d, if 0 <= j < |s| then Some(s[j].x) else None)
  {
    SortedDistinct(s, -1, KEY_END);
    MapOfHas(s);
    SortedKeys(s, i);
    var j, m := if d then i + 1 else i - 1, MapOf(s);
    hide MapOf;
    hide Sorted;
    forall k | k in m ensures d ==> k <= s[i].x.key || (j < |s| && s[j].x.key <= k)
                      ensures !d ==> s[i].x.key <= k || (0 <= j && k <= s[j].x.key) {
      var h := PositionOf(s, k);
      hide DistinctKeys;
    }
  }

  lemma SortedKeys(s: seq<Entry>, i: int)
    requires Sorted(s, -1, KEY_END) && 0 <= i < |s|
    ensures forall h :: 0 <= h < i ==> s[h].x.key < s[i].x.key && s[h].x.key <= s[i - 1].x.key
    ensures forall h :: i < h < |s| ==> s[i].x.key < s[h].x.key && s[i + 1].x.key <= s[h].x.key
  {
  }

  /** A node stands at one place only. */
  lemma OnePlace(table: Table, i: int, j: int)
    requires table.Valid() && 0 <= i < |table.Entries()| && 0 <= j < |table.Entries()|
    requires table.Entries()[i].n == table.Entries()[j].n
    ensures i == j
  {
    table.EntriesSorted();
  }

  /** rb_t_next and rb_t_prev after any run that spares the current item: the least greater, or the
      greatest smaller, item of the table as it now is. */
  method StepAfterRun(trav: Traverser, ops: seq<Op>, d: bool) returns (r: Option<Item>)
    requires trav.Valid() && trav.table.count + |ops| <= MAX_COUNT && trav.table.stamp + |ops| < trav.stamp + KEY_END
    requires trav.node != null && Spares(ops, trav.node.data.key)
    modifies trav, trav.table, trav.table.head, Nodes(trav.table.tree)
    ensures trav.Valid()
    ensures Neighbour(Replay(ops, old(trav.table.Contents())), old(trav.node.data.key), d, r)
  {
    Run(trav, ops);
    trav.table.EntriesSorted();
    ghost var i;
    r, i := trav.Step(d);
    NextIsNeighbour(trav.table.Entries(), i, d);
  }

  /** Stepping there and back again, away from the ends: the first step gives the neighbour, the second
      one the item of before. */
  method ThereAndBack(trav: Traverser, d: bool) returns (out: Option<Item>, back: Option<Item>)
    requires trav.Valid() && trav.node != null
    requires Entry(trav.node, trav.node.data) != if d then trav.table.Entries()[|trav.table.Entries()| - 1] else trav.table.Entries()[0]
    modifies trav
    ensures out.Some? && Neighbour(trav.table.Contents(), old(trav.node.data.key), d, out)
    ensures back == Some(old(trav.node.data)) && trav.node == old(trav.node)
    ensures trav.Valid() && trav.table == old(trav.table)
  {
    hide At;
    hide Heap;
    hide Nodes;
    hide Flat;
    hide Balanced;
    hide Size;
    trav.table.EntriesSorted();
    hide Sorted;
    hide MapOf;
    hide Neighbour;
    ghost var i, j;
    out, i := trav.Step(d);
    NextIsNeighbour(trav.table.Entries(), i, d);
    ghost var at := if d then i + 1 else i - 1;
    back, j := trav.Step(!d);
    OnePlace(trav.table, j, at);
  }

  /** First-then-next lists the table's items in order, each exactly once. */
  method ListAll(table: Table) returns (items: seq<Item>)
    requires table.Valid()
    ensures |items| == |table.Entries()| && forall i :: 0 <= i < |items| ==> items[i] == table.Entries()[i].x
  {
    hide At;
    hide Heap;
    hide Nodes;
    hide Flat;
    hide Balanced;
    hide Size;
    items := [];
    var trav := new Traverser(table);
    ghost var es, i := table.Entries(), -1;
    var r := trav.Extreme(table, false);
    while r.Some?
      invariant trav.Valid() && trav.table == table && table.Entries() == es
      invariant |items| <= |es| && forall i :: 0 <= i < |items| ==> items[i] == es[i].x
      invariant if |items| < |es| then trav.node == es[|items|].n && r == Some(es[|items|].x) else r == None
      decreases |es| - |items|
    {
      var x := r.value;
      r, i := trav.Step(true);
      OnePlace(table, i, |items|);
      items := items + [x];
    }
  }
}
