/** struct rb_traverser (rb.c:434-744): a cursor that survives changes to its table. */
module RbTraverser {
  import opened RbShape
  import opened RbSteps
  import opened RbHeight
  import opened RbInsert
  import opened RbContents
  import opened RbTable
  import opened Wrappers

  /** `stack[..height]` lists the ancestors along `ctx`, the root first. */
  predicate Ancestors(ctx: Ctx, stack: seq<RbNode>, height: int) {
    && 0 <= height <= |stack|
    && (if ctx.Top? then height == 0
        else height > 0 && stack[height - 1] == ctx.n && Ancestors(ctx.up, stack, height - 1))
  }

  lemma {:induction false} AncestorsPrefix(ctx: Ctx, stack: seq<RbNode>, stack': seq<RbNode>, height: int)
    requires Ancestors(ctx, stack, height) && height <= |stack'| && stack'[..height] == stack[..height]
    ensures Ancestors(ctx, stack', height)
  {
    if ctx.Fr? {
      assert stack'[height - 1] == stack'[..height][height - 1];
      assert stack'[..height - 1] == stack'[..height][..height - 1];
      assert stack[..height - 1] == stack[..height][..height - 1];
      AncestorsPrefix(ctx.up, stack, stack', height - 1);
    }
  }

  lemma {:induction false} AncestorsDepth(ctx: Ctx, stack: seq<RbNode>, height: int)
    requires Ancestors(ctx, stack, height)
    ensures height == Depth(ctx)
  {
    if ctx.Fr? { AncestorsDepth(ctx.up, stack, height - 1); }
  }

  /** The place, among all entries, of the root of the tree below a context. */
  ghost function Place(ctx: Ctx, t: Tree): nat
    requires t.Node?
  {
    |Before(ctx)| + |Flat(t.l)|
  }

  lemma PlaceEntry(ctx: Ctx, t: Tree)
    requires t.Node?
    ensures Place(ctx, t) < |Flat(Plug(ctx, t))| && Flat(Plug(ctx, t))[Place(ctx, t)] == Entry(t.n, t.x)
    ensures |Flat(Plug(ctx, t))| == Place(ctx, t) + 1 + |Flat(t.r)| + |After(ctx)|
  {
    PlugFlat(ctx, t);
    assert Flat(t) == Flat(t.l) + [Entry(t.n, t.x)] + Flat(t.r);
  }

  /** The two children of a node are never the same node. */
  lemma NotShared(head: RbNode, s: set<RbNode>, ctx: Ctx, t: Tree)
    requires Heap(head, s, ctx, t) && ctx.Fr? && t.Node?
    ensures Ptr(ctx.sib) != t.n
  {
    var m := Snap(s);
    assert Rep(m, ctx.sib) && Rep(m, t);
    BstSorted(t, Lo(ctx, -1), Hi(ctx, KEY_END));
    if ctx.sib.Node? {
      assert m[t.n].x == t.x && m[ctx.sib.n].x == ctx.sib.x;
      RootInside(t, Lo(ctx, -1), Hi(ctx, KEY_END));
      RootInside(ctx.sib, if ctx.d then Lo(ctx.up, -1) else ctx.x.key, if ctx.d then ctx.x.key else Hi(ctx.up, KEY_END));
    }
  }

  lemma RootInside(t: Tree, lo: int, hi: int)
    requires Bst(t, lo, hi) && t.Node?
    ensures lo < t.x.key < hi
  {
    BstBounds(t.l, lo, t.x.key);
    BstBounds(t.r, t.x.key, hi);
  }

  /** A cursor position in a tree: the path, the node there, and the stack that records the path. */
  ghost predicate At(head: RbNode, s: set<RbNode>, tree: Tree, ctx: Ctx, t: Tree, stack: seq<RbNode>, height: int)
    reads head, s
  {
    && Heap(head, s, ctx, t) && t.Node? && Plug(ctx, t) == tree
    && |stack| == RB_MAX_HEIGHT && Ancestors(ctx, stack, height) && Height(tree) <= 126
  }

  /** Push the current node and go to its child on side `d`. */
  lemma Push(head: RbNode, s: set<RbNode>, tree: Tree, ctx: Ctx, t: Tree, stack: seq<RbNode>, height: int, d: bool)
    requires At(head, s, tree, ctx, t, stack, height) && Child(t, d).Node?
    ensures height < RB_MAX_HEIGHT
    ensures At(head, s, tree, Fr(d, t.c, t.n, t.x, Child(t, !d), ctx), Child(t, d), stack[height := t.n], height + 1)
  {
    AncestorsDepth(ctx, stack, height);
    PlugHeight(ctx, t);
    AncestorsPrefix(ctx, stack, stack[height := t.n], height);
    hide Heap;
    Down(head, s, ctx, t, d);
  }

  lemma AtReads(head: RbNode, s: set<RbNode>, tree: Tree, ctx: Ctx, t: Tree, stack: seq<RbNode>, height: int)
    requires At(head, s, tree, ctx, t, stack, height)
    ensures t.Node? && |stack| == RB_MAX_HEIGHT && 0 <= height <= RB_MAX_HEIGHT && height == Depth(ctx)
    ensures t.n in s && t.n.left == Ptr(t.l) && t.n.right == Ptr(t.r) && t.n.data == t.x
    ensures ctx.Fr? ==> ctx.n in s && ctx.n.Link(ctx.d) == t.n && ctx.n.Link(!ctx.d) != t.n
    ensures Place(ctx, t) < |Flat(tree)| && Flat(tree)[Place(ctx, t)] == Entry(t.n, t.x)
  {
    PlaceEntry(ctx, t);
    AncestorsDepth(ctx, stack, height);
    OnHeap(head, s, ctx, t);
    if ctx.Fr? {
      Around(head, s, ctx, t);
      NotShared(head, s, ctx, t);
    }
  }

  lemma SameSide(ctx: Ctx, t: Tree, d: bool)
    requires t.Node?
    ensures var below := Fr(d, t.c, t.n, t.x, Child(t, !d), ctx);
            if d then After(below) == After(ctx) else Before(below) == Before(ctx)
  {
  }

  /** Walk as far as possible in direction `d` (rb.c:488-494, 515-521, 641-646, 694-699). */
  method Outermost(head: RbNode, ghost s: set<RbNode>, ghost tree: Tree, ghost ctx0: Ctx, ghost t0: Tree,
                   stack0: seq<RbNode>, height0: nat, x0: RbNode, d: bool)
      returns (x: RbNode, stack: seq<RbNode>, height: nat, ghost ctx: Ctx, ghost t: Tree)
    requires At(head, s, tree, ctx0, t0, stack0, height0) && t0.n == x0
    ensures Heap(head, s, Top, tree) && |stack| == RB_MAX_HEIGHT
    ensures At(head, s, tree, ctx, t, stack, height) && t.n == x && Child(t, d).Leaf?
    ensures Place(ctx, t) == if d then |Flat(tree)| - |After(ctx0)| - 1 else |Before(ctx0)|
  {
    x, stack, height, ctx, t := x0, stack0, height0, ctx0, t0;
    AtReads(head, s, tree, ctx, t, stack, height);
    hide At;
    hide Heap;
    hide Place;
    hide Flat;
    hide Before;
    hide After;
    hide Plug;
    hide Height;
    while x.Link(d) != null
      invariant At(head, s, tree, ctx, t, stack, height) && t.Node? && t.n == x && x.Link(d) == Ptr(Child(t, d))
      invariant |stack| == RB_MAX_HEIGHT && height <= RB_MAX_HEIGHT
      invariant if d then After(ctx) == After(ctx0) else Before(ctx) == Before(ctx0)
      decreases t
    {
      Push(head, s, tree, ctx, t, stack, height, d);
      SameSide(ctx, t, d);
      stack := stack[height := x];
      height := height + 1;
      x := x.Link(d);
      ctx, t := Fr(d, t.c, t.n, t.x, Child(t, !d), ctx), Child(t, d);
      AtReads(head, s, tree, ctx, t, stack, height);
    }
    AtPlace(head, s, tree, ctx, t, stack, height);
    AtHeap(head, s, tree, ctx, t, stack, height);
  }

  lemma AtPlace(head: RbNode, s: set<RbNode>, tree: Tree, ctx: Ctx, t: Tree, stack: seq<RbNode>, height: int)
    requires At(head, s, tree, ctx, t, stack, height)
    ensures t.l.Leaf? ==> Place(ctx, t) == |Before(ctx)|
    ensures t.r.Leaf? ==> Place(ctx, t) == |Flat(tree)| - |After(ctx)| - 1
  {
    PlaceEntry(ctx, t);
  }

  /** One step in direction `d` from a node (rb.c:635-665 and 688-718). */
  method Advance(head: RbNode, ghost s: set<RbNode>, ghost tree: Tree, ghost ctx0: Ctx, ghost t0: Tree,
                 stack0: seq<RbNode>, height0: nat, x0: RbNode, d: bool)
      returns (x: RbNode?, stack: seq<RbNode>, height: nat, ghost ctx: Ctx, ghost t: Tree)
    requires At(head, s, tree, ctx0, t0, stack0, height0) && t0.n == x0
    ensures var i := Place(ctx0, t0) + if d then 1 else -1;
            if 0 <= i < |Flat(tree)| then
              x != null && At(head, s, tree, ctx, t, stack, height) && t.n == x && Place(ctx, t) == i
            else x == null
    ensures |stack| == RB_MAX_HEIGHT && Heap(head, s, Top, tree)
  {
    x, stack, height, ctx, t := x0, stack0, height0, ctx0, t0;
    AtReads(head, s, tree, ctx, t, stack, height);
    PlaceEntry(ctx, t);
    if x.Link(d) != null {
      Push(head, s, tree, ctx, t, stack, height, d);
      stack := stack[height := x];
      height := height + 1;
      ctx, t := Fr(d, t.c, t.n, t.x, Child(t, !d), ctx), Child(t, d);
      x, stack, height, ctx, t := Outermost(head, s, tree, ctx, t, stack, height, x.Link(d), !d);
    } else {
      x, height, ctx, t := Climb(head, s, tree, ctx, t, stack, height, x, d);
    }
  }

  /** rb.c:650-664 and 703-717: climb until a node is reached from its other side. */
  method Climb(head: RbNode, ghost s: set<RbNode>, ghost tree: Tree, ghost ctx0: Ctx, ghost t0: Tree,
               stack: seq<RbNode>, height0: nat, x0: RbNode, d: bool)
      returns (x: RbNode?, height: nat, ghost ctx: Ctx, ghost t: Tree)
    requires At(head, s, tree, ctx0, t0, stack, height0) && t0.n == x0 && Child(t0, d).Leaf?
    ensures var i := Place(ctx0, t0) + if d then 1 else -1;
            if 0 <= i < |Flat(tree)| then
              x != null && At(head, s, tree, ctx, t, stack, height) && t.n == x && Place(ctx, t) == i
            else x == null
    ensures Heap(head, s, Top, tree)
  {
    ctx, t, height := ctx0, t0, height0;
    AtHeap(head, s, tree, ctx, t, stack, height);
    AtPlace(head, s, tree, ctx, t, stack, height);
    AtReads(head, s, tree, ctx, t, stack, height);
    hide At;
    hide Heap;
    hide Place;
    hide Flat;
    hide Before;
    hide After;
    var here: RbNode := x0;
    while true
      invariant At(head, s, tree, ctx, t, stack, height) && t.n == here && 0 <= height <= RB_MAX_HEIGHT
      invariant height == Depth(ctx)
      invariant if d then Place(ctx0, t0) == |Flat(tree)| - |After(ctx)| - 1 else Place(ctx0, t0) == |Before(ctx)|
      decreases height
    {
      if height == 0 {
        return null, height, ctx, t;
      }
      AtReads(head, s, tree, ctx, t, stack, height);
      var y := here;
      height := height - 1;
      here := stack[height];
      ghost var side := ctx.d;
      ClimbOne(head, s, tree, ctx, t, stack, height + 1);
      ctx, t := ctx.up, Mk(ctx.d, ctx.c, t, ctx.n, ctx.x, ctx.sib);
      if y != here.Link(d) {
        x := here;
        return;
      }
    }
  }

  lemma ClimbOne(head: RbNode, s: set<RbNode>, tree: Tree, ctx: Ctx, t: Tree, stack: seq<RbNode>, height: int)
    requires At(head, s, tree, ctx, t, stack, height) && ctx.Fr?
    ensures At(head, s, tree, ctx.up, Mk(ctx.d, ctx.c, t, ctx.n, ctx.x, ctx.sib), stack, height - 1)
    ensures var t' := Mk(ctx.d, ctx.c, t, ctx.n, ctx.x, ctx.sib);
            if ctx.d then Place(ctx.up, t') == |Before(ctx)| - 1 && After(ctx.up) == After(ctx)
            else Place(ctx.up, t') == |Flat(tree)| - |After(ctx)| && Before(ctx.up) == Before(ctx)
  {
    Up(head, s, ctx.d, ctx.c, ctx.n, ctx.x, ctx.sib, ctx.up, t);
    PlaceEntry(ctx.up, Mk(ctx.d, ctx.c, t, ctx.n, ctx.x, ctx.sib));
  }

  /** The root as a cursor position. */
  lemma AtRoot(t: Table, stack: seq<RbNode>)
    requires t.Valid() && t.tree.Node? && |stack| == RB_MAX_HEIGHT
    ensures At(t.head, Nodes(t.tree), t.tree, Top, t.tree, stack, 0)
  {
    PathBound(t.tree);
  }

  /** A node of the table, looked for by its own key. */
  lemma NodeInside(t: Table, n: RbNode, ctx: Ctx, sub: Tree)
    requires t.Valid() && n in Nodes(t.tree) && Plug(ctx, sub) == t.tree && Heap(t.head, Nodes(t.tree), ctx, sub)
    requires Lo(ctx, -1) < n.data.key < Hi(ctx, KEY_END)
    ensures sub.Node? && (sub.x.key == n.data.key <==> sub.n == n)
  {
    t.EntriesSorted();
    NotElsewhere(ctx, sub, n.data.key, -1, KEY_END);
    assert Entry(n, n.data) in Flat(sub);
    PlaceEntry(ctx, sub);
    if sub.x.key == n.data.key {
      var i :| 0 <= i < |t.Entries()| && t.Entries()[i] == Entry(n, n.data);
      assert t.Entries()[Place(ctx, sub)] == Entry(sub.n, sub.x);
      assert i == Place(ctx, sub);
    } else {
      assert Entry(sub.n, sub.x) in t.Entries() by { assert t.Entries()[Place(ctx, sub)] == Entry(sub.n, sub.x); }
    }
  }

  /** rb.c:450-458: walk down from the root to a given node of the table. */
  method PathTo(table: Table, n: RbNode, stack0: seq<RbNode>)
      returns (stack: seq<RbNode>, height: nat, ghost ctx: Ctx, ghost t: Tree)
    requires table.Valid() && n in Nodes(table.tree) && |stack0| == RB_MAX_HEIGHT
    ensures table.Valid() && |stack| == RB_MAX_HEIGHT
    ensures At(table.head, Nodes(table.tree), table.tree, ctx, t, stack, height) && t.n == n
  {
    stack, height := stack0, 0;
    var i := table.head.left;
    ghost var s := Nodes(table.tree);
    ctx, t := Top, table.tree;
    NodeInside(table, n, ctx, t);
    AtRoot(table, stack);
    hide At;
    hide Heap;
    hide Nodes;
    hide Balanced;
    hide Size;
    while i != n
      invariant table.Valid() && At(table.head, s, table.tree, ctx, t, stack, height) && |stack| == RB_MAX_HEIGHT
      invariant t.Node? && i == t.n && (t.x.key == n.data.key <==> t.n == n)
      invariant Lo(ctx, -1) < n.data.key < Hi(ctx, KEY_END)
      decreases t
    {
      AtReads(table.head, s, table.tree, ctx, t, stack, height);
      var d := n.data.key > i.data.key;
      stack, height, ctx, t := DownTo(table, n, stack, height, ctx, t, i, d);
      i := i.Link(d);
    }
  }

  lemma AtHeap(head: RbNode, s: set<RbNode>, tree: Tree, ctx: Ctx, t: Tree, stack: seq<RbNode>, height: int)
    requires At(head, s, tree, ctx, t, stack, height)
    ensures Heap(head, s, ctx, t) && Plug(ctx, t) == tree && Heap(head, s, Top, tree)
  {
    Within(head, s, ctx, t);
  }

  /** One turn of the loop of trav_refresh. */
  method DownTo(table: Table, n: RbNode, stack0: seq<RbNode>, height0: nat, ghost c: Ctx, ghost u: Tree, i: RbNode, d: bool)
      returns (stack: seq<RbNode>, height: nat, ghost ctx: Ctx, ghost t: Tree)
    requires table.Valid() && n in Nodes(table.tree)
    requires At(table.head, Nodes(table.tree), table.tree, c, u, stack0, height0) && u.n == i && i != n
    requires Lo(c, -1) < n.data.key < Hi(c, KEY_END) && u.x.key != n.data.key && d == (n.data.key > u.x.key)
    ensures table.Valid() && |stack| == RB_MAX_HEIGHT
    ensures At(table.head, Nodes(table.tree), table.tree, ctx, t, stack, height) && i.Link(d) == t.n
    ensures t.x.key == n.data.key <==> t.n == n
    ensures Lo(ctx, -1) < n.data.key < Hi(ctx, KEY_END)
    ensures t == Child(u, d)
  {
    ghost var s := Nodes(table.tree);
    AtReads(table.head, s, table.tree, c, u, stack0, height0);
    AtHeap(table.head, s, table.tree, c, u, stack0, height0);
    Descend(c, u, n.data.key);
    Down(table.head, s, c, u, d);
    ctx, t := Fr(d, u.c, u.n, u.x, Child(u, !d), c), Child(u, d);
    NodeInside(table, n, ctx, t);
    Push(table.head, s, table.tree, c, u, stack0, height0, d);
    stack, height := stack0[height0 := i], height0 + 1;
  }

  /** The outermost node of a whole table. */
  method End(table: Table, stack0: seq<RbNode>, d: bool)
      returns (x: RbNode?, stack: seq<RbNode>, height: nat, ghost ctx: Ctx, ghost t: Tree)
    requires table.Valid() && |stack0| == RB_MAX_HEIGHT
    ensures table.Valid() && |stack| == RB_MAX_HEIGHT
    ensures x == null <==> table.Entries() == []
    ensures x != null ==>
              && At(table.head, Nodes(table.tree), table.tree, ctx, t, stack, height) && t.Node? && t.n == x && x in Nodes(table.tree)
              && Entry(x, x.data) == table.Entries()[if d then |table.Entries()| - 1 else 0]
  {
    stack, height, ctx, t := stack0, 0, Top, table.tree;
    ghost var s := Nodes(table.tree);
    x := table.head.left;
    if x != null {
      AtRoot(table, stack);
      assert Before(Top) == [] && After(Top) == [];
      hide Heap;
      hide At;
      hide Nodes;
      hide Balanced;
      x, stack, height, ctx, t := Outermost(table.head, s, table.tree, Top, table.tree, stack, 0, x, d);
      AtReads(table.head, s, table.tree, ctx, t, stack, height);
    }
  }

  /** One turn of the loop of rb_t_find: one link down, the node passed goes on the stack. */
  method StepDown(table: Table, key: int, stack0: seq<RbNode>, height0: nat, ghost c: Ctx, ghost u: Tree, p: RbNode, d: bool)
      returns (q: RbNode?, stack: seq<RbNode>, height: nat, ghost ctx: Ctx, ghost t: Tree)
    requires table.Valid()
    requires At(table.head, Nodes(table.tree), table.tree, c, u, stack0, height0) && u.n == p
    requires Lo(c, -1) < key < Hi(c, KEY_END) && u.x.key != key && d == (key > u.x.key)
    ensures table.Valid() && |stack| == RB_MAX_HEIGHT && q == Ptr(t) && t == Child(u, d)
    ensures Heap(table.head, Nodes(table.tree), ctx, t) && Plug(ctx, t) == table.tree
    ensures t.Node? ==> At(table.head, Nodes(table.tree), table.tree, ctx, t, stack, height)
    ensures Lo(ctx, -1) < key < Hi(ctx, KEY_END)
  {
    ghost var s := Nodes(table.tree);
    AtReads(table.head, s, table.tree, c, u, stack0, height0);
    AtHeap(table.head, s, table.tree, c, u, stack0, height0);
    Descend(c, u, key);
    Down(table.head, s, c, u, d);
    ctx, t := Fr(d, u.c, u.n, u.x, Child(u, !d), c), Child(u, d);
    if t.Node? { Push(table.head, s, table.tree, c, u, stack0, height0, d); }
    AtRoom(table.head, s, table.tree, c, u, stack0, height0);
    stack, height, q := stack0[height0 := p], height0 + 1, p.Link(d);
  }

  lemma AtRoom(head: RbNode, s: set<RbNode>, tree: Tree, ctx: Ctx, t: Tree, stack: seq<RbNode>, height: int)
    requires At(head, s, tree, ctx, t, stack, height)
    ensures |stack| == RB_MAX_HEIGHT && 0 <= height < RB_MAX_HEIGHT
  {
    AncestorsDepth(ctx, stack, height);
    PlugHeight(ctx, t);
  }

  /** rb.c:541-557: the search loop of rb_t_find. */
  method SearchTo(table: Table, key: int, stack0: seq<RbNode>)
      returns (p: RbNode?, stack: seq<RbNode>, height: nat, ghost ctx: Ctx, ghost t: Tree)
    requires table.Valid() && |stack0| == RB_MAX_HEIGHT && 0 <= key < KEY_END
    ensures table.Valid() && |stack| == RB_MAX_HEIGHT
    ensures p == null ==> key !in table.Contents()
    ensures p != null ==>
              && At(table.head, Nodes(table.tree), table.tree, ctx, t, stack, height) && t.n == p && p in Nodes(table.tree)
              && key in table.Contents() && table.Contents()[key] == p.data && p.data.key == key
  {
    stack, height := stack0, 0;
    p := table.head.left;
    ghost var s := Nodes(table.tree);
    ctx, t := Top, table.tree;
    if table.tree.Node? { AtRoot(table, stack); }
    RootPlace(table);
    hide At;
    hide Heap;
    hide Nodes;
    hide Balanced;
    hide Size;
    hide MapOf;
    hide Flat;
    while p != null
      invariant table.Valid() && |stack| == RB_MAX_HEIGHT && p == Ptr(t)
      invariant Heap(table.head, s, ctx, t) && Plug(ctx, t) == table.tree && Lo(ctx, -1) < key < Hi(ctx, KEY_END)
      invariant t.Node? ==> At(table.head, s, table.tree, ctx, t, stack, height)
      decreases t
    {
      AtReads(table.head, s, table.tree, ctx, t, stack, height);
      if key == p.data.key {
        table.SearchResult(ctx, t, key);
        return;
      }
      var d := key > p.data.key;
      p, stack, height, ctx, t := StepDown(table, key, stack, height, ctx, t, p, d);
    }
    table.SearchResult(ctx, t, key);
  }

  lemma RootPlace(table: Table)
    requires table.Valid()
    ensures Heap(table.head, Nodes(table.tree), Top, table.tree) && table.head.left == Ptr(table.tree)
  {
  }

  class Traverser {
    var table: Table
    var node: RbNode?
    var stack: seq<RbNode>
    var height: nat
    var generation: nat
    ghost var ctx: Ctx
    ghost var sub: Tree
    ghost var stamp: int    // the table's `stamp` when the stack was last known to be right

    /** The current node is in the table; the stack is right unless the table has changed since.
        Fewer than 2^64 changes may lie between, so that the wrapping counters tell them apart. */
    ghost predicate Valid()
      reads this, table, table.head, Nodes(table.tree)
    {
      && table.Valid() && |stack| == RB_MAX_HEIGHT
      && generation == stamp % KEY_END && stamp <= table.stamp < stamp + KEY_END
      && (node != null ==> node in Nodes(table.tree))
      && (node != null && stamp == table.stamp ==>
            At(table.head, Nodes(table.tree), table.tree, ctx, sub, stack, height) && sub.n == node)
    }

    /** rb_t_init, rb.c:464-471. */
    constructor (t: Table)
      requires t.Valid()
      ensures Valid() && table == t && node == null && stamp == t.stamp && fresh(this)
    {
      table, node, height, generation := t, null, 0, t.generation;
      stack := seq(RB_MAX_HEIGHT, _ => t.head);
      ctx, sub, stamp := Top, Leaf, t.stamp;
    }

    /** trav_refresh, rb.c:436-460. */
    method Refresh()
      requires Valid()
      modifies this
      ensures Valid() && stamp == table.stamp && table == old(table) && node == old(node)
    {
      hide At;
      hide Heap;
      hide Nodes;
      hide Flat;
      hide Balanced;
      hide Size;
      hide Place;
      generation := table.generation;
      stamp := table.stamp;
      if node != null {
        stack, height, ctx, sub := PathTo(table, node, stack);
      }
    }

    /** rb_t_first for `d == false` (rb.c:476-498), rb_t_last for `d == true` (rb.c:503-525). */
    method Extreme(t: Table, d: bool) returns (r: Option<Item>)
      requires t.Valid() && |stack| == RB_MAX_HEIGHT
      modifies this
      ensures Valid() && table == t && stamp == t.stamp
      ensures var es := t.Entries();
              if es == [] then node == null && r == None
              else var e := es[if d then |es| - 1 else 0]; node == e.n && r == Some(e.x)
    {
      hide At;
      hide Heap;
      hide Nodes;
      hide Flat;
      hide Balanced;
      hide Size;
      hide Sorted;
      hide Valid;
      table, generation, stamp := t, t.generation, t.stamp;
      var x;
      x, stack, height, ctx, sub := End(t, stack, d);
      node := x;
      r := None;
      if x != null { r := Some(x.data); }
      Renewed();
    }

    /** With the stack just built the cursor is valid. */
    lemma Renewed()
      requires table.Valid() && |stack| == RB_MAX_HEIGHT && generation == table.generation && stamp == table.stamp
      requires node != null ==>
                 At(table.head, Nodes(table.tree), table.tree, ctx, sub, stack, height) && sub.n == node
      ensures Valid()
    {
      hide At;
      hide Heap;
      hide Flat;
      hide Balanced;
      hide Size;
      if node != null { AtReads(table.head, Nodes(table.tree), table.tree, ctx, sub, stack, height); }
    }

    /** rb_t_next for `d == true` (rb.c:620-668), rb_t_prev for `d == false` (rb.c:673-721).
        `i` is the old position among the table's entries as they now are; the null item counts as
        the position before the first, or after the last, entry. */
    method Step(d: bool) returns (r: Option<Item>, ghost i: int)
      requires Valid()
      modifies this
      ensures Valid() && table == old(table) && stamp == table.stamp
      ensures var es := table.Entries();
              if old(node) == null then i == if d then -1 else |es| else 0 <= i < |es| && es[i].n == old(node)
      ensures var es := table.Entries();
              var j := if d then i + 1 else i - 1;
              if 0 <= j < |es| then node == es[j].n && r == Some(es[j].x) else node == null && r == None
    {
      hide At;
      hide Heap;
      hide Nodes;
      hide Flat;
      hide Balanced;
      hide Size;
      if generation != table.generation {
        Refresh();
      }
      assert stamp == table.stamp;
      if node == null {
        i := if d then -1 else |table.Entries()|;
        r := Extreme(table, !d);
      } else {
        r, i := StepOn(d);
      }
    }

    /** rb.c:635-667 and 688-720: the step from a node with its stack in order. */
    method StepOn(d: bool) returns (r: Option<Item>, ghost i: int)
      requires Valid() && node != null && stamp == table.stamp
      modifies this`node, this`stack, this`height, this`ctx, this`sub
      ensures Valid() && 0 <= i < |table.Entries()| && table.Entries()[i].n == old(node)
      ensures var es := table.Entries();
              var j := if d then i + 1 else i - 1;
              if 0 <= j < |es| then node == es[j].n && r == Some(es[j].x) else node == null && r == None
    {
      hide At;
      hide Heap;
      hide Nodes;
      hide Flat;
      hide Balanced;
      hide Size;
      hide Place;
      ghost var s := Nodes(table.tree);
      AtReads(table.head, s, table.tree, ctx, sub, stack, height);
      i := Place(ctx, sub);
      var x;
      x, stack, height, ctx, sub := Advance(table.head, s, table.tree, ctx, sub, stack, height, node, d);
      node := x;
      r := None;
      if x != null {
        AtReads(table.head, s, table.tree, ctx, sub, stack, height);
        r := Some(x.data);
      }
    }

    /** rb_t_find, rb.c:532-562. */
    method Find(t: Table, item: Item) returns (r: Option<Item>)
      requires t.Valid() && |stack| == RB_MAX_HEIGHT
      modifies this
      ensures Valid() && table == t && stamp == t.stamp
      ensures r == Lookup(t.Contents(), item.key)
      ensures if item.key in t.Contents() then node != null && node.data == t.Contents()[item.key] else node == null
    {
      hide At;
      hide Heap;
      hide Nodes;
      hide Flat;
      hide Balanced;
      hide Size;
      hide MapOf;
      hide Place;
      var p, found, h;
      ghost var c, u;
      p, found, h, c, u := SearchTo(t, item.key, stack);
      table, node, stack, generation := t, p, found, t.generation;
      height := if p == null then 0 else h;
      ctx, sub, stamp := c, u, t.stamp;
      r := if p == null then None else Some(p.data);
    }

    /** rb_t_insert, rb.c:571-593: the item or its duplicate becomes the current one; the generation is
        set one back, so that the next step looks for the node anew. */
    method Insert(t: Table, item: Item, oom: bool) returns (r: Option<Item>)
      requires t.Valid() && |stack| == RB_MAX_HEIGHT && t.count < MAX_COUNT
      modifies this, t, t.head, Nodes(t.tree)
      ensures Valid() && table == t
      ensures item.key in old(t.Contents()) ==>
                && r == Some(old(t.Contents())[item.key]) && node != null && node.data == r.value
                && t.Contents() == old(t.Contents())
      ensures item.key !in old(t.Contents()) && !oom ==>
                && r == Some(item) && node != null && node.data == item
                && t.Contents() == old(t.Contents())[item.key := item]
      ensures item.key !in old(t.Contents()) && oom ==>
                r == None && node == null && t.Contents() == old(t.Contents())
    {
      hide At;
      hide Heap;
      hide Nodes;
      hide Flat;
      hide Balanced;
      hide Size;
      hide MapOf;
      ghost var i;
      var p;
      p, i := t.Probe(item, oom);
      table := t;
      if p != null {
        EntryInTable(t, p);
        node := p;
        generation := if t.generation == 0 then KEY_END - 1 else t.generation - 1;
        stamp := t.stamp - 1;
        OneBack(t.stamp, t.generation);
        r := Some(p.data);
      } else {
        node, height, generation, stamp := null, 0, t.generation, t.stamp;
        r := None;
      }
    }

    /** rb_t_copy, rb.c:595-615.  The stack is worth copying only while it is up to date. */
    method CopyFrom(src: Traverser) returns (r: Option<Item>)
      requires src.Valid() && |stack| == RB_MAX_HEIGHT
      modifies this
      ensures Valid() && table == old(src.table) && node == old(src.node)
      ensures r == if node == null then None else Some(node.data)
    {
      hide At;
      hide Heap;
      hide Nodes;
      hide Balanced;
      hide Size;
      hide Place;
      hide Flat;
      if this != src {
        table, node, generation := src.table, src.node, src.generation;
        ctx, sub, stamp := src.ctx, src.sub, src.stamp;
        if generation == table.generation {
          SameStamp(stamp, table.stamp);
          height := src.height;
          stack := src.stack; // entries from `height` on mean nothing
        }
      }
      r := if node == null then None else Some(node.data);
    }
  }

  /** Equal generation numbers mean that nothing has changed between. */
  lemma SameStamp(stamp: int, later: int)
    requires stamp <= later < stamp + KEY_END && stamp % KEY_END == later % KEY_END
    ensures stamp == later
  {
  }

  lemma EntryInTable(table: Table, p: RbNode)
    requires table.Valid()
    ensures Entry(p, p.data) in table.Entries() ==> p in Nodes(table.tree)
  {
  }

  lemma OneBack(stamp: int, generation: int)
    requires generation == stamp % KEY_END
    ensures (stamp - 1) % KEY_END == if generation == 0 then KEY_END - 1 else generation - 1
  {
  }
}
