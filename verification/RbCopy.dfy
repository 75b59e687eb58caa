/** rb_copy (rb.c:760-860): a table is copied node by node, with a stack of node pairs. */
module RbCopy {
  import opened RbShape
  import opened RbSteps
  import opened RbInsert
  import opened RbHeight
  import opened RbTable

  const STACK_SIZE := 2 * (RB_MAX_HEIGHT + 1)

  /** The same shape and colours, other nodes, the items mapped. */
  predicate Same(t: Tree, t': Tree, copy: Item -> Item) {
    match t
    case Leaf => t'.Leaf?
    case Node(c, l, _, x, r) =>
      t'.Node? && t'.c == c && t'.x == copy(x) && Same(l, t'.l, copy) && Same(r, t'.r, copy)
  }

  /** The copy of a path: where it turned right, the left side is copied; where it turned left, the right
      side is still to come. */
  predicate Begun(ctx: Ctx, ctx': Ctx, copy: Item -> Item) {
    match ctx
    case Top => ctx'.Top?
    case Fr(d, c, _, x, sib, up) =>
      && ctx'.Fr? && ctx'.d == d && ctx'.c == c && ctx'.x == copy(x)
      && (if d then Same(sib, ctx'.sib, copy) else ctx'.sib.Leaf?)
      && Begun(up, ctx'.up, copy)
  }

  /** What the memory holds of such a path: a node passed on the way right is complete, of one passed on
      the way left only the left link is set. */
  ghost predicate Part(w: Mem, ctx: Ctx, q: RbNode?, root: RbNode?) {
    match ctx
    case Top => root == q
    case Fr(d, c, n, x, sib, up) =>
      && n in w && (if d then w[n] == Cell(Ptr(sib), q, x, c) && Rep(w, sib) else w[n].l == q)
      && Part(w, up, n, root)
  }

  ghost function Own(t: Tree): set<RbNode> {
    match t
    case Leaf => {}
    case Node(_, l, n, _, r) => {n} + Own(l) + Own(r)
  }

  ghost function CtxOwn(ctx: Ctx): set<RbNode> {
    match ctx
    case Top => {}
    case Fr(_, _, n, _, sib, up) => {n} + Own(sib) + CtxOwn(up)
  }

  ghost predicate Apart(ctx: Ctx) {
    match ctx
    case Top => true
    case Fr(_, _, n, _, sib, up) =>
      n !in Own(sib) && n !in CtxOwn(up) && Own(sib) !! CtxOwn(up) && Apart(up)
  }

  /** The copy while node `y` is being made below the path. */
  ghost predicate Making(w: Mem, ctx: Ctx, y: RbNode, root: RbNode?) {
    Part(w, ctx, y, root) && Apart(ctx) && y in w && y !in CtxOwn(ctx) && CtxOwn(ctx) <= w.Keys
  }

  /** The left side of `y` is done. */
  ghost predicate LeftDone(w: Mem, ctx: Ctx, y: RbNode, l: Tree) {
    y in w && Rep(w, l) && w[y].l == Ptr(l) && Own(l) <= w.Keys && y !in Own(l) && Own(l) !! CtxOwn(ctx)
  }

  /** The whole tree below the path is done. */
  ghost predicate Done(w: Mem, ctx: Ctx, t: Tree, root: RbNode?) {
    && Part(w, ctx, Ptr(t), root) && Apart(ctx) && Rep(w, t)
    && CtxOwn(ctx) <= w.Keys && Own(t) <= w.Keys && Own(t) !! CtxOwn(ctx)
  }

  lemma {:induction false} RepElse(w: Mem, w': Mem, t: Tree)
    requires Rep(w, t) && forall n :: n in Own(t) ==> n in w' && (n in w ==> w'[n] == w[n])
    ensures Rep(w', t)
  {
    if t.Node? {
      RepElse(w, w', t.l);
      RepElse(w, w', t.r);
    }
  }

  lemma {:induction false} PartElse(w: Mem, w': Mem, ctx: Ctx, q: RbNode?, root: RbNode?)
    requires Part(w, ctx, q, root) && forall n :: n in CtxOwn(ctx) ==> n in w' && (n in w ==> w'[n] == w[n])
    ensures Part(w', ctx, q, root)
  {
    if ctx.Fr? {
      if ctx.d { RepElse(w, w', ctx.sib); }
      PartElse(w, w', ctx.up, ctx.n, root);
    }
  }

  /** rb.c:793-816: the node gets a new left child. */
  lemma GoLeft(w: Mem, w': Mem, ctx: Ctx, y: RbNode, root: RbNode?, c: Color, x: Item, y2: RbNode)
    requires Making(w, ctx, y, root) && y2 !in w
    requires y in w' && y2 in w' && w'[y].l == y2 && forall n :: n in w && n != y ==> n in w' && w'[n] == w[n]
    ensures Making(w', Fr(false, c, y, x, Leaf, ctx), y2, root)
  {
    PartElse(w, w', ctx, y, root);
  }

  /** rb.c:817: it gets none. */
  lemma NoLeft(w: Mem, w': Mem, ctx: Ctx, y: RbNode, root: RbNode?)
    requires Making(w, ctx, y, root)
    requires y in w' && w'[y].l == null && forall n :: n in w && n != y ==> n in w' && w'[n] == w[n]
    ensures Making(w', ctx, y, root) && LeftDone(w', ctx, y, Leaf)
  {
    PartElse(w, w', ctx, y, root);
  }

  /** rb.c:821-848: colour and item, and a new right child. */
  lemma GoRight(w: Mem, w': Mem, ctx: Ctx, y: RbNode, root: RbNode?, l: Tree, c: Color, x: Item, y2: RbNode)
    requires Making(w, ctx, y, root) && LeftDone(w, ctx, y, l) && y2 !in w
    requires y in w' && y2 in w' && w'[y] == Cell(w[y].l, y2, x, c)
    requires forall n :: n in w && n != y ==> n in w' && w'[n] == w[n]
    ensures Making(w', Fr(true, c, y, x, l, ctx), y2, root)
  {
    PartElse(w, w', ctx, y, root);
    RepElse(w, w', l);
  }

  /** rb.c:851: no right child; the subtree is done. */
  lemma NoRight(w: Mem, w': Mem, ctx: Ctx, y: RbNode, root: RbNode?, l: Tree, c: Color, x: Item)
    requires Making(w, ctx, y, root) && LeftDone(w, ctx, y, l)
    requires y in w' && w'[y] == Cell(w[y].l, null, x, c)
    requires forall n :: n in w && n != y ==> n in w' && w'[n] == w[n]
    ensures Done(w', ctx, Node(c, l, y, x, Leaf), root)
  {
    PartElse(w, w', ctx, y, root);
    RepElse(w, w', l);
  }

  /** A tree done on the right makes its parent's tree done. */
  lemma RightDone(w: Mem, ctx: Ctx, t: Tree, root: RbNode?)
    requires Done(w, ctx, t, root) && ctx.Fr? && ctx.d
    ensures Done(w, ctx.up, Node(ctx.c, ctx.sib, ctx.n, ctx.x, t), root)
  {
  }

  /** A tree done on the left leaves its parent in the making. */
  lemma BackLeft(w: Mem, ctx: Ctx, t: Tree, root: RbNode?)
    requires Done(w, ctx, t, root) && ctx.Fr? && !ctx.d
    ensures Making(w, ctx.up, ctx.n, root) && LeftDone(w, ctx.up, ctx.n, t)
  {
  }

  /** The stack holds the pairs of those nodes below which the path turned left, the two root links,
      seen as nodes, at the bottom. */
  ghost predicate Stacked(ctx: Ctx, ctx': Ctx, stack: seq<RbNode>, height: int) {
    && |stack| == STACK_SIZE && 2 <= height <= STACK_SIZE
    && match ctx
       case Top => height == 2
       case Fr(d, _, n, _, _, up) =>
         && ctx'.Fr?
         && if d then Stacked(up, ctx'.up, stack, height)
            else height >= 4 && stack[height - 2] == n && stack[height - 1] == ctx'.n && Stacked(up, ctx'.up, stack, height - 2)
  }

  lemma {:induction false} StackedPrefix(ctx: Ctx, ctx': Ctx, stack: seq<RbNode>, stack': seq<RbNode>, height: int)
    requires Stacked(ctx, ctx', stack, height) && |stack'| == STACK_SIZE && stack'[..height] == stack[..height]
    ensures Stacked(ctx, ctx', stack', height)
  {
    if ctx.Fr? {
      if ctx.d {
        StackedPrefix(ctx.up, ctx'.up, stack, stack', height);
      } else {
        assert stack'[..height - 2] == stack'[..height][..height - 2] == stack[..height - 2];
        assert stack'[height - 2] == stack'[..height][height - 2] && stack'[height - 1] == stack'[..height][height - 1];
        StackedPrefix(ctx.up, ctx'.up, stack, stack', height - 2);
      }
    }
  }

  lemma {:induction false} StackedDepth(ctx: Ctx, ctx': Ctx, stack: seq<RbNode>, height: int)
    requires Stacked(ctx, ctx', stack, height)
    ensures height <= 2 + 2 * Depth(ctx)
  {
    if ctx.Fr? {
      StackedDepth(ctx.up, ctx'.up, stack, if ctx.d then height else height - 2);
    }
  }

  /** Nodes still to be made complete behind the tree below a path. */
  ghost function Rest(ctx: Ctx): nat {
    match ctx
    case Top => 0
    case Fr(d, _, _, _, sib, up) => (if d then 0 else 1 + Size(sib)) + Rest(up)
  }

  /** A node is being copied: `x` is the root of `sub` below `ctx` in the original, `y` its copy, made in
      `news`. */
  ghost predicate At(head: RbNode, s: set<RbNode>, news: set<RbNode>, ctx: Ctx, sub: Tree, tree: Tree, ctx': Ctx,
                     y: RbNode, root: RbNode?, copy: Item -> Item, stack: seq<RbNode>, height: int)
    reads head, s, news
  {
    && Heap(head, s, ctx, sub) && sub.Node? && Plug(ctx, sub) == tree
    && Begun(ctx, ctx', copy) && Making(Snap(news), ctx', y, root) && Stacked(ctx, ctx', stack, height)
  }

  /** rb.c:797-815 once: an original left child, and its copy, allocated. */
  method LeftStep(head: RbNode, ghost s: set<RbNode>, ghost news0: set<RbNode>, x: RbNode, y: RbNode,
                  ghost ctx0: Ctx, ghost sub0: Tree, ghost tree: Tree, ghost ctx0': Ctx, ghost root: RbNode?,
                  copy: Item -> Item, stack0: seq<RbNode>, height0: int)
      returns (y2: RbNode, stack: seq<RbNode>, height: int, ghost news: set<RbNode>, ghost ctx: Ctx, ghost ctx': Ctx)
    requires At(head, s, news0, ctx0, sub0, tree, ctx0', y, root, copy, stack0, height0) && sub0.n == x && sub0.l.Node?
    requires s !! news0 && head !in news0 && height0 + 2 <= STACK_SIZE
    modifies y
    ensures fresh(y2) && news == news0 + {y2}
    ensures ctx == Fr(false, sub0.c, x, sub0.x, sub0.r, ctx0)
    ensures At(head, s, news, ctx, sub0.l, tree, ctx', y2, root, copy, stack, height)
  {
    hide Heap;
    hide Making;
    Down(head, s, ctx0, sub0, false);
    ghost var w := Snap(news0);
    y2 := new RbNode.Malloc();
    assert y in w && y2 !in w by { MakingIn(w, ctx0', y, root); }
    y.left := y2;
    news := news0 + {y2};
    stack, height := stack0[height0 := x][height0 + 1 := y], height0 + 2;
    ctx, ctx' := Fr(false, sub0.c, x, sub0.x, sub0.r, ctx0), Fr(false, sub0.c, y, copy(sub0.x), Leaf, ctx0');
    GoLeft(w, Snap(news), ctx0', y, root, sub0.c, copy(sub0.x), y2);
    StackedPrefix(ctx0, ctx0', stack0, stack, height0);
  }

  lemma MakingIn(w: Mem, ctx: Ctx, y: RbNode, root: RbNode?)
    requires Making(w, ctx, y, root)
    ensures y in w
  {
  }

  /** rb.c:793-817: down to the leftmost node; its copy has no left child. */
  method DescendLeft(head: RbNode, ghost s: set<RbNode>, ghost news0: set<RbNode>, x0: RbNode, y0: RbNode,
                     ghost ctx0: Ctx, ghost sub0: Tree, ghost tree: Tree, ghost ctx0': Ctx, ghost root: RbNode?,
                     copy: Item -> Item, stack0: seq<RbNode>, height0: int)
      returns (x: RbNode, y: RbNode, stack: seq<RbNode>, height: int, ghost news: set<RbNode>,
               ghost ctx: Ctx, ghost sub: Tree, ghost ctx': Ctx)
    requires At(head, s, news0, ctx0, sub0, tree, ctx0', y0, root, copy, stack0, height0) && sub0.n == x0
    requires s !! news0 && head !in news0 && y0 in news0 && Height(tree) <= 126
    modifies news0
    ensures news0 <= news && fresh(news - news0) && y in news
    ensures At(head, s, news, ctx, sub, tree, ctx', y, root, copy, stack, height) && sub.n == x && sub.l.Leaf?
    ensures LeftDone(Snap(news), ctx', y, Leaf)
    ensures Size(sub) + Rest(ctx) == Size(sub0) + Rest(ctx0)
  {
    hide *;
    x, y, stack, height, news, ctx, sub, ctx' := x0, y0, stack0, height0, news0, ctx0, sub0, ctx0';
    AtLeft(head, s, news, ctx, sub, tree, ctx', y, root, copy, stack, height);
    while x.left != null
      invariant At(head, s, news, ctx, sub, tree, ctx', y, root, copy, stack, height) && sub.Node? && sub.n == x
      invariant news0 <= news && fresh(news - news0) && y in news && head !in news && s !! news
      invariant Size(sub) + Rest(ctx) == Size(sub0) + Rest(ctx0) && x.left == Ptr(sub.l)
      decreases Height(sub)
    {
      RoomLeft(head, s, news, ctx, sub, tree, ctx', y, root, copy, stack, height);
      AtLeft(head, s, news, ctx, sub, tree, ctx', y, root, copy, stack, height);
      LeftMeasure(ctx, sub);
      y, stack, height, news, ctx, ctx' := LeftStep(head, s, news, x, y, ctx, sub, tree, ctx', root, copy, stack, height);
      x, sub := x.left, sub.l;
      AtLeft(head, s, news, ctx, sub, tree, ctx', y, root, copy, stack, height);
    }
    AtParts(head, s, news, ctx, sub, tree, ctx', y, root, copy, stack, height);
    LeftMeasure(ctx, sub);
    NoLeftStep(head, s, news, y, ctx, sub, tree, ctx', root, copy, stack, height);
  }

  lemma LeftMeasure(ctx: Ctx, sub: Tree)
    requires sub.Node?
    ensures Size(sub.l) + Rest(Fr(false, sub.c, sub.n, sub.x, sub.r, ctx)) == Size(sub) + Rest(ctx)
    ensures Height(sub.l) < Height(sub) && Ptr(sub.l) == if sub.l.Leaf? then null else sub.l.n
  {
  }

  method NoLeftStep(head: RbNode, ghost s: set<RbNode>, ghost news: set<RbNode>, y: RbNode, ghost ctx: Ctx, ghost sub: Tree,
                    ghost tree: Tree, ghost ctx': Ctx, ghost root: RbNode?, copy: Item -> Item, stack: seq<RbNode>, height: int)
    requires Heap(head, s, ctx, sub) && sub.Node? && Plug(ctx, sub) == tree
    requires Begun(ctx, ctx', copy) && Making(Snap(news), ctx', y, root) && Stacked(ctx, ctx', stack, height)
    requires y in news && s !! news && head !in news
    modifies y
    ensures At(head, s, news, ctx, sub, tree, ctx', y, root, copy, stack, height) && LeftDone(Snap(news), ctx', y, Leaf)
  {
    hide Heap;
    hide Making;
    ghost var w := Snap(news);
    y.left := null;
    NoLeftAt(head, s, news, w, ctx, sub, tree, ctx', y, root, copy, stack, height);
  }

  lemma LeftOf(head: RbNode, s: set<RbNode>, ctx: Ctx, sub: Tree)
    requires Heap(head, s, ctx, sub) && sub.Node?
    ensures sub.n in s && sub.n.left == Ptr(sub.l) && sub.n.right == Ptr(sub.r) && sub.n.color == sub.c && sub.n.data == sub.x
  {
    OnHeap(head, s, ctx, sub);
  }

  lemma AtLeft(head: RbNode, s: set<RbNode>, news: set<RbNode>, ctx: Ctx, sub: Tree, tree: Tree, ctx': Ctx,
               y: RbNode, root: RbNode?, copy: Item -> Item, stack: seq<RbNode>, height: int)
    requires At(head, s, news, ctx, sub, tree, ctx', y, root, copy, stack, height)
    ensures sub.Node? && sub.n in s && sub.n.left == Ptr(sub.l) && sub.n.right == Ptr(sub.r)
    ensures sub.n.color == sub.c && sub.n.data == sub.x
  {
    LeftOf(head, s, ctx, sub);
  }

  lemma AtParts(head: RbNode, s: set<RbNode>, news: set<RbNode>, ctx: Ctx, sub: Tree, tree: Tree, ctx': Ctx,
                y: RbNode, root: RbNode?, copy: Item -> Item, stack: seq<RbNode>, height: int)
    requires At(head, s, news, ctx, sub, tree, ctx', y, root, copy, stack, height)
    ensures Heap(head, s, ctx, sub) && sub.Node? && Plug(ctx, sub) == tree
    ensures Begun(ctx, ctx', copy) && Making(Snap(news), ctx', y, root) && Stacked(ctx, ctx', stack, height)
  {
  }

  /** rb.c:795: the stack has room for another pair. */
  lemma RoomLeft(head: RbNode, s: set<RbNode>, news: set<RbNode>, ctx: Ctx, sub: Tree, tree: Tree, ctx': Ctx,
                 y: RbNode, root: RbNode?, copy: Item -> Item, stack: seq<RbNode>, height: int)
    requires At(head, s, news, ctx, sub, tree, ctx', y, root, copy, stack, height) && Height(tree) <= 126
    ensures height + 2 <= STACK_SIZE
  {
    StackedDepth(ctx, ctx', stack, height);
    PlugHeight(ctx, sub);
  }

  lemma NoLeftAt(head: RbNode, s: set<RbNode>, news: set<RbNode>, w: Mem, ctx: Ctx, sub: Tree, tree: Tree, ctx': Ctx,
                 y: RbNode, root: RbNode?, copy: Item -> Item, stack: seq<RbNode>, height: int)
    requires Heap(head, s, ctx, sub) && sub.Node? && Plug(ctx, sub) == tree
    requires Begun(ctx, ctx', copy) && Making(w, ctx', y, root) && Stacked(ctx, ctx', stack, height)
    requires y in news && y.left == null && w.Keys == news && forall n :: n in w && n != y ==> Snap(news)[n] == w[n]
    ensures At(head, s, news, ctx, sub, tree, ctx', y, root, copy, stack, height) && LeftDone(Snap(news), ctx', y, Leaf)
  {
    NoLeft(w, Snap(news), ctx', y, root);
  }

  /** The left side of the current node is copied. */
  ghost predicate Mid(head: RbNode, s: set<RbNode>, news: set<RbNode>, ctx: Ctx, sub: Tree, tree: Tree, ctx': Ctx,
                      y: RbNode, l: Tree, root: RbNode?, copy: Item -> Item, stack: seq<RbNode>, height: int)
    reads head, s, news
  {
    && At(head, s, news, ctx, sub, tree, ctx', y, root, copy, stack, height)
    && LeftDone(Snap(news), ctx', y, l) && Same(sub.l, l, copy)
  }

  /** The current subtree is copied. */
  ghost predicate Copied(head: RbNode, s: set<RbNode>, news: set<RbNode>, ctx: Ctx, sub: Tree, tree: Tree, ctx': Ctx,
                         sub': Tree, root: RbNode?, copy: Item -> Item, stack: seq<RbNode>, height: int)
    reads head, s, news
  {
    && Heap(head, s, ctx, sub) && Plug(ctx, sub) == tree && Begun(ctx, ctx', copy) && Same(sub, sub', copy)
    && Done(Snap(news), ctx', sub', root) && Stacked(ctx, ctx', stack, height)
  }

  /** rb.c:821-848: colour, item and a new right child. */
  method RightStep(head: RbNode, ghost s: set<RbNode>, ghost news0: set<RbNode>, x: RbNode, y: RbNode,
                   ghost ctx0: Ctx, ghost sub0: Tree, ghost tree: Tree, ghost ctx0': Ctx, ghost l: Tree, ghost root: RbNode?,
                   copy: Item -> Item, stack: seq<RbNode>, height: int)
      returns (y2: RbNode, ghost news: set<RbNode>, ghost ctx: Ctx, ghost ctx': Ctx)
    requires Mid(head, s, news0, ctx0, sub0, tree, ctx0', y, l, root, copy, stack, height) && sub0.n == x && sub0.r.Node?
    requires s !! news0 && head !in news0
    modifies y
    ensures fresh(y2) && news == news0 + {y2}
    ensures ctx == Fr(true, sub0.c, x, sub0.x, sub0.l, ctx0)
    ensures At(head, s, news, ctx, sub0.r, tree, ctx', y2, root, copy, stack, height)
  {
    hide Heap;
    hide Making;
    hide LeftDone;
    hide Plug;
    LeftOf(head, s, ctx0, sub0);
    Down(head, s, ctx0, sub0, true);
    ghost var w := Snap(news0);
    assert y in w by { MakingIn(w, ctx0', y, root); }
    y.color := x.color;
    y.data := copy(x.data);
    y2 := new RbNode.Malloc();
    y.right := y2;
    news := news0 + {y2};
    ctx, ctx' := Fr(true, sub0.c, x, sub0.x, sub0.l, ctx0), Fr(true, sub0.c, y, copy(sub0.x), l, ctx0');
    GoRight(w, Snap(news), ctx0', y, root, l, sub0.c, copy(sub0.x), y2);
  }

  /** rb.c:821-827 and 851: colour, item and no right child. */
  method NoRightStep(head: RbNode, ghost s: set<RbNode>, ghost news: set<RbNode>, x: RbNode, y: RbNode,
                     ghost ctx: Ctx, ghost sub: Tree, ghost tree: Tree, ghost ctx': Ctx, ghost l: Tree, ghost root: RbNode?,
                     copy: Item -> Item, ghost stack: seq<RbNode>, ghost height: int)
      returns (ghost sub': Tree)
    requires Mid(head, s, news, ctx, sub, tree, ctx', y, l, root, copy, stack, height) && sub.n == x && sub.r.Leaf?
    requires s !! news && head !in news
    modifies y
    ensures Copied(head, s, news, ctx, sub, tree, ctx', sub', root, copy, stack, height)
  {
    hide Heap;
    hide Making;
    hide LeftDone;
    hide Plug;
    hide Done;
    hide Stacked;
    hide Begun;
    LeftOf(head, s, ctx, sub);
    ghost var w := Snap(news);
    assert y in w by { MakingIn(w, ctx', y, root); }
    y.color := x.color;
    y.data := copy(x.data);
    y.right := null;
    sub' := Node(sub.c, l, y, copy(sub.x), Leaf);
    NoRight(w, Snap(news), ctx', y, root, l, sub.c, copy(sub.x));
    assert Heap(head, s, ctx, sub);
    assert Same(sub, sub', copy);
  }

  /** Up from right sides, as far as it goes: these nodes are not on the stack. */
  lemma {:induction false} Climb(head: RbNode, s: set<RbNode>, news: set<RbNode>, ctx: Ctx, sub: Tree, tree: Tree, ctx': Ctx,
                                 sub': Tree, root: RbNode?, copy: Item -> Item, stack: seq<RbNode>, height: int)
      returns (c: Ctx, t: Tree, c': Ctx, t': Tree)
    requires Copied(head, s, news, ctx, sub, tree, ctx', sub', root, copy, stack, height)
    ensures Copied(head, s, news, c, t, tree, c', t', root, copy, stack, height)
    ensures (c.Top? || !c.d) && Rest(c) == Rest(ctx)
    decreases ctx
  {
    if ctx.Top? || !ctx.d {
      c, t, c', t' := ctx, sub, ctx', sub';
    } else {
      Up(head, s, true, ctx.c, ctx.n, ctx.x, ctx.sib, ctx.up, sub);
      RightDone(Snap(news), ctx', sub', root);
      hide Heap;
      hide Done;
      c, t, c', t' := Climb(head, s, news, ctx.up, Node(ctx.c, ctx.sib, ctx.n, ctx.x, sub), tree, ctx'.up,
                            Node(ctx'.c, ctx'.sib, ctx'.n, ctx'.x, sub'), root, copy, stack, height);
    }
  }

  /** rb.c:853-857: at the bottom of the stack all is copied; else the pair on top is where to go on. */
  lemma Pop(head: RbNode, s: set<RbNode>, news: set<RbNode>, c: Ctx, t: Tree, tree: Tree, c': Ctx,
            t': Tree, root: RbNode?, copy: Item -> Item, stack: seq<RbNode>, height: int)
    requires Copied(head, s, news, c, t, tree, c', t', root, copy, stack, height) && (c.Top? || !c.d)
    ensures height <= 2 <==> c.Top?
    ensures c.Top? ==> t == tree && Same(tree, t', copy) && Rep(Snap(news), t') && root == Ptr(t') && Own(t') <= news
    ensures c.Fr? ==>
              && c'.Fr? && height >= 4 && stack[height - 2] == c.n
              && stack[height - 1] == c'.n && c'.n in news
              && Mid(head, s, news, c.up, Node(c.c, t, c.n, c.x, c.sib), tree, c'.up, c'.n, t', root, copy, stack, height - 2)
              && 1 + Size(c.sib) + Rest(c.up) == Rest(c)
  {
    if c.Fr? {
      Up(head, s, false, c.c, c.n, c.x, c.sib, c.up, t);
      BackLeft(Snap(news), c', t', root);
    }
  }

  /** One completed node: on to its right child, or back to the stack, or the end. */
  method Finish(head: RbNode, ghost s: set<RbNode>, ghost news0: set<RbNode>, x0: RbNode, y0: RbNode,
                ghost ctx0: Ctx, ghost sub0: Tree, ghost tree: Tree, ghost ctx0': Ctx, ghost l0: Tree, ghost root: RbNode?,
                copy: Item -> Item, stack0: seq<RbNode>, height0: int)
      returns (more: bool, x: RbNode, y: RbNode, stack: seq<RbNode>, height: int, ghost news: set<RbNode>,
               ghost ctx: Ctx, ghost sub: Tree, ghost ctx': Ctx, ghost l: Tree)
    requires Mid(head, s, news0, ctx0, sub0, tree, ctx0', y0, l0, root, copy, stack0, height0) && sub0.n == x0
    requires s !! news0 && head !in news0 && y0 in news0 && Height(tree) <= 126
    modifies news0
    ensures news0 <= news && fresh(news - news0)
    ensures more ==>
              && Mid(head, s, news, ctx, sub, tree, ctx', y, l, root, copy, stack, height) && sub.Node? && sub.n == x && y in news
              && Size(sub.r) + Rest(ctx) < Size(sub0.r) + Rest(ctx0)
    ensures !more ==> Same(tree, l, copy) && Rep(Snap(news), l) && root == Ptr(l) && Own(l) <= news
  {
    hide *;
    MidReads(head, s, news0, ctx0, sub0, tree, ctx0', y0, l0, root, copy, stack0, height0);
    x, y, stack, height, news := x0, y0, stack0, height0, news0;
    if x.right != null {
      RightMeasure(ctx0, sub0);
      y, news, ctx, ctx' := RightStep(head, s, news, x, y, ctx0, sub0, tree, ctx0', l0, root, copy, stack, height);
      x, y, stack, height, news, ctx, sub, ctx' :=
        DescendLeft(head, s, news, x.right, y, ctx, sub0.r, tree, ctx', root, copy, stack, height);
      l, more := Leaf, true;
      MidAtLeaf(head, s, news, ctx, sub, tree, ctx', y, root, copy, stack, height);
    } else {
      l := NoRightStep(head, s, news, x, y, ctx0, sub0, tree, ctx0', l0, root, copy, stack, height);
      ghost var c, t, c';
      c, t, c', l := Climb(head, s, news, ctx0, sub0, tree, ctx0', l, root, copy, stack, height);
      Pop(head, s, news, c, t, tree, c', l, root, copy, stack, height);
      if height <= 2 {
        more := false;
        ctx, sub, ctx' := ctx0, sub0, ctx0';
        return;
      }
      y, x := stack[height - 1], stack[height - 2];
      height := height - 2;
      ctx, sub, ctx', more := c.up, Node(c.c, t, c.n, c.x, c.sib), c'.up, true;
    }
  }

  lemma MidReads(head: RbNode, s: set<RbNode>, news: set<RbNode>, ctx: Ctx, sub: Tree, tree: Tree, ctx': Ctx,
                 y: RbNode, l: Tree, root: RbNode?, copy: Item -> Item, stack: seq<RbNode>, height: int)
    requires Mid(head, s, news, ctx, sub, tree, ctx', y, l, root, copy, stack, height)
    ensures sub.Node? && sub.n in s && sub.n.right == if sub.r.Leaf? then null else sub.r.n
    ensures |stack| == STACK_SIZE && 2 <= height <= STACK_SIZE
  {
    LeftOf(head, s, ctx, sub);
  }

  lemma RightMeasure(ctx: Ctx, sub: Tree)
    requires sub.Node? && sub.r.Node?
    ensures Rest(Fr(true, sub.c, sub.n, sub.x, sub.l, ctx)) == Rest(ctx)
  {
  }

  lemma MidAtLeaf(head: RbNode, s: set<RbNode>, news: set<RbNode>, ctx: Ctx, sub: Tree, tree: Tree, ctx': Ctx,
                  y: RbNode, root: RbNode?, copy: Item -> Item, stack: seq<RbNode>, height: int)
    requires At(head, s, news, ctx, sub, tree, ctx', y, root, copy, stack, height) && sub.l.Leaf?
    requires LeftDone(Snap(news), ctx', y, Leaf)
    ensures Mid(head, s, news, ctx, sub, tree, ctx', y, Leaf, root, copy, stack, height)
    ensures sub.Node? && Size(sub) == Size(sub.r) + 1
  {
    hide Making;
    hide LeftDone;
    hide Heap;
  }

  lemma RootLink(head: RbNode, s: set<RbNode>, tree: Tree)
    requires Heap(head, s, Top, tree) && tree.Node?
    ensures head.left == tree.n && head !in s
  {
  }

  lemma StartAt(head: RbNode, s: set<RbNode>, news: set<RbNode>, tree: Tree, y: RbNode, copy: Item -> Item, stack: seq<RbNode>)
    requires Heap(head, s, Top, tree) && tree.Node? && news == {y} && |stack| == STACK_SIZE
    ensures At(head, s, news, Top, tree, tree, Top, y, y, copy, stack, 2)
  {
    hide Heap;
  }

  /** The first pass of rb.c:793-816, at the two root links. */
  method CopyStart(head: RbNode, ghost s: set<RbNode>, ghost tree: Tree, newHead: RbNode, copy: Item -> Item)
      returns (x: RbNode, y: RbNode, stack: seq<RbNode>, height: int, ghost root: RbNode, ghost news: set<RbNode>,
               ghost ctx: Ctx, ghost sub: Tree, ghost ctx': Ctx)
    requires Heap(head, s, Top, tree) && tree.Node? && Height(tree) <= 126 && newHead !in s && newHead != head
    modifies newHead
    ensures fresh(news) && newHead.left == root && Heap(head, s, Top, tree)
    ensures s !! news && head !in news && newHead !in news
    ensures Mid(head, s, news, ctx, sub, tree, ctx', y, Leaf, root, copy, stack, height)
    ensures sub.Node? && sub.n == x && y in news
  {
    stack := seq(STACK_SIZE, i => if i == 0 then head else newHead);
    hide *;
    y := new RbNode.Malloc();
    newHead.left := y;
    height := 2;
    RootLink(head, s, tree);
    x := head.left;
    root, news := y, {y};
    ctx, sub, ctx' := Top, tree, Top;
    StartAt(head, s, news, tree, y, copy, stack);
    x, y, stack, height, news, ctx, sub, ctx' :=
      DescendLeft(head, s, news, x, y, ctx, sub, tree, ctx', root, copy, stack, height);
    MidAtLeaf(head, s, news, ctx, sub, tree, ctx', y, root, copy, stack, height);
  }

  /** rb.c:793-859: the first pass and the loop. */
  method CopyNodes(head: RbNode, ghost s: set<RbNode>, ghost tree: Tree, newHead: RbNode, copy: Item -> Item)
      returns (ghost news: set<RbNode>, ghost t: Tree)
    requires Heap(head, s, Top, tree) && tree.Node? && Height(tree) <= 126 && newHead !in s && newHead != head
    modifies newHead
    ensures fresh(news) && Same(tree, t, copy) && Rep(Snap(news), t) && newHead.left == Ptr(t) && Own(t) <= news
    ensures Heap(head, s, Top, tree) && newHead !in news
  {
    hide *;
    ghost var root, ctx, sub, ctx';
    ghost var l := Leaf;
    var x, y, stack, height;
    x, y, stack, height, root, news, ctx, sub, ctx' := CopyStart(head, s, tree, newHead, copy);
    var more := true;
    while more
      invariant fresh(news) && newHead.left == root && Heap(head, s, Top, tree) && s !! news && head !in news && newHead !in news
      invariant more ==> Mid(head, s, news, ctx, sub, tree, ctx', y, l, root, copy, stack, height)
                         && sub.Node? && sub.n == x && y in news
      invariant !more ==> Same(tree, l, copy) && Rep(Snap(news), l) && root == Ptr(l) && Own(l) <= news
      decreases more, if more then Size(sub.r) + Rest(ctx) else 0
    {
      more, x, y, stack, height, news, ctx, sub, ctx', l :=
        Finish(head, s, news, x, y, ctx, sub, tree, ctx', l, root, copy, stack, height);
    }
    t := l;
  }

  lemma {:induction false} SameKeeps(t: Tree, t': Tree, copy: Item -> Item, h: nat)
    requires Same(t, t', copy)
    ensures RB(t, h) <==> RB(t', h)
    ensures Size(t') == Size(t) && IsBlack(t) == IsBlack(t') && Height(t') == Height(t)
    ensures |Flat(t')| == |Flat(t)| && forall i :: 0 <= i < |Flat(t)| ==> Flat(t')[i].x == copy(Flat(t)[i].x)
    decreases t
  {
    if t.Node? {
      var g := if t.c == Red then h else if h > 0 then h - 1 else 0;
      SameKeeps(t.l, t'.l, copy, g);
      SameKeeps(t.r, t'.r, copy, g);
    }
  }

  /** The copied items stand where the originals stand, as far as their keys tell. */
  predicate KeepsKeys(t: Tree, copy: Item -> Item) {
    match t
    case Leaf => true
    case Node(_, l, _, x, r) => copy(x).key == x.key && KeepsKeys(l, copy) && KeepsKeys(r, copy)
  }

  lemma {:induction false} SameBst(t: Tree, t': Tree, copy: Item -> Item, lo: int, hi: int)
    requires Same(t, t', copy) && KeepsKeys(t, copy) && Bst(t, lo, hi)
    ensures Bst(t', lo, hi)
    decreases t
  {
    if t.Node? {
      SameBst(t.l, t'.l, copy, lo, t.x.key);
      SameBst(t.r, t'.r, copy, t.x.key, hi);
    }
  }

  /** rb_copy, rb.c:769-860, with allocation and `copy` succeeding: shape, colours and mapped items of the
      original, in nodes of its own; the original stays as it is. */
  method Copy(org: Table, copy: Item -> Item) returns (table: Table)
    requires org.Valid()
    ensures fresh(table) && fresh(table.head) && fresh(Nodes(table.tree))
    ensures org.Valid() && Same(org.tree, table.tree, copy) && table.count == org.count
    ensures |table.Entries()| == |org.Entries()|
    ensures forall i :: 0 <= i < |org.Entries()| ==> table.Entries()[i].x == copy(org.Entries()[i].x)
    ensures KeepsKeys(org.tree, copy) ==> table.Valid()
  {
    hide Heap;
    hide Balanced;
    hide Flat;
    hide Size;
    hide Nodes;
    hide Same;
    hide KeepsKeys;
    hide Rep;
    ghost var s := Nodes(org.tree);
    EmptyOrNot(org);
    table := NewTable(org, s);
    if org.count == 0 {
      SameLeaf(copy);
      NodesOwn(Leaf);
      SameKeeps(Leaf, Leaf, copy, 0);
      return;
    }
    ghost var news, t;
    news, t := CopyNodes(org.head, s, org.tree, table.head, copy);
    NodesOwn(t);
    SameKeeps(org.tree, t, copy, 0);
    if KeepsKeys(org.tree, copy) { CopyHeap(org, table.head, t, news, copy); }
    table.count := org.count;
    table.tree := t;
  }

  lemma SameLeaf(copy: Item -> Item)
    ensures Same(Leaf, Leaf, copy)
  {
  }

  lemma EmptyOrNot(org: Table)
    requires org.Valid()
    ensures org.count == 0 <==> org.tree == Leaf
    ensures Height(org.tree) <= 126
  {
    PathBound(org.tree);
  }

  /** rb_create, rb.c:36-63, beside an existing table. */
  method NewTable(ghost org: Table, ghost s: set<RbNode>) returns (table: Table)
    requires org.Valid() && s == Nodes(org.tree)
    ensures fresh(table) && fresh(table.head) && table.head != org.head && table.head !in s
    ensures org.Valid() && Heap(org.head, s, Top, org.tree)
    ensures table.Valid() && table.tree == Leaf && table.count == table.generation == table.stamp == 0
  {
    hide Heap;
    table := new Table();
  }

  lemma {:induction false} NodesOwn(t: Tree)
    ensures Nodes(t) == Own(t)
  {
    if t.Node? {
      NodesOwn(t.l);
      NodesOwn(t.r);
      forall n ensures n in Nodes(t) <==> n in Own(t) {
        if n in Own(t) && n != t.n {
          if n in Nodes(t.l) {
            var e :| e in Flat(t.l) && e.n == n;
            assert e in Flat(t);
          } else {
            var e :| e in Flat(t.r) && e.n == n;
            assert e in Flat(t);
          }
        }
        if n == t.n { assert Entry(t.n, t.x) in Flat(t); }
      }
    }
  }

  lemma CopyHeap(org: Table, head: RbNode, t: Tree, news: set<RbNode>, copy: Item -> Item)
    requires Heap(org.head, Nodes(org.tree), Top, org.tree) && Balanced(org.tree)
    requires KeepsKeys(org.tree, copy) && Same(org.tree, t, copy)
    requires Rep(Snap(news), t) && head.left == Ptr(t) && head !in news
    ensures Heap(head, Nodes(t), Top, t) && Balanced(t)
  {
    var h := BalancedHeight(org.tree);
    SameKeeps(org.tree, t, copy, h);
    SameBst(org.tree, t, copy, -1, KEY_END);
    assert Heap(head, news, Top, t);
    Shrink(head, news, t);
  }
}
