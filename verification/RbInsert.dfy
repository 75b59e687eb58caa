/** The upward loop of rb_probe (rb.c:128-199). */
module RbInsert {
  import opened RbShape
  import opened RbRules
  import opened RbSteps

  lemma PlugFlatEq(ctx: Ctx, t: Tree, t': Tree)
    requires Flat(t) == Flat(t')
    ensures Flat(Plug(ctx, t)) == Flat(Plug(ctx, t'))
  {
    PlugFlat(ctx, t);
    PlugFlat(ctx, t');
  }

  lemma MkRB(d: bool, c: Color, a: Tree, n: RbNode, x: Item, b: Tree, h: nat)
    ensures RB(Mk(d, Red, a, n, x, b), h) <==> RB(a, h) && RB(b, h) && IsBlack(a) && IsBlack(b)
    ensures RB(Mk(d, Black, a, n, x, b), h + 1) <==> RB(a, h) && RB(b, h)
  {
  }

  lemma OpenRed(ctx: Ctx, h: nat)
    requires CtxRB(ctx, h) && ctx.Fr? && ctx.c == Red
    ensures ctx.up.Fr? && ctx.up.c == Black
    ensures RB(ctx.sib, h) && IsBlack(ctx.sib) && RB(ctx.up.sib, h) && CtxRB(ctx.up.up, h + 1)
  {
  }

  /** A node on the heap, below a context or at its end. */
  lemma OnHeap(head: RbNode, s: set<RbNode>, ctx: Ctx, t: Tree)
    requires Heap(head, s, ctx, t)
    ensures ctx.Fr? ==> ctx.n in s && (if ctx.d then ctx.n.right else ctx.n.left) == Ptr(t)
    ensures t.Node? ==> t.n in s && t.n.left == Ptr(t.l) && t.n.right == Ptr(t.r) && t.n.color == t.c && t.n.data == t.x
  {
  }

  /** The node above the hole, and its other child. */
  lemma Around(head: RbNode, s: set<RbNode>, ctx: Ctx, t: Tree)
    requires Heap(head, s, ctx, t) && ctx.Fr?
    ensures ctx.n in s && ctx.n.color == ctx.c && ctx.n.data == ctx.x
    ensures ctx.n.Link(ctx.d) == Ptr(t) && ctx.n.Link(!ctx.d) == Ptr(ctx.sib)
    ensures ctx.sib.Node? ==> ctx.sib.n in s && ctx.sib.n.color == ctx.sib.c
                              && ctx.sib.n.left == Ptr(ctx.sib.l) && ctx.sib.n.right == Ptr(ctx.sib.r)
  {
  }

  /** The colours of a node's children. */
  lemma Children(head: RbNode, s: set<RbNode>, ctx: Ctx, t: Tree)
    requires Heap(head, s, ctx, t) && t.Node?
    ensures t.n in s && t.n.left == Ptr(t.l) && t.n.right == Ptr(t.r)
    ensures t.l.Node? ==> t.l.n in s && t.l.n.color == t.l.c
    ensures t.r.Node? ==> t.r.n in s && t.r.n.color == t.r.c
  {
    assert Rep(Snap(s), t.l) && Rep(Snap(s), t.r);
  }

  /** A red node `t` hangs below `ctx`, and is the only place where red may meet red. */
  ghost predicate RedAt(head: RbNode, s: set<RbNode>, ctx: Ctx, t: Tree, h: nat)
    reads head, s
  {
    Heap(head, s, ctx, t) && CtxRB(ctx, h) && RB(t, h) && t.Node? && t.c == Red
  }

  lemma RecolorFlat(d: bool, c: Color, a: Tree, n: RbNode, x: Item, b: Tree, c': Color, a': Tree, b': Tree)
    requires Flat(a) == Flat(a') && Flat(b) == Flat(b')
    ensures Flat(Mk(d, c, a, n, x, b)) == Flat(Mk(d, c', a', n, x, b'))
  {
  }

  /** rb.c:133-138 and 167-172: a red uncle.  The red node moves up two levels. */
  method Recolor(head: RbNode, ghost s: set<RbNode>, ghost ctx: Ctx, ghost t: Tree, ghost h: nat,
                 p: RbNode, y: RbNode, g: RbNode) returns (ghost t': Tree)
    requires RedAt(head, s, ctx, t, h) && ctx.Fr? && ctx.c == Red
    requires ctx.up.Fr? && ctx.up.sib.Node? && ctx.up.sib.c == Red
    requires p == ctx.n && g == ctx.up.n && y == ctx.up.sib.n
    modifies p`color, y`color, g`color
    ensures RedAt(head, s, ctx.up.up, t', h + 1)
    ensures Flat(Plug(ctx.up.up, t')) == Flat(Plug(ctx, t))
  {
    hide Heap;
    OpenRed(ctx, h);
    hide CtxRB;
    ghost var Fr(d1, _, _, px, sib, c2) := ctx;
    ghost var Fr(d2, _, _, gx, u, up) := c2;
    ghost var pt, pt', u' := Mk(d1, Red, t, p, px, sib), Mk(d1, Black, t, p, px, sib), u.(c := Black);
    MkRB(d1, Black, t, p, px, sib, h);
    MkRB(false, Black, u.l, u.n, u.x, u.r, h);
    MkRB(d2, Red, pt', g, gx, u', h + 1);
    RecolorFlat(d1, Red, t, p, px, sib, Black, t, sib);
    RecolorFlat(d2, Black, pt, g, gx, u, Red, pt', u');
    t' := Mk(d2, Red, pt', g, gx, u');
    PlugFlatEq(up, Mk(d2, Black, pt, g, gx, u), t');
    hide RB;
    Up(head, s, d1, Red, p, px, sib, c2, t);
    SetColor(head, s, c2, pt, p, Black);
    Up(head, s, d2, Black, g, gx, u, up, pt');
    Up(head, s, !d2, Black, g, gx, pt', up, u);
    SetColor(head, s, Fr(!d2, Black, g, gx, pt', up), u, y, Black);
    Up(head, s, !d2, Black, g, gx, pt', up, u');
    SetColor(head, s, up, Mk(!d2, Black, u', g, gx, pt'), g, Red);
  }

  /** rb.c:154-160 and 188-194. */
  method OuterRotation(head: RbNode, ghost s: set<RbNode>, y: RbNode, g: RbNode, top: RbNode, d: bool, dtop: bool,
                       ghost a: Tree, ghost yx: Item, ghost b: Tree, ghost gx: Item, ghost u: Tree, ghost up: Ctx)
    requires Heap(head, s, up, Mk(d, Black, Mk(d, Red, a, y, yx, b), g, gx, u)) && IsSlot(head, up, top, dtop)
    modifies g, y, top
    ensures Heap(head, s, up, Mk(d, Black, a, y, yx, Mk(d, Red, b, g, gx, u)))
  {
    hide Heap;
    ghost var yt, yt' := Mk(d, Red, a, y, yx, b), Mk(d, Black, a, y, yx, b);
    SetColor(head, s, up, Mk(d, Black, yt, g, gx, u), g, Red);
    Up(head, s, d, Red, g, gx, u, up, yt);
    SetColor(head, s, Fr(d, Red, g, gx, u, up), yt, y, Black);
    Up(head, s, d, Red, g, gx, u, up, yt');
    RotateUp(head, s, top, dtop, d, g, y, Red, Black, a, yx, b, gx, u, up);
  }

  /** rb.c:147-151 and 180-185: an inner red child is first lifted over its red parent, so that in
      either case the upper red node `y` has its red child on the outer side `d`. */
  method InnerRotation(head: RbNode, ghost s: set<RbNode>, ghost ctx: Ctx, ghost t: Tree, ghost h: nat,
                       p: RbNode, dp: bool, g: RbNode, d: bool)
      returns (y: RbNode, ghost a: Tree, ghost yx: Item, ghost b: Tree)
    requires RedAt(head, s, ctx, t, h) && ctx.Fr? && ctx.c == Red && ctx.up.Fr?
    requires p == ctx.n && dp == ctx.d && g == ctx.up.n && d == ctx.up.d
    modifies s
    ensures Heap(head, s, ctx.up, Mk(d, Red, a, y, yx, b))
    ensures RB(a, h) && RB(b, h) && IsBlack(b)
    ensures Flat(Mk(d, Red, a, y, yx, b)) == Flat(Mk(dp, Red, t, p, ctx.x, ctx.sib))
  {
    OpenRed(ctx, h);
    OnHeap(head, s, ctx, t);
    Up(head, s, dp, Red, p, ctx.x, ctx.sib, ctx.up, t);
    OnHeap(head, s, ctx.up, Mk(dp, Red, t, p, ctx.x, ctx.sib));
    hide Heap;
    if dp == d {
      y, a, yx, b := p, t, ctx.x, ctx.sib;
    } else {
      y := p.Link(!d);
      ghost var ta, tb := Child(t, d), Child(t, !d);
      MkRB(!d, Red, tb, y, t.x, ta, h);
      MkRB(d, Red, ctx.sib, p, ctx.x, ta, h);
      RotateFlat(!d, Red, Red, tb, y, t.x, ta, p, ctx.x, ctx.sib);
      RotateUp(head, s, g, d, !d, p, y, Red, Red, tb, t.x, ta, ctx.x, ctx.sib, ctx.up);
      a, yx, b := Mk(!d, Red, ta, p, ctx.x, ctx.sib), t.x, tb;
    }
  }

  /** rb.c:139-162 and 173-196: no red uncle.  One or two rotations end the loop. */
  method Rebalance(head: RbNode, ghost s: set<RbNode>, ghost ctx: Ctx, ghost t: Tree, ghost h: nat,
                   p: RbNode, g: RbNode, top: RbNode, dp: bool, d: bool, dtop: bool) returns (ghost t': Tree)
    requires RedAt(head, s, ctx, t, h) && ctx.Fr? && ctx.c == Red && ctx.up.Fr? && IsBlack(ctx.up.sib)
    requires p == ctx.n && dp == ctx.d && g == ctx.up.n && d == ctx.up.d && IsSlot(head, ctx.up.up, top, dtop)
    modifies s, head
    ensures Heap(head, s, ctx.up.up, t')
    ensures CtxRB(ctx.up.up, h + 1) && RB(t', h + 1) && IsBlack(t')
    ensures Flat(Plug(ctx.up.up, t')) == Flat(Plug(ctx, t))
  {
    OpenRed(ctx, h);
    ghost var Fr(_, _, _, px, sib, c2) := ctx;
    ghost var Fr(_, _, _, gx, u, up) := c2;
    var y;
    ghost var a, yx, b;
    y, a, yx, b := InnerRotation(head, s, ctx, t, h, p, dp, g, d);
    hide CtxRB;
    ghost var yt := Mk(d, Red, a, y, yx, b);
    Up(head, s, d, Black, g, gx, u, up, yt);
    MkRB(d, Red, b, g, gx, u, h);
    MkRB(d, Black, a, y, yx, Mk(d, Red, b, g, gx, u), h);
    RotateFlat(d, Black, Red, a, y, yx, b, g, gx, u);
    RecolorFlat(d, Red, b, g, gx, u, Black, b, u);
    RecolorFlat(d, Red, a, y, yx, Mk(d, Black, b, g, gx, u), Black, a, Mk(d, Red, b, g, gx, u));
    RecolorFlat(d, Black, Mk(dp, Red, t, p, px, sib), g, gx, u, Black, yt, u);
    t' := Mk(d, Black, a, y, yx, Mk(d, Red, b, g, gx, u));
    PlugFlatEq(up, Mk(d, Black, Mk(dp, Red, t, p, px, sib), g, gx, u), t');
    hide RB;
    OnHeap(head, s, up, Mk(d, Black, yt, g, gx, u));
    Up(head, s, d, Black, g, gx, u, up, yt);
    OnHeap(head, s, c2, yt);
    hide Heap;
    OuterRotation(head, s, y, g, top, d, dtop, a, yx, b, gx, u, up);
  }

  /** rb.c:199: the root is painted black. */
  method PaintRoot(head: RbNode, ghost s: set<RbNode>, ghost ctx: Ctx, ghost t: Tree, ghost h: nat) returns (ghost tree: Tree)
    requires Heap(head, s, ctx, t) && CtxRB(ctx, h) && RB(t, h) && t.Node?
    requires ctx.Top? || Fits(ctx, t)
    modifies s
    ensures Heap(head, s, Top, tree) && Balanced(tree)
    ensures Flat(tree) == Flat(Plug(ctx, t))
  {
    ghost var whole := Plug(ctx, t);
    Within(head, s, ctx, t);
    PlugNode(ctx, t);
    if ctx.Fr? { PlugRB(ctx, t, h); }
    OnHeap(head, s, Top, whole);
    SetColor(head, s, Top, whole, head.left, Black);
    tree := whole.(c := Black);
    RecolorFlat(false, whole.c, whole.l, whole.n, whole.x, whole.r, Black, whole.l, whole.r);
    if ctx.Top? { assert RB(tree, if t.c == Black then h else h + 1); } else { assert tree == whole; }
  }

  lemma {:induction false} PlugNode(ctx: Ctx, t: Tree)
    requires t.Node?
    ensures Plug(ctx, t).Node?
  {
    if ctx.Fr? {
      PlugNode(ctx.up, Mk(ctx.d, ctx.c, t, ctx.n, ctx.x, ctx.sib));
    }
  }

  /** rb.c:128-199: restore the balance after a red node has been hung below `ctx0`. */
  method FixUp(head: RbNode, ghost s: set<RbNode>, ghost ctx0: Ctx, ghost t0: Tree, ghost h0: nat,
               pa: seq<RbNode>, da: seq<bool>, k0: int) returns (ghost tree: Tree)
    requires RedAt(head, s, ctx0, t0, h0) && OnStack(head, ctx0, pa, da, k0)
    modifies s, head
    ensures Heap(head, s, Top, tree) && Balanced(tree)
    ensures Flat(tree) == Flat(Plug(ctx0, t0))
  {
    var k := k0;
    ghost var ctx, t, h := ctx0, t0, h0;
    hide Heap;
    hide Flat;
    hide Plug;
    StackDepth(head, ctx, pa, da, k);
    while k >= 3 && pa[k - 1].color == Red
      invariant RedAt(head, s, ctx, t, h) && OnStack(head, ctx, pa, da, k)
      invariant k == Depth(ctx) + 1
      invariant Flat(Plug(ctx, t)) == Flat(Plug(ctx0, t0))
      decreases k
    {
      Around(head, s, ctx, t);
      Up(head, s, ctx.d, ctx.c, ctx.n, ctx.x, ctx.sib, ctx.up, t);
      Around(head, s, ctx.up, Mk(ctx.d, ctx.c, t, ctx.n, ctx.x, ctx.sib));
      var y := pa[k - 2].Link(!da[k - 2]);
      if y != null && y.color == Red {
        t := Recolor(head, s, ctx, t, h, pa[k - 1], y, pa[k - 2]);
        ctx, h := ctx.up.up, h + 1;
        k := k - 2;
      } else {
        assert OnStack(head, ctx.up, pa, da, k - 1) && OnStack(head, ctx.up.up, pa, da, k - 2);
        t := Rebalance(head, s, ctx, t, h, pa[k - 1], pa[k - 2], pa[k - 3], da[k - 1], da[k - 2], da[k - 3]);
        ctx, h := ctx.up.up, h + 1;
        break;
      }
    }
    if ctx.Fr? { Around(head, s, ctx, t); }
    tree := PaintRoot(head, s, ctx, t, h);
  }
}
