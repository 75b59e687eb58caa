/** The fix-up loop of rb_delete (rb.c:311-426). */
module RbDelete {
  import opened RbShape
  import opened RbRules
  import opened RbSteps
  import opened RbInsert

  function Blacken(t: Tree): Tree { if t.Leaf? then t else t.(c := Black) }

  /** The tree below `ctx` is one black node short; when its root is red, painting that root
      black makes up for it (its children may then be red as well). */
  predicate Short(t: Tree, h: nat) {
    if IsBlack(t) then RB(t, h) else RB(Blacken(t), h + 1)
  }

  ghost predicate ShortAt(head: RbNode, s: set<RbNode>, ctx: Ctx, t: Tree, h: nat)
    reads head, s
  {
    Heap(head, s, ctx, t) && CtxRB(ctx, h + 1) && Short(t, h)
  }

  /** The sibling of a short black tree exists, and what its colour says about its children. */
  lemma OpenSibling(ctx: Ctx, h: nat)
    requires CtxRB(ctx, h + 1) && ctx.Fr?
    ensures RB(ctx.sib, h + 1) && ctx.sib.Node?
    ensures ctx.c == Black ==> CtxRB(ctx.up, h + 2)
    ensures ctx.c == Red ==> IsBlack(ctx.sib) && ctx.up.Fr? && ctx.up.c == Black && CtxRB(ctx.up, h + 1)
    ensures ctx.sib.c == Red ==> ctx.c == Black && RB(ctx.sib.l, h + 1) && RB(ctx.sib.r, h + 1)
                                 && IsBlack(ctx.sib.l) && IsBlack(ctx.sib.r)
    ensures ctx.sib.c == Black ==> RB(ctx.sib.l, h) && RB(ctx.sib.r, h)
  {
  }

  /** The whole seen from the sibling's place. */
  lemma Across(head: RbNode, s: set<RbNode>, d: bool, c: Color, n: RbNode, x: Item, a: Tree, b: Tree, up: Ctx)
    ensures Heap(head, s, Fr(d, c, n, x, b, up), a) <==> Heap(head, s, Fr(!d, c, n, x, a, up), b)
  {
    Up(head, s, d, c, n, x, b, up, a);
    Up(head, s, !d, c, n, x, a, up, b);
  }

  lemma PlugUpFlat(up: Ctx, t: Tree, d: bool, c: Color, n: RbNode, x: Item, a: Tree, b: Tree)
    requires Flat(t) == Flat(Mk(d, c, a, n, x, b))
    ensures Flat(Plug(up, t)) == Flat(Plug(Fr(d, c, n, x, b, up), a))
  {
    PlugFlatEq(up, t, Mk(d, c, a, n, x, b));
  }

  /** rb.c:328-343 and 377-392: a red sibling is lifted, leaving a black sibling. */
  method LiftSibling(head: RbNode, ghost s: set<RbNode>, ghost ctx: Ctx, ghost t: Tree, ghost h: nat,
                     p: RbNode, d: bool, w: RbNode, top: RbNode, dtop: bool) returns (ghost ctx': Ctx)
    requires ShortAt(head, s, ctx, t, h) && ctx.Fr? && p == ctx.n && d == ctx.d && IsSlot(head, ctx.up, top, dtop)
    requires ctx.sib.Node? && ctx.sib.n == w && ctx.sib.c == Red
    modifies s, head
    ensures ShortAt(head, s, ctx', t, h) && Flat(Plug(ctx', t)) == Flat(Plug(ctx, t))
    ensures ctx'.Fr? && ctx'.n == p && ctx'.c == Red && ctx'.d == d && ctx'.sib == Child(ctx.sib, d) && IsBlack(ctx'.sib)
    ensures ctx'.up.Fr? && ctx'.up.n == w && ctx'.up.d == d && ctx'.up.up == ctx.up
  {
    OpenSibling(ctx, h);
    ghost var Fr(_, _, _, px, wt, up) := ctx;
    ghost var wa, wx, wb := Child(wt, d), wt.x, Child(wt, !d);
    ghost var wt' := wt.(c := Black);
    ctx' := Fr(d, Red, p, px, wa, Fr(d, Black, w, wx, wb, up));
    assert CtxRB(ctx', h + 1);
    RotateFlat(!d, Black, Red, wb, w, wx, wa, p, px, t);
    RecolorFlat(!d, Black, wt, p, px, t, Black, wt, t);
    PlugUpFlat(up, Mk(!d, Red, wb, w, wx, Mk(!d, Black, wa, p, px, t)), d, Black, p, px, t, wt);
    RecolorFlat(d, Red, t, p, px, wa, Black, t, wa);
    RecolorFlat(d, Black, Mk(d, Red, t, p, px, wa), w, wx, wb, Red, Mk(d, Black, t, p, px, wa), wb);
    PlugFlatEq(up, Mk(d, Black, Mk(d, Red, t, p, px, wa), w, wx, wb), Mk(!d, Red, wb, w, wx, Mk(!d, Black, wa, p, px, t)));
    OnHeap(head, s, ctx, t);
    hide CtxRB;
    Across(head, s, d, Black, p, px, t, wt, up);
    OnHeap(head, s, Fr(!d, Black, p, px, t, up), wt);
    Up(head, s, d, Black, p, px, wt, up, t);
    OnHeap(head, s, up, Mk(d, Black, t, p, px, wt));
    hide Heap;
    hide RB;
    SetColor(head, s, Fr(!d, Black, p, px, t, up), wt, w, Black);
    Up(head, s, !d, Black, p, px, t, up, wt');
    SetColor(head, s, up, Mk(!d, Black, wt', p, px, t), p, Red);
    RotateUp(head, s, top, dtop, !d, p, w, Red, Black, wb, wx, wa, px, t, up);
    Up(head, s, d, Black, w, wx, wb, up, Mk(d, Red, t, p, px, wa));
    Up(head, s, d, Red, p, px, wa, Fr(d, Black, w, wx, wb, up), t);
  }

  /** rb.c:345-349 and 394-398: a black sibling with black children turns red; the parent is now short. */
  method RedSibling(head: RbNode, ghost s: set<RbNode>, ghost ctx: Ctx, ghost t: Tree, ghost h: nat, w: RbNode)
      returns (ghost t': Tree, ghost h': nat)
    requires ShortAt(head, s, ctx, t, h) && ctx.Fr? && IsBlack(t)
    requires ctx.sib.Node? && ctx.sib.n == w && ctx.sib.c == Black && IsBlack(ctx.sib.l) && IsBlack(ctx.sib.r)
    modifies w`color
    ensures ShortAt(head, s, ctx.up, t', h') && Flat(Plug(ctx.up, t')) == Flat(Plug(ctx, t))
    ensures t'.Node? && t'.c == ctx.c
  {
    OpenSibling(ctx, h);
    ghost var Fr(d, c, p, px, wt, up) := ctx;
    ghost var wt' := wt.(c := Red);
    t' := Mk(d, c, t, p, px, wt');
    h' := if c == Black then h + 1 else h;
    MkRB(false, Black, wt.l, w, wt.x, wt.r, h);
    MkRB(false, Red, wt.l, w, wt.x, wt.r, h);
    MkRB(d, Black, t, p, px, wt', h);
    RecolorFlat(d, c, t, p, px, wt, c, t, wt');
    PlugUpFlat(up, t', d, c, p, px, t, wt);
    hide RB;
    hide CtxRB;
    hide Heap;
    Across(head, s, d, c, p, px, t, wt, up);
    SetColor(head, s, Fr(!d, c, p, px, t, up), wt, w, Red);
    Across(head, s, d, c, p, px, t, wt', up);
    Up(head, s, d, c, p, px, wt', up, t);
  }

  /** rb.c:352-361 and 401-410: when the far child of the black sibling is not red, its red near
      child is lifted over it and becomes the sibling. */
  method LiftNear(head: RbNode, ghost s: set<RbNode>, ghost ctx: Ctx, ghost t: Tree, ghost h: nat,
                  p: RbNode, d: bool, w0: RbNode) returns (w: RbNode, ghost ctx': Ctx)
    requires ShortAt(head, s, ctx, t, h) && ctx.Fr? && p == ctx.n && d == ctx.d
    requires ctx.sib.Node? && ctx.sib.n == w0 && ctx.sib.c == Black
    requires IsBlack(Child(ctx.sib, !d)) && !IsBlack(Child(ctx.sib, d))
    modifies s
    ensures ShortAt(head, s, ctx', t, h) && Flat(Plug(ctx', t)) == Flat(Plug(ctx, t))
    ensures ctx'.Fr? && ctx'.n == p && ctx'.d == d && ctx'.up == ctx.up && ctx'.c == ctx.c
    ensures ctx'.sib.Node? && ctx'.sib.n == w && ctx'.sib.c == Black && !IsBlack(Child(ctx'.sib, !d))
  {
    OpenSibling(ctx, h);
    ghost var Fr(_, c, _, px, wt, up) := ctx;
    ghost var yt, wb := Child(wt, d), Child(wt, !d);
    ghost var ya, yb := Child(yt, d), Child(yt, !d);
    ghost var yt' := yt.(c := Black);
    ghost var wt' := Mk(d, Black, ya, yt.n, yt.x, Mk(d, Red, yb, w0, wt.x, wb));
    ctx' := Fr(d, c, p, px, wt', up);
    MkRB(d, Red, ya, yt.n, yt.x, yb, h);
    MkRB(d, Red, yb, w0, wt.x, wb, h);
    MkRB(d, Black, ya, yt.n, yt.x, Mk(d, Red, yb, w0, wt.x, wb), h);
    assert CtxRB(ctx', h + 1);
    RotateFlat(d, Black, Red, ya, yt.n, yt.x, yb, w0, wt.x, wb);
    RecolorFlat(d, Red, yb, w0, wt.x, wb, Black, yb, wb);
    RecolorFlat(d, Black, ya, yt.n, yt.x, Mk(d, Red, yb, w0, wt.x, wb), Red, ya, Mk(d, Black, yb, w0, wt.x, wb));
    RecolorFlat(d, c, t, p, px, wt, c, t, wt');
    PlugUpFlat(up, Mk(d, c, t, p, px, wt'), d, c, p, px, t, wt);
    hide RB;
    hide CtxRB;
    ghost var wctx := Fr(!d, c, p, px, t, up);
    Across(head, s, d, c, p, px, t, wt, up);
    OnHeap(head, s, wctx, wt);
    Up(head, s, d, Black, w0, wt.x, wb, wctx, yt);
    OnHeap(head, s, Fr(d, Black, w0, wt.x, wb, wctx), yt);
    var y := w0.Link(d);
    hide Heap;
    SetColor(head, s, Fr(d, Black, w0, wt.x, wb, wctx), yt, y, Black);
    Up(head, s, d, Black, w0, wt.x, wb, wctx, yt');
    SetColor(head, s, wctx, Mk(d, Black, yt', w0, wt.x, wb), w0, Red);
    RotateUp(head, s, p, !d, d, w0, y, Red, Black, ya, yt.x, yb, wt.x, wb, wctx);
    Across(head, s, d, c, p, px, t, wt', up);
    w := y;
  }

  /** rb.c:363-370 and 412-419: a black sibling with a red far child is lifted over the parent; the
      short tree gains a black node and the work is done. */
  method LiftFar(head: RbNode, ghost s: set<RbNode>, ghost ctx: Ctx, ghost t: Tree, ghost h: nat,
                 p: RbNode, d: bool, w: RbNode, top: RbNode, dtop: bool) returns (ghost t': Tree, ghost h': nat)
    requires ShortAt(head, s, ctx, t, h) && ctx.Fr? && IsBlack(t)
    requires p == ctx.n && d == ctx.d && IsSlot(head, ctx.up, top, dtop)
    requires ctx.sib.Node? && ctx.sib.n == w && ctx.sib.c == Black && !IsBlack(Child(ctx.sib, !d))
    modifies s, head
    ensures Heap(head, s, ctx.up, t') && CtxRB(ctx.up, h') && RB(t', h') && Fits(ctx.up, t')
    ensures Flat(Plug(ctx.up, t')) == Flat(Plug(ctx, t))
  {
    OpenSibling(ctx, h);
    ghost var Fr(_, c, _, px, wt, up) := ctx;
    ghost var wa, wx, wb := Child(wt, d), wt.x, Child(wt, !d);
    ghost var wb' := wb.(c := Black);
    ghost var pt := Mk(d, Black, t, p, px, wa);
    t' := Mk(d, c, pt, w, wx, wb');
    h' := if c == Black then h + 2 else h + 1;
    MkRB(d, Black, t, p, px, wa, h);
    MkRB(false, Red, wb.l, wb.n, wb.x, wb.r, h);
    MkRB(false, Black, wb.l, wb.n, wb.x, wb.r, h);
    MkRB(d, c, pt, w, wx, wb', h + 1);
    assert Fits(up, t');
    LiftFarFlat(d, c, t, p, px, wa, w, wx, wb);
    PlugUpFlat(up, t', d, c, p, px, t, wt);
    hide RB;
    hide CtxRB;
    OnHeap(head, s, ctx, t);
    Across(head, s, d, c, p, px, t, wt, up);
    OnHeap(head, s, Fr(!d, c, p, px, t, up), wt);
    Up(head, s, d, c, p, px, wt, up, t);
    OnHeap(head, s, up, Mk(d, c, t, p, px, wt));
    hide Heap;
    PaintFar(head, s, d, p, w, c, t, px, wa, wx, wb, up);
    RotateUp(head, s, top, dtop, !d, p, w, Black, c, wb', wx, wa, px, t, up);
  }

  /** rb.c:363-365 and 412-414: the sibling takes the parent's colour, parent and far child turn black. */
  method PaintFar(head: RbNode, ghost s: set<RbNode>, d: bool, p: RbNode, w: RbNode, ghost c: Color, ghost t: Tree,
                  ghost px: Item, ghost wa: Tree, ghost wx: Item, ghost wb: Tree, ghost up: Ctx)
    requires Heap(head, s, Fr(!d, c, p, px, t, up), Mk(!d, Black, wb, w, wx, wa)) && wb.Node?
    modifies s
    ensures Heap(head, s, up, Mk(!d, Black, Mk(!d, c, wb.(c := Black), w, wx, wa), p, px, t))
  {
    ghost var wctx, wctx', wt1, wb' := Fr(!d, c, p, px, t, up), Fr(!d, Black, p, px, t, up), Mk(!d, c, wb, w, wx, wa), wb.(c := Black);
    OnHeap(head, s, wctx, Mk(!d, Black, wb, w, wx, wa));
    Up(head, s, !d, Black, w, wx, wa, wctx, wb);
    OnHeap(head, s, Fr(!d, Black, w, wx, wa, wctx), wb);
    Up(head, s, !d, c, p, px, t, up, Mk(!d, Black, wb, w, wx, wa));
    OnHeap(head, s, up, Mk(!d, c, Mk(!d, Black, wb, w, wx, wa), p, px, t));
    hide Heap;
    SetColor(head, s, wctx, Mk(!d, Black, wb, w, wx, wa), w, p.color);
    Up(head, s, !d, c, p, px, t, up, wt1);
    SetColor(head, s, up, Mk(!d, c, wt1, p, px, t), p, Black);
    Up(head, s, !d, Black, p, px, t, up, wt1);
    Up(head, s, !d, c, w, wx, wa, wctx', wb);
    var far := w.Link(!d);
    SetColor(head, s, Fr(!d, c, w, wx, wa, wctx'), wb, far, Black);
    Up(head, s, !d, c, w, wx, wa, wctx', wb');
    Up(head, s, !d, Black, p, px, t, up, Mk(!d, c, wb', w, wx, wa));
  }

  lemma LiftFarFlat(d: bool, c: Color, t: Tree, p: RbNode, px: Item, wa: Tree, w: RbNode, wx: Item, wb: Tree)
    requires wb.Node?
    ensures Flat(Mk(d, c, Mk(d, Black, t, p, px, wa), w, wx, wb.(c := Black)))
         == Flat(Mk(d, c, t, p, px, Mk(d, Black, wa, w, wx, wb)))
  {
    RotateFlat(d, c, Black, t, p, px, wa, w, wx, wb);
    assert Flat(wb) == Flat(wb.(c := Black));
  }

  // ---------------------------------------------------------------- the loop

  lemma Finish(head: RbNode, s: set<RbNode>, ctx: Ctx, t: Tree, h: nat)
    requires Heap(head, s, ctx, t) && CtxRB(ctx, h) && RB(t, h) && Fits(ctx, t)
    ensures Heap(head, s, Top, Plug(ctx, t)) && Balanced(Plug(ctx, t))
  {
    Within(head, s, ctx, t);
    PlugRB(ctx, t, h);
  }

  /** rb.c:315-322: what the short tree's own link says. */
  lemma ReadHole(head: RbNode, s: set<RbNode>, ctx: Ctx, t: Tree, pa: seq<RbNode>, da: seq<bool>, k: int)
    requires Heap(head, s, ctx, t) && OnStack(head, ctx, pa, da, k)
    ensures pa[k - 1].Link(da[k - 1]) == Ptr(t)
    ensures t.Node? ==> t.n in s && t.n.color == t.c
    ensures k < 2 <==> ctx.Top?
  {
    OnHeap(head, s, ctx, t);
    StackDepth(head, ctx, pa, da, k);
  }

  /** rb.c:337-340 and 386-389: the stack after a red sibling has been lifted. */
  lemma PushLifted(head: RbNode, ctx: Ctx, ctx': Ctx, pa: seq<RbNode>, da: seq<bool>, k: int, w: RbNode)
    requires OnStack(head, ctx, pa, da, k) && ctx.Fr? && k < RB_MAX_HEIGHT
    requires ctx'.Fr? && ctx'.n == ctx.n && ctx'.d == ctx.d
    requires ctx'.up.Fr? && ctx'.up.n == w && ctx'.up.d == ctx.d && ctx'.up.up == ctx.up
    ensures OnStack(head, ctx', pa[k := pa[k - 1]][k - 1 := w], da[k := ctx.d], k + 1)
  {
    var pa', da' := pa[k := pa[k - 1]][k - 1 := w], da[k := ctx.d];
    StackPrefix(head, ctx.up, pa, da, pa', da', k - 1);
    assert OnStack(head, ctx'.up, pa', da', k);
  }

  function Red2(q: RbNode?): bool
    reads q
  {
    q != null && q.color == Red
  }

  /** rb.c:324-421: one turn of the loop below a parent.  Either the tree is whole again, or the
      parent's tree is short. */
  method Turn(head: RbNode, ghost s: set<RbNode>, ghost ctx0: Ctx, ghost t: Tree, ghost h: nat,
              pa0: seq<RbNode>, da0: seq<bool>, k0: int)
      returns (done: bool, pa: seq<RbNode>, da: seq<bool>, k: int, ghost ctx: Ctx, ghost t': Tree, ghost h': nat)
    requires ShortAt(head, s, ctx0, t, h) && IsBlack(t) && ctx0.Fr?
    requires OnStack(head, ctx0, pa0, da0, k0) && k0 < RB_MAX_HEIGHT
    modifies s, head
    ensures Flat(Plug(ctx, t')) == Flat(Plug(ctx0, t))
    ensures done ==> Heap(head, s, ctx, t') && CtxRB(ctx, h') && RB(t', h') && Fits(ctx, t')
    ensures !done ==> ShortAt(head, s, ctx, t', h') && OnStack(head, ctx, pa, da, k) && 1 <= k <= k0
    ensures !done ==> k < k0 || !IsBlack(t')
  {
    pa, da, k, ctx := pa0, da0, k0, ctx0;
    hide Heap;
    hide Flat;
    hide Plug;
    OpenSibling(ctx, h);
    Around(head, s, ctx, t);
    var p, d := pa[k - 1], da[k - 1];
    var w := p.Link(!d);
    if w.color == Red {
      assert OnStack(head, ctx.up, pa, da, k - 1);
      ctx := LiftSibling(head, s, ctx, t, h, p, d, w, pa[k - 2], da[k - 2]);
      PushLifted(head, ctx0, ctx, pa, da, k, w);
      pa, da := pa[k := pa[k - 1]][k - 1 := w], da[k := d];
      k := k + 1;
      OpenSibling(ctx, h);
      Around(head, s, ctx, t);
      w := pa[k - 1].Link(!d);
    }
    Across(head, s, ctx.d, ctx.c, ctx.n, ctx.x, t, ctx.sib, ctx.up);
    Children(head, s, Fr(!d, ctx.c, ctx.n, ctx.x, t, ctx.up), ctx.sib);
    assert OnStack(head, ctx.up, pa, da, k - 1);
    if !Red2(w.left) && !Red2(w.right) {
      t', h' := RedSibling(head, s, ctx, t, h, w);
      done, ctx, k := false, ctx.up, k - 1;
    } else {
      if !Red2(w.Link(!d)) {
        w, ctx := LiftNear(head, s, ctx, t, h, p, d, w);
      }
      t', h' := LiftFar(head, s, ctx, t, h, p, d, w, pa[k - 2], da[k - 2]);
      done, ctx := true, ctx.up;
    }
  }

  /** rb.c:313-424: restore the balance when the tree below `ctx0` is one black node short. */
  method FixShort(head: RbNode, ghost s: set<RbNode>, ghost ctx0: Ctx, ghost t0: Tree, ghost h0: nat,
                  pa0: seq<RbNode>, da0: seq<bool>, k0: int) returns (ghost tree: Tree)
    requires ShortAt(head, s, ctx0, t0, h0)
    requires OnStack(head, ctx0, pa0, da0, k0) && k0 < RB_MAX_HEIGHT
    modifies s, head
    ensures Heap(head, s, Top, tree) && Balanced(tree)
    ensures Flat(tree) == Flat(Plug(ctx0, t0))
  {
    var pa, da, k := pa0, da0, k0;
    ghost var ctx, t, h := ctx0, t0, h0;
    hide Heap;
    hide Flat;
    hide Plug;
    while true
      invariant ShortAt(head, s, ctx, t, h) && OnStack(head, ctx, pa, da, k) && 1 <= k <= k0
      invariant Flat(Plug(ctx, t)) == Flat(Plug(ctx0, t0))
      decreases 2 * k + if IsBlack(t) then 1 else 0
    {
      ReadHole(head, s, ctx, t, pa, da, k);
      var x := pa[k - 1].Link(da[k - 1]);
      if x != null && x.color == Red {
        SetColor(head, s, ctx, t, x, Black);
        RepaintFlat(ctx, t, Black);
        t, h := t.(c := Black), h + 1;
        break;
      }
      if k < 2 {
        break;
      }
      var done;
      done, pa, da, k, ctx, t, h := Turn(head, s, ctx, t, h, pa, da, k);
      if done {
        break;
      }
    }
    Finish(head, s, ctx, t, h);
    tree := Plug(ctx, t);
  }

  lemma RepaintFlat(ctx: Ctx, t: Tree, c: Color)
    requires t.Node?
    ensures Flat(Plug(ctx, t.(c := c))) == Flat(Plug(ctx, t))
  {
    RecolorFlat(false, t.c, t.l, t.n, t.x, t.r, c, t.l, t.r);
    PlugFlatEq(ctx, t, t.(c := c));
  }
}
