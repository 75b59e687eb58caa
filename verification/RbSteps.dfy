/** The writes of rb.c on heap nodes: painting, rotating, and the fix-up loops built from them. */
module RbSteps {
  import opened RbShape
  import opened RbRules

  const RB_MAX_HEIGHT: nat := 128

  /** The heap nodes `s` hold tree `t` below path `ctx`.  `head` stands for `&tree->rb_root`
      seen as a node, as in rb.c:104: its left link is the root link. */
  ghost predicate Heap(head: RbNode, s: set<RbNode>, ctx: Ctx, t: Tree)
    reads head, s
  {
    head !in s && head.left == RootPtr(ctx, Ptr(t)) && Zip(Snap(s), ctx, t)
  }

  /** `n` and `d` name the link on which the hole of the context hangs. */
  predicate IsSlot(head: RbNode, ctx: Ctx, n: RbNode, d: bool) {
    match ctx
    case Top => n == head && !d
    case Fr(e, _, m, _, _, _) => n == m && d == e
  }

  /** The first `k` entries of `pa` and `da` spell out the path `ctx`, outermost first. */
  predicate OnStack(head: RbNode, ctx: Ctx, pa: seq<RbNode>, da: seq<bool>, k: int)
  {
    && |pa| == |da| == RB_MAX_HEIGHT
    && 1 <= k <= RB_MAX_HEIGHT
    && IsSlot(head, ctx, pa[k - 1], da[k - 1])
    && (if ctx.Top? then k == 1 else OnStack(head, ctx.up, pa, da, k - 1))
  }

  lemma {:induction false} StackDepth(head: RbNode, ctx: Ctx, pa: seq<RbNode>, da: seq<bool>, k: int)
    requires OnStack(head, ctx, pa, da, k)
    ensures k == Depth(ctx) + 1
  {
    if ctx.Fr? {
      StackDepth(head, ctx.up, pa, da, k - 1);
    }
  }

  /** Entries from `k` on do not matter. */
  lemma {:induction false} StackPrefix(head: RbNode, ctx: Ctx, pa: seq<RbNode>, da: seq<bool>,
                                       pa': seq<RbNode>, da': seq<bool>, k: int)
    requires OnStack(head, ctx, pa, da, k) && |pa'| == |da'| == RB_MAX_HEIGHT
    requires pa'[..k] == pa[..k] && da'[..k] == da[..k]
    ensures OnStack(head, ctx, pa', da', k)
  {
    assert pa'[k - 1] == pa'[..k][k - 1] && da'[k - 1] == da'[..k][k - 1];
    if ctx.Fr? {
      assert pa'[..k - 1] == pa'[..k][..k - 1] && da'[..k - 1] == da'[..k][..k - 1];
      assert pa[..k - 1] == pa[..k][..k - 1] && da[..k - 1] == da[..k][..k - 1];
      StackPrefix(head, ctx.up, pa, da, pa', da', k - 1);
    }
  }

  // ---------------------------------------------------------------- moving the hole

  /** The same heap seen from one node higher. */
  lemma Up(head: RbNode, s: set<RbNode>, d: bool, c: Color, n: RbNode, x: Item, sib: Tree, up: Ctx, t: Tree)
    ensures Heap(head, s, Fr(d, c, n, x, sib, up), t) <==> Heap(head, s, up, Mk(d, c, t, n, x, sib))
  {
    ZipPlug(Snap(s), Fr(d, c, n, x, sib, up), t);
    ZipPlug(Snap(s), up, Mk(d, c, t, n, x, sib));
  }

  /** The same heap seen from one node lower. */
  lemma Down(head: RbNode, s: set<RbNode>, ctx: Ctx, t: Tree, d: bool)
    requires Heap(head, s, ctx, t) && t.Node?
    ensures Heap(head, s, Fr(d, t.c, t.n, t.x, Child(t, !d), ctx), Child(t, d))
    ensures Plug(Fr(d, t.c, t.n, t.x, Child(t, !d), ctx), Child(t, d)) == Plug(ctx, t)
  {
    Up(head, s, d, t.c, t.n, t.x, Child(t, !d), ctx, Child(t, d));
  }

  /** A whole tree seen from inside. */
  lemma Within(head: RbNode, s: set<RbNode>, ctx: Ctx, t: Tree)
    ensures Heap(head, s, Top, Plug(ctx, t)) <==> Heap(head, s, ctx, t)
  {
    ZipPlug(Snap(s), ctx, t);
    ZipPlug(Snap(s), Top, Plug(ctx, t));
  }

  // ---------------------------------------------------------------- single writes

  method SetLink(ghost s: set<RbNode>, n: RbNode, d: bool, q: RbNode?)
    requires n in s
    modifies n`left, n`right
    ensures Snap(s) == old(Snap(s))[n := old(Snap(s))[n].With(d, q)]
  {
    if d { n.right := q; } else { n.left := q; }
  }

  /** Write the link on which the hole of the context hangs; at the top it is the root link. */
  method SetSlot(head: RbNode, ghost s: set<RbNode>, ghost ctx: Ctx, n: RbNode, d: bool, q: RbNode?)
    requires IsSlot(head, ctx, n, d) && head !in s && (ctx.Fr? ==> n in s)
    modifies n`left, n`right
    ensures Snap(s) == Relink(old(Snap(s)), ctx, q)
    ensures head.left == if ctx.Top? then q else old(head.left)
  {
    if d { n.right := q; } else { n.left := q; }
  }

  method SetColor(head: RbNode, ghost s: set<RbNode>, ghost ctx: Ctx, ghost t: Tree, n: RbNode, c: Color)
    requires Heap(head, s, ctx, t) && t.Node? && t.n == n
    modifies n`color
    ensures Heap(head, s, ctx, t.(c := c))
  {
    ghost var m := Snap(s);
    assert n in m;
    n.color := c;
    assert Snap(s) == m[n := m[n].(c := c)];
    Paint(m, Snap(s), ctx, t, c);
  }

  /** What a rotation finds in the memory. */
  lemma RotateReads(m: Mem, d: bool, c: Color, c1: Color, t: Tree, p: RbNode, px: Item, sib: Tree,
                    g: RbNode, gx: Item, u: Tree, up: Ctx)
    requires Zip(m, up, Mk(d, c, Mk(d, c1, t, p, px, sib), g, gx, u))
    ensures p in m && m[p] == MkCell(d, Ptr(t), Ptr(sib), px, c1)
    ensures g in m && m[g] == MkCell(d, p, Ptr(u), gx, c) && p != g
    ensures up.Fr? ==> up.n in m && up.n != p && up.n != g
  {
    var lo, hi := Lo(up, -1), Hi(up, KEY_END);
    Open(m, d, c, Mk(d, c1, t, p, px, sib), g, gx, u, lo, hi);
    Open(m, d, c1, t, p, px, sib, SLo(d, lo, gx.key), SHi(d, gx.key, hi));
  }

  /** Lift `p` over its parent `g`; `top` holds the link to `g`. */
  method RotateUp(head: RbNode, ghost s: set<RbNode>, top: RbNode, td: bool, d: bool, g: RbNode, p: RbNode,
                  ghost c: Color, ghost c1: Color, ghost t: Tree, ghost px: Item, ghost sib: Tree,
                  ghost gx: Item, ghost u: Tree, ghost up: Ctx)
    requires Heap(head, s, up, Mk(d, c, Mk(d, c1, t, p, px, sib), g, gx, u))
    requires IsSlot(head, up, top, td)
    modifies g`left, g`right, p`left, p`right, top`left, top`right
    ensures Heap(head, s, up, Mk(d, c1, t, p, px, Mk(d, c, sib, g, gx, u)))
  {
    ghost var m := Snap(s);
    RotateReads(m, d, c, c1, t, p, px, sib, g, gx, u, up);
    var q := p.Link(!d);
    assert q == m[p].Link(!d) == Ptr(sib);
    SetLink(s, g, d, q);
    SetLink(s, p, !d, g);
    SetSlot(head, s, up, top, td, p);
    assert Snap(s) == Relink(m[g := MkCell(d, Ptr(sib), Ptr(u), gx, c)][p := MkCell(d, Ptr(t), g, px, c1)], up, p);
    Rotate(m, Snap(s), d, c, c1, t, p, px, sib, g, gx, u, up);
  }
}
