/** What one write, or one rotation, does to the memory of a search tree.

    `Zip(m, ctx, t)` says that the memory `m` holds tree `t` below path `ctx`, in search order.
    Because the order is strict, two subtrees never share a node, and a subtree keeps its
    memory as long as no node with a key in its interval is written.  The fix-up code of
    rb.c:128-199 and 311-426 consists of two kinds of step only: painting a node, and rotating
    an edge. */
module RbRules {
  import opened RbShape

  /** The memory holds `t` below `ctx`, and the whole is a search tree. */
  ghost predicate Zip(m: Mem, ctx: Ctx, t: Tree) {
    && CtxRep(m, ctx, Ptr(t)) && Rep(m, t)
    && CtxBst(ctx, -1, KEY_END) && Bst(t, Lo(ctx, -1), Hi(ctx, KEY_END))
  }

  lemma ZipPlug(m: Mem, ctx: Ctx, t: Tree)
    ensures Zip(m, ctx, t) <==> Rep(m, Plug(ctx, t)) && Bst(Plug(ctx, t), -1, KEY_END)
    ensures Ptr(Plug(ctx, t)) == RootPtr(ctx, Ptr(t))
    ensures Flat(Plug(ctx, t)) == Before(ctx) + Flat(t) + After(ctx)
  {
    PlugRep(m, ctx, t);
    PlugBst(ctx, t, -1, KEY_END);
    PlugFlat(ctx, t);
  }

  function MkCell(d: bool, a: RbNode?, b: RbNode?, x: Item, c: Color): Cell {
    if d then Cell(b, a, x, c) else Cell(a, b, x, c)
  }

  /** Reassemble a node from two subtrees the changes did not reach. */
  lemma MkRep(m: Mem, d: bool, c: Color, a: Tree, n: RbNode, x: Item, b: Tree)
    requires Rep(m, a) && Rep(m, b) && n in m && m[n] == MkCell(d, Ptr(a), Ptr(b), x, c)
    ensures Rep(m, Mk(d, c, a, n, x, b))
  {
  }

  /** Only nodes of `changed` differ between the two memories. */
  ghost predicate Only(m: Mem, m': Mem, changed: set<RbNode>) {
    forall n :: n in m && n !in changed ==> n in m' && m'[n] == m[n]
  }

  /** No changed node has a key strictly between `lo` and `hi`. */
  ghost predicate Clear(m: Mem, changed: set<RbNode>, lo: int, hi: int) {
    forall n :: n in changed && n in m ==> !(lo < m[n].x.key < hi)
  }

  lemma Keep(m: Mem, m': Mem, changed: set<RbNode>, t: Tree, lo: int, hi: int)
    requires Rep(m, t) && Bst(t, lo, hi) && Only(m, m', changed) && Clear(m, changed, lo, hi)
    ensures Rep(m', t)
  {
    RepFrame(m, m', t, lo, hi);
  }

  /** The interval of the subtree on side `d` of a node with key `x`. */
  function SLo(d: bool, lo: int, x: int): int { if d then x else lo }
  function SHi(d: bool, x: int, hi: int): int { if d then hi else x }

  /** All changed nodes lie strictly inside the interval. */
  ghost predicate Inside(m: Mem, changed: set<RbNode>, lo: int, hi: int) {
    forall n :: n in changed ==> n in m && lo < m[n].x.key < hi
  }

  /** The context survives when only nodes below it change and its link is set anew. */
  lemma Regraft(m: Mem, inner: Mem, m': Mem, changed: set<RbNode>, ctx: Ctx, q: RbNode?, q': RbNode?)
    requires CtxRep(m, ctx, q) && CtxBst(ctx, -1, KEY_END)
    requires Only(m, inner, changed) && Inside(m, changed, Lo(ctx, -1), Hi(ctx, KEY_END))
    requires ctx.Fr? ==> ctx.n in inner
    requires m' == Relink(inner, ctx, q')
    ensures CtxRep(m', ctx, q')
  {
    if ctx.Fr? {
      assert !(Lo(ctx, -1) < m[ctx.n].x.key < Hi(ctx, KEY_END));
      assert ctx.n !in changed;
      Graft(m, m', ctx, q, q', -1, KEY_END);
    }
  }

  /** A node of a tree, spelled out. */
  lemma Open(m: Mem, d: bool, c: Color, a: Tree, n: RbNode, x: Item, b: Tree, lo: int, hi: int)
    requires Rep(m, Mk(d, c, a, n, x, b)) && Bst(Mk(d, c, a, n, x, b), lo, hi)
    ensures n in m && m[n] == MkCell(d, Ptr(a), Ptr(b), x, c) && lo < x.key < hi
    ensures Rep(m, a) && Bst(a, SLo(d, lo, x.key), SHi(d, x.key, hi))
    ensures Rep(m, b) && Bst(b, SLo(!d, lo, x.key), SHi(!d, x.key, hi))
  {
    BstBounds(a, SLo(d, lo, x.key), SHi(d, x.key, hi));
    BstBounds(b, SLo(!d, lo, x.key), SHi(!d, x.key, hi));
  }

  lemma MkBst(d: bool, c: Color, a: Tree, n: RbNode, x: Item, b: Tree, lo: int, hi: int)
    ensures Bst(Mk(d, c, a, n, x, b), lo, hi) <==>
              Bst(a, SLo(d, lo, x.key), SHi(d, x.key, hi)) && Bst(b, SLo(!d, lo, x.key), SHi(!d, x.key, hi))
  {
  }

  /** The context survives when only nodes below it change and its link stays. */
  lemma CtxKeep(m: Mem, m': Mem, changed: set<RbNode>, ctx: Ctx, q: RbNode?)
    requires CtxRep(m, ctx, q) && CtxBst(ctx, -1, KEY_END)
    requires Only(m, m', changed) && Inside(m, changed, Lo(ctx, -1), Hi(ctx, KEY_END))
    ensures CtxRep(m', ctx, q)
  {
    CtxFrame(m, m', ctx, q, -1, KEY_END);
  }

  // ---------------------------------------------------------------- rebuilding the changed part

  /** Every changed node carries one of the keys `a`, `b`, or lies outside the interval. */
  ghost predicate KeysIn(m: Mem, changed: set<RbNode>, a: int, b: int, lo: int, hi: int) {
    forall n :: n in changed && n in m ==> m[n].x.key == a || m[n].x.key == b || !(lo < m[n].x.key < hi)
  }

  /** One node written over two untouched subtrees. */
  lemma Rebuild1(m: Mem, m': Mem, changed: set<RbNode>, e: bool, c: Color, a: Tree, p: RbNode, px: Item, b: Tree,
                 lo: int, hi: int)
    requires Rep(m, a) && Bst(a, SLo(e, lo, px.key), SHi(e, px.key, hi))
    requires Rep(m, b) && Bst(b, SLo(!e, lo, px.key), SHi(!e, px.key, hi))
    requires lo < px.key < hi
    requires Only(m, m', changed) && KeysIn(m, changed, px.key, px.key, lo, hi)
    requires p in m' && m'[p] == MkCell(e, Ptr(a), Ptr(b), px, c)
    ensures Rep(m', Mk(e, c, a, p, px, b))
  {
    Keep(m, m', changed, a, SLo(e, lo, px.key), SHi(e, px.key, hi));
    Keep(m, m', changed, b, SLo(!e, lo, px.key), SHi(!e, px.key, hi));
  }

  lemma KeysInNarrow(m: Mem, changed: set<RbNode>, a: int, b: int, lo: int, hi: int, d: bool)
    requires KeysIn(m, changed, a, b, lo, hi) && lo < b < hi
    ensures KeysIn(m, changed, a, a, SLo(d, lo, b), SHi(d, b, hi))
  {
  }

  /** Two nodes, the inner one on side `e` of the outer one, written over untouched subtrees. */
  lemma Rebuild2(m: Mem, m': Mem, changed: set<RbNode>, d: bool, c: Color, e: bool, c1: Color,
                 a: Tree, p: RbNode, px: Item, b: Tree, g: RbNode, gx: Item, u: Tree, lo: int, hi: int)
    requires Rep(m, a) && Rep(m, b) && Rep(m, u)
    requires Bst(Mk(e, c1, a, p, px, b), SLo(d, lo, gx.key), SHi(d, gx.key, hi))
    requires Bst(u, SLo(!d, lo, gx.key), SHi(!d, gx.key, hi))
    requires lo < gx.key < hi && SLo(d, lo, gx.key) < px.key < SHi(d, gx.key, hi)
    requires Only(m, m', changed) && KeysIn(m, changed, px.key, gx.key, lo, hi)
    requires p in m' && m'[p] == MkCell(e, Ptr(a), Ptr(b), px, c1)
    requires g in m' && m'[g] == MkCell(d, p, Ptr(u), gx, c)
    ensures Rep(m', Mk(d, c, Mk(e, c1, a, p, px, b), g, gx, u))
  {
    hide Rep;
    hide Bst;
    assert Rep(m', Mk(e, c1, a, p, px, b)) by {
      KeysInNarrow(m, changed, px.key, gx.key, lo, hi, d);
      MkBst(e, c1, a, p, px, b, SLo(d, lo, gx.key), SHi(d, gx.key, hi));
      Rebuild1(m, m', changed, e, c1, a, p, px, b, SLo(d, lo, gx.key), SHi(d, gx.key, hi));
    }
    Keep(m, m', changed, u, SLo(!d, lo, gx.key), SHi(!d, gx.key, hi));
    MkRep(m', d, c, Mk(e, c1, a, p, px, b), g, gx, u);
  }

  /** The end of every step: a rebuilt tree hangs where the old one hung. */
  lemma Replant(m: Mem, inner: Mem, m': Mem, changed: set<RbNode>, ctx: Ctx, t: Tree, t': Tree)
    requires Zip(m, ctx, t) && Only(m, inner, changed)
    requires Inside(m, changed, Lo(ctx, -1), Hi(ctx, KEY_END))
    requires ctx.Fr? ==> ctx.n in inner
    requires m' == Relink(inner, ctx, Ptr(t'))
    requires Rep(m', t') && Bst(t', Lo(ctx, -1), Hi(ctx, KEY_END))
    ensures Zip(m', ctx, t')
  {
    Regraft(m, inner, m', changed, ctx, Ptr(t), Ptr(t'));
  }

  /** The nodes a step writes: those in `below`, and the node that holds the link of the context. */
  ghost function Written(below: set<RbNode>, ctx: Ctx): set<RbNode> {
    if ctx.Fr? then below + {ctx.n} else below
  }

  lemma WrittenKeys(m: Mem, inner: Mem, m': Mem, below: set<RbNode>, ctx: Ctx, q: RbNode?, q': RbNode?)
    requires CtxRep(m, ctx, q) && CtxBst(ctx, -1, KEY_END)
    requires Only(m, inner, below)
    requires ctx.Fr? ==> ctx.n in inner
    requires m' == Relink(inner, ctx, q')
    ensures Only(m, m', Written(below, ctx))
    ensures ctx.Fr? ==> ctx.n in m && !(Lo(ctx, -1) < m[ctx.n].x.key < Hi(ctx, KEY_END))
  {
  }

  // ---------------------------------------------------------------- painting

  /** One node changes colour. */
  lemma Paint(m: Mem, m': Mem, ctx: Ctx, t: Tree, c: Color)
    requires Zip(m, ctx, t) && t.Node?
    requires t.n in m && m' == m[t.n := m[t.n].(c := c)]
    ensures Zip(m', ctx, t.(c := c))
  {
    var lo, hi := Lo(ctx, -1), Hi(ctx, KEY_END);
    Open(m, false, t.c, t.l, t.n, t.x, t.r, lo, hi);
    Rebuild1(m, m', {t.n}, false, c, t.l, t.n, t.x, t.r, lo, hi);
    CtxKeep(m, m', {t.n}, ctx, t.n);
  }

  // ---------------------------------------------------------------- rotating

  /** A rotation keeps the order of the entries. */
  lemma RotateFlat(d: bool, c: Color, c1: Color, t: Tree, p: RbNode, px: Item, sib: Tree,
                   g: RbNode, gx: Item, u: Tree)
    ensures Flat(Mk(d, c1, t, p, px, Mk(d, c, sib, g, gx, u))) == Flat(Mk(d, c, Mk(d, c1, t, p, px, sib), g, gx, u))
  {
  }

  lemma RotateBst(d: bool, c: Color, c1: Color, t: Tree, p: RbNode, px: Item, sib: Tree,
                  g: RbNode, gx: Item, u: Tree, lo: int, hi: int)
    requires Bst(Mk(d, c, Mk(d, c1, t, p, px, sib), g, gx, u), lo, hi)
    ensures Bst(Mk(d, c1, t, p, px, Mk(d, c, sib, g, gx, u)), lo, hi)
  {
    BstBounds(u, SLo(!d, lo, gx.key), SHi(!d, gx.key, hi));
    BstBounds(sib, SLo(!d, SLo(d, lo, gx.key), px.key), SHi(!d, px.key, SHi(d, gx.key, hi)));
  }

  lemma RotateRep(m: Mem, m': Mem, w: set<RbNode>, d: bool, c: Color, c1: Color, t: Tree, p: RbNode, px: Item, sib: Tree,
                  g: RbNode, gx: Item, u: Tree, lo: int, hi: int)
    requires Rep(m, Mk(d, c, Mk(d, c1, t, p, px, sib), g, gx, u))
    requires Bst(Mk(d, c, Mk(d, c1, t, p, px, sib), g, gx, u), lo, hi)
    requires Only(m, m', w) && KeysIn(m, w, px.key, gx.key, lo, hi)
    requires p in m' && m'[p] == MkCell(d, Ptr(t), g, px, c1)
    requires g in m' && m'[g] == MkCell(d, Ptr(sib), Ptr(u), gx, c)
    ensures Rep(m', Mk(d, c1, t, p, px, Mk(d, c, sib, g, gx, u)))
  {
    hide Rep;
    hide Bst;
    var plo, phi := SLo(d, lo, gx.key), SHi(d, gx.key, hi);
    Open(m, d, c, Mk(d, c1, t, p, px, sib), g, gx, u, lo, hi);
    Open(m, d, c1, t, p, px, sib, plo, phi);
    MkBst(d, c, sib, g, gx, u, SLo(!d, lo, px.key), SHi(!d, px.key, hi));
    Rebuild2(m, m', w, !d, c1, d, c, sib, g, gx, u, p, px, t, lo, hi);
  }

  /** Rotation: the node `p` on side `d` of `g` rises over `g`.
      rb.c:154-160 (insertion) and 333-335, 363-369 (deletion) with their mirrors. */
  lemma Rotate(m: Mem, m': Mem, d: bool, c: Color, c1: Color, t: Tree, p: RbNode, px: Item, sib: Tree,
               g: RbNode, gx: Item, u: Tree, up: Ctx)
    requires Zip(m, up, Mk(d, c, Mk(d, c1, t, p, px, sib), g, gx, u))
    requires up.Fr? ==> up.n in m
    requires m' == Relink(m[g := MkCell(d, Ptr(sib), Ptr(u), gx, c)][p := MkCell(d, Ptr(t), g, px, c1)], up, p)
    ensures Zip(m', up, Mk(d, c1, t, p, px, Mk(d, c, sib, g, gx, u)))
  {
    hide Zip;
    hide Rep;
    hide Bst;
    hide Relink;
    hide Only;
    hide Inside;
    var inner: Mem := m[g := MkCell(d, Ptr(sib), Ptr(u), gx, c)][p := MkCell(d, Ptr(t), g, px, c1)];
    RotateInner(m, inner, d, c, c1, t, p, px, sib, g, gx, u, up);
    RotateTree(m, inner, m', d, c, c1, t, p, px, sib, g, gx, u, up);
    Replant(m, inner, m', {g, p}, up, Mk(d, c, Mk(d, c1, t, p, px, sib), g, gx, u),
            Mk(d, c1, t, p, px, Mk(d, c, sib, g, gx, u)));
  }

  /** Both nodes lie inside the old tree. */
  lemma RotateInner(m: Mem, inner: Mem, d: bool, c: Color, c1: Color, t: Tree, p: RbNode, px: Item, sib: Tree,
                    g: RbNode, gx: Item, u: Tree, up: Ctx)
    requires Zip(m, up, Mk(d, c, Mk(d, c1, t, p, px, sib), g, gx, u))
    requires up.Fr? ==> up.n in m
    requires inner == m[g := MkCell(d, Ptr(sib), Ptr(u), gx, c)][p := MkCell(d, Ptr(t), g, px, c1)]
    ensures g in m && p in m && p != g && m[g].x == gx && m[p].x == px
    ensures Only(m, inner, {g, p}) && (up.Fr? ==> up.n in inner)
    ensures KeysIn(m, {g, p}, px.key, gx.key, Lo(up, -1), Hi(up, KEY_END))
    ensures Inside(m, {g, p}, Lo(up, -1), Hi(up, KEY_END))
  {
    hide Rep;
    hide Bst;
    hide CtxRep;
    hide CtxBst;
    var lo, hi := Lo(up, -1), Hi(up, KEY_END);
    Open(m, d, c, Mk(d, c1, t, p, px, sib), g, gx, u, lo, hi);
    Open(m, d, c1, t, p, px, sib, SLo(d, lo, gx.key), SHi(d, gx.key, hi));
  }

  /** The tree part of `Rotate`. */
  lemma RotateTree(m: Mem, inner: Mem, m': Mem, d: bool, c: Color, c1: Color, t: Tree, p: RbNode, px: Item, sib: Tree,
                   g: RbNode, gx: Item, u: Tree, up: Ctx)
    requires Zip(m, up, Mk(d, c, Mk(d, c1, t, p, px, sib), g, gx, u))
    requires up.Fr? ==> up.n in m
    requires inner == m[g := MkCell(d, Ptr(sib), Ptr(u), gx, c)][p := MkCell(d, Ptr(t), g, px, c1)]
    requires m' == Relink(inner, up, p)
    requires Only(m, inner, {g, p}) && (up.Fr? ==> up.n in inner)
    requires g in m && p in m && p != g && m[g].x == gx && m[p].x == px
    requires KeysIn(m, {g, p}, px.key, gx.key, Lo(up, -1), Hi(up, KEY_END))
    requires Inside(m, {g, p}, Lo(up, -1), Hi(up, KEY_END))
    ensures Rep(m', Mk(d, c1, t, p, px, Mk(d, c, sib, g, gx, u)))
    ensures Bst(Mk(d, c1, t, p, px, Mk(d, c, sib, g, gx, u)), Lo(up, -1), Hi(up, KEY_END))
  {
    hide Rep;
    hide Bst;
    hide CtxRep;
    hide CtxBst;
    var lo, hi := Lo(up, -1), Hi(up, KEY_END);
    WrittenKeys(m, inner, m', {g, p}, up, g, p);
    RotateBst(d, c, c1, t, p, px, sib, g, gx, u, lo, hi);
    RotateRep(m, m', Written({g, p}, up), d, c, c1, t, p, px, sib, g, gx, u, lo, hi);
  }

  // ---------------------------------------------------------------- taking a node out

  lemma {:induction false} BstWiden(t: Tree, lo: int, hi: int, lo': int, hi': int)
    requires Bst(t, lo, hi) && lo' <= lo && hi <= hi'
    ensures Bst(t, lo', hi')
  {
    if t.Node? {
      BstWiden(t.l, lo, t.x.key, lo', t.x.key);
      BstWiden(t.r, t.x.key, hi, t.x.key, hi');
    }
  }

  /** rb.c:264-265: a node without right child is replaced by its left child. */
  lemma SpliceLeft(m: Mem, m': Mem, up: Ctx, c: Color, l: Tree, p: RbNode, x: Item)
    requires Zip(m, up, Node(c, l, p, x, Leaf))
    requires (up.Fr? ==> up.n in m) && m' == Relink(m, up, Ptr(l))
    ensures Zip(m', up, l)
  {
    var lo, hi := Lo(up, -1), Hi(up, KEY_END);
    Open(m, false, c, l, p, x, Leaf, lo, hi);
    WrittenKeys(m, m, m', {}, up, p, Ptr(l));
    Keep(m, m', Written({}, up), l, lo, x.key);
    BstWiden(l, lo, x.key, lo, hi);
    Replant(m, m, m', {}, up, Node(c, l, p, x, Leaf), l);
  }

  /** A path that only ever turns left. */
  predicate LeftSpine(ctx: Ctx) { ctx.Fr? ==> !ctx.d && LeftSpine(ctx.up) }

  lemma {:induction false} SpineBst(ctx: Ctx, lo: int, lo': int, hi: int)
    requires LeftSpine(ctx) && CtxBst(ctx, lo, hi) && lo <= lo' < Hi(ctx, hi)
    ensures CtxBst(ctx, lo', hi) && Lo(ctx, lo) == lo && Lo(ctx, lo') == lo' && Before(ctx) == []
  {
    if ctx.Fr? {
      SpineBst(ctx.up, lo, lo', hi);
    }
  }

  /** What hangs on the right of the deleted node once its successor is out of the way. */
  lemma SpliceRight(m: Mem, m': Mem, w: set<RbNode>, ic: Ctx, sc: Color, s: RbNode, sx: Item, sr: Tree, lo: int, hi: int)
    requires LeftSpine(ic)
    requires Rep(m, Plug(ic, Node(sc, Leaf, s, sx, sr))) && Bst(Plug(ic, Node(sc, Leaf, s, sx, sr)), lo, hi)
    requires (ic.Fr? ==> ic.n in m) && Only(Relink(m, ic, Ptr(sr)), m', w)
    requires forall n :: n in w && n in m ==> m[n].x.key == sx.key || !(lo < m[n].x.key < hi)
    ensures lo < sx.key < hi
    ensures Rep(m', Plug(ic, sr)) && Bst(Plug(ic, sr), sx.key, hi)
  {
    var t := Node(sc, Leaf, s, sx, sr);
    PlugRep(m, ic, t);
    PlugRep(m', ic, sr);
    PlugBst(ic, t, lo, hi);
    PlugBst(ic, sr, sx.key, hi);
    CtxInterval(ic, lo, hi);
    BstBounds(sr, sx.key, Hi(ic, hi));
    BstBounds(Leaf, Lo(ic, lo), sx.key);
    SpineBst(ic, lo, sx.key, hi);
    assert Rep(m', sr) by { RepFrame(m, m', sr, sx.key, Hi(ic, hi)); }
    assert CtxRep(m', ic, Ptr(sr)) by { Graft(m, m', ic, s, Ptr(sr), lo, hi); }
  }

  /** rb.c:266-309: a node with a right child is replaced by its successor, which takes over its
      place, its left child and its colour; the deleted node keeps the successor's colour.
      `ic` is the path from the right child down to the successor. */
  lemma SpliceSuccessor(m: Mem, m': Mem, up: Ctx, c: Color, l: Tree, p: RbNode, x: Item,
                        ic: Ctx, sc: Color, s: RbNode, sx: Item, sr: Tree)
    requires Zip(m, up, Node(c, l, p, x, Plug(ic, Node(sc, Leaf, s, sx, sr)))) && LeftSpine(ic)
    requires (up.Fr? ==> up.n in m) && (ic.Fr? ==> ic.n in m) && p in m
    requires m' == Relink(Relink(m, ic, Ptr(sr))[s := Cell(Ptr(l), RootPtr(ic, Ptr(sr)), sx, c)][p := m[p].(c := sc)], up, s)
    ensures Zip(m', up, Node(c, l, s, sx, Plug(ic, sr)))
  {
    hide Zip;
    hide Rep;
    hide Bst;
    hide Plug;
    hide Relink;
    hide Only;
    hide Inside;
    hide Written;
    var r, r' := Plug(ic, Node(sc, Leaf, s, sx, sr)), Plug(ic, sr);
    var inner: Mem := Relink(m, ic, Ptr(sr))[s := Cell(Ptr(l), RootPtr(ic, Ptr(sr)), sx, c)][p := m[p].(c := sc)];
    SpliceInner(m, inner, up, c, l, p, x, ic, sc, s, sx, sr);
    SpliceTree(m, m', up, c, l, p, x, ic, sc, s, sx, sr);
    Replant(m, inner, m', Written({s, p}, ic), up, Node(c, l, p, x, r), Node(c, l, s, sx, r'));
  }

  /** What is written before the holder's link lies inside the old tree. */
  lemma SpliceInner(m: Mem, inner: Mem, up: Ctx, c: Color, l: Tree, p: RbNode, x: Item,
                    ic: Ctx, sc: Color, s: RbNode, sx: Item, sr: Tree)
    requires Zip(m, up, Node(c, l, p, x, Plug(ic, Node(sc, Leaf, s, sx, sr))))
    requires (up.Fr? ==> up.n in m) && (ic.Fr? ==> ic.n in m) && p in m
    requires inner == Relink(m, ic, Ptr(sr))[s := Cell(Ptr(l), RootPtr(ic, Ptr(sr)), sx, c)][p := m[p].(c := sc)]
    ensures Only(m, inner, Written({s, p}, ic)) && (up.Fr? ==> up.n in inner)
    ensures Inside(m, Written({s, p}, ic), Lo(up, -1), Hi(up, KEY_END))
  {
    hide Rep;
    hide Bst;
    hide Plug;
    hide CtxRep;
    hide CtxBst;
    var lo, hi := Lo(up, -1), Hi(up, KEY_END);
    Open(m, false, c, l, p, x, Plug(ic, Node(sc, Leaf, s, sx, sr)), lo, hi);
    SuccessorReads(m, up, c, l, p, x, ic, sc, s, sx, sr);
    SpliceKeys(m, ic, sc, s, sx, sr, x.key, hi);
  }

  /** The tree part of `SpliceSuccessor`. */
  lemma SpliceTree(m: Mem, m': Mem, up: Ctx, c: Color, l: Tree, p: RbNode, x: Item,
                   ic: Ctx, sc: Color, s: RbNode, sx: Item, sr: Tree)
    requires Zip(m, up, Node(c, l, p, x, Plug(ic, Node(sc, Leaf, s, sx, sr)))) && LeftSpine(ic)
    requires (up.Fr? ==> up.n in m) && (ic.Fr? ==> ic.n in m) && p in m
    requires m' == Relink(Relink(m, ic, Ptr(sr))[s := Cell(Ptr(l), RootPtr(ic, Ptr(sr)), sx, c)][p := m[p].(c := sc)], up, s)
    ensures Rep(m', Node(c, l, s, sx, Plug(ic, sr)))
    ensures Bst(Node(c, l, s, sx, Plug(ic, sr)), Lo(up, -1), Hi(up, KEY_END))
  {
    hide Rep;
    hide Bst;
    hide Plug;
    hide CtxRep;
    hide CtxBst;
    var lo, hi := Lo(up, -1), Hi(up, KEY_END);
    var r, r' := Plug(ic, Node(sc, Leaf, s, sx, sr)), Plug(ic, sr);
    Open(m, false, c, l, p, x, r, lo, hi);
    SuccessorReads(m, up, c, l, p, x, ic, sc, s, sx, sr);
    SuccessorHolder(m, up, c, l, p, x, ic, sc, s, sx, sr);
    SpliceKeys(m, ic, sc, s, sx, sr, x.key, hi);
    HolderKey(m, up, p);
    SpliceRight(m, m', Written({s, p}, up), ic, sc, s, sx, sr, x.key, hi);
    Keep(m, m', Written(Written({s, p}, ic), up), l, lo, x.key);
    BstWiden(l, lo, x.key, lo, sx.key);
    PlugRep(m', ic, sr);
    MkRep(m', false, c, l, s, sx, r');
    MkBst(false, c, l, s, sx, r', lo, hi);
  }

  lemma SpliceKeys(m: Mem, ic: Ctx, sc: Color, s: RbNode, sx: Item, sr: Tree, lo: int, hi: int)
    requires Rep(m, Plug(ic, Node(sc, Leaf, s, sx, sr))) && Bst(Plug(ic, Node(sc, Leaf, s, sx, sr)), lo, hi)
    ensures s in m && m[s] == Cell(null, Ptr(sr), sx, sc) && lo < sx.key < hi
    ensures Ptr(Plug(ic, Node(sc, Leaf, s, sx, sr))) == RootPtr(ic, s)
    ensures ic.Fr? ==> ic.n in m && lo < m[ic.n].x.key < hi && m[ic.n].x.key != sx.key && m[ic.n].Link(ic.d) == s
  {
    PlugRep(m, ic, Node(sc, Leaf, s, sx, sr));
    PlugBst(ic, Node(sc, Leaf, s, sx, sr), lo, hi);
    CtxInterval(ic, lo, hi);
    if ic.Fr? { CtxInterval(ic.up, lo, hi); }
    BstBounds(sr, sx.key, Hi(ic, hi));
    BstBounds(Leaf, Lo(ic, lo), sx.key);
  }

  /** The node that holds the link of a context lies outside the interval of what hangs there. */
  lemma Holder(m: Mem, ctx: Ctx, q: RbNode?, n: RbNode)
    requires CtxRep(m, ctx, q) && CtxBst(ctx, -1, KEY_END)
    requires n in m && Lo(ctx, -1) < m[n].x.key < Hi(ctx, KEY_END)
    ensures ctx.Fr? ==> ctx.n in m && ctx.n != n
  {
  }

  lemma HolderKey(m: Mem, ctx: Ctx, q: RbNode?)
    requires CtxRep(m, ctx, q) && CtxBst(ctx, -1, KEY_END)
    ensures ctx.Fr? ==> ctx.n in m && !(Lo(ctx, -1) < m[ctx.n].x.key < Hi(ctx, KEY_END))
  {
  }

  /** What the memory holds around a successor. */
  lemma SuccessorReads(m: Mem, up: Ctx, c: Color, l: Tree, p: RbNode, x: Item, ic: Ctx, sc: Color, s: RbNode, sx: Item, sr: Tree)
    requires Zip(m, up, Node(c, l, p, x, Plug(ic, Node(sc, Leaf, s, sx, sr))))
    ensures p in m && m[p] == Cell(Ptr(l), RootPtr(ic, s), x, c)
    ensures s in m && m[s] == Cell(null, Ptr(sr), sx, sc) && s != p
    ensures ic.Fr? ==> ic.n in m && ic.n != s && ic.n != p && m[ic.n].Link(ic.d) == s
  {
    hide *;
    DeletedReads(m, up, c, l, p, x, ic, sc, s, sx, sr);
    NextReads(m, up, c, l, p, x, ic, sc, s, sx, sr);
    InnerReads(m, up, c, l, p, x, ic, sc, s, sx, sr);
  }

  lemma DeletedReads(m: Mem, up: Ctx, c: Color, l: Tree, p: RbNode, x: Item, ic: Ctx, sc: Color, s: RbNode, sx: Item, sr: Tree)
    requires Zip(m, up, Node(c, l, p, x, Plug(ic, Node(sc, Leaf, s, sx, sr))))
    ensures p in m && m[p] == Cell(Ptr(l), RootPtr(ic, s), x, c)
  {
    hide *;
    ZipOpen(m, up, c, l, p, x, Plug(ic, Node(sc, Leaf, s, sx, sr)));
    SpliceKeys(m, ic, sc, s, sx, sr, x.key, Hi(up, KEY_END));
  }

  lemma NextReads(m: Mem, up: Ctx, c: Color, l: Tree, p: RbNode, x: Item, ic: Ctx, sc: Color, s: RbNode, sx: Item, sr: Tree)
    requires Zip(m, up, Node(c, l, p, x, Plug(ic, Node(sc, Leaf, s, sx, sr))))
    ensures s in m && m[s] == Cell(null, Ptr(sr), sx, sc) && s != p
  {
    hide *;
    ZipOpen(m, up, c, l, p, x, Plug(ic, Node(sc, Leaf, s, sx, sr)));
    SpliceKeys(m, ic, sc, s, sx, sr, x.key, Hi(up, KEY_END));
  }

  lemma InnerReads(m: Mem, up: Ctx, c: Color, l: Tree, p: RbNode, x: Item, ic: Ctx, sc: Color, s: RbNode, sx: Item, sr: Tree)
    requires Zip(m, up, Node(c, l, p, x, Plug(ic, Node(sc, Leaf, s, sx, sr))))
    ensures ic.Fr? ==> ic.n in m && ic.n != s && ic.n != p && m[ic.n].Link(ic.d) == s
  {
    hide *;
    ZipOpen(m, up, c, l, p, x, Plug(ic, Node(sc, Leaf, s, sx, sr)));
    SpliceKeys(m, ic, sc, s, sx, sr, x.key, Hi(up, KEY_END));
  }

  lemma ZipOpen(m: Mem, up: Ctx, c: Color, l: Tree, p: RbNode, x: Item, r: Tree)
    requires Zip(m, up, Node(c, l, p, x, r))
    ensures p in m && m[p] == Cell(Ptr(l), Ptr(r), x, c)
    ensures Rep(m, r) && Bst(r, x.key, Hi(up, KEY_END))
    ensures up.Fr? ==> up.n in m && !(Lo(up, -1) < m[up.n].x.key < Hi(up, KEY_END))
    ensures Lo(up, -1) < x.key < Hi(up, KEY_END)
  {
    hide Rep;
    hide Bst;
    hide CtxRep;
    hide CtxBst;
    Open(m, false, c, l, p, x, r, Lo(up, -1), Hi(up, KEY_END));
    HolderKey(m, up, p);
  }

  lemma SuccessorHolder(m: Mem, up: Ctx, c: Color, l: Tree, p: RbNode, x: Item, ic: Ctx, sc: Color, s: RbNode, sx: Item, sr: Tree)
    requires Zip(m, up, Node(c, l, p, x, Plug(ic, Node(sc, Leaf, s, sx, sr))))
    ensures up.Fr? ==> up.n in m && up.n != s && up.n != p && (ic.Fr? ==> up.n != ic.n)
  {
    hide *;
    ZipOpen(m, up, c, l, p, x, Plug(ic, Node(sc, Leaf, s, sx, sr)));
    SpliceKeys(m, ic, sc, s, sx, sr, x.key, Hi(up, KEY_END));
  }
}
