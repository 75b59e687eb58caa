/** Taking the found node out of the tree (rb.c:264-311). */
module RbSplice {
  import opened RbShape
  import opened RbRules
  import opened RbSteps
  import opened RbInsert
  import opened RbDelete

  /** The entries `base..k` of the stack spell out `ic`, outermost first. */
  predicate InnerStack(ic: Ctx, pa: seq<RbNode>, da: seq<bool>, base: int, k: int) {
    && |pa| == |da| == RB_MAX_HEIGHT && 1 <= base <= k <= RB_MAX_HEIGHT
    && (if ic.Top? then k == base
        else base < k && pa[k - 1] == ic.n && da[k - 1] == ic.d && InnerStack(ic.up, pa, da, base, k - 1))
  }

  lemma {:induction false} JoinStack(head: RbNode, ic: Ctx, oc: Ctx, pa: seq<RbNode>, da: seq<bool>, base: int, k: int)
    requires InnerStack(ic, pa, da, base, k) && OnStack(head, oc, pa, da, base)
    ensures OnStack(head, Append(ic, oc), pa, da, k)
  {
    if ic.Fr? {
      JoinStack(head, ic.up, oc, pa, da, base, k - 1);
    }
  }

  lemma {:induction false} InnerPrefix(ic: Ctx, pa: seq<RbNode>, da: seq<bool>, pa': seq<RbNode>, da': seq<bool>, base: int, k: int)
    requires InnerStack(ic, pa, da, base, k) && |pa'| == |da'| == RB_MAX_HEIGHT
    requires forall i :: base <= i < k ==> pa'[i] == pa[i] && da'[i] == da[i]
    ensures InnerStack(ic, pa', da', base, k)
  {
    if ic.Fr? {
      InnerPrefix(ic.up, pa, da, pa', da', base, k - 1);
    }
  }

  lemma {:induction false} PlugAppend(ic: Ctx, oc: Ctx, t: Tree)
    ensures Plug(Append(ic, oc), t) == Plug(oc, Plug(ic, t))
  {
    if ic.Fr? {
      PlugAppend(ic.up, oc, Mk(ic.d, ic.c, t, ic.n, ic.x, ic.sib));
    }
  }

  /** Balance looks at colours only: another node may take the deleted node's place. */
  lemma {:induction false} ReplaceRB(ic: Ctx, c: Color, n: RbNode, x: Item, n': RbNode, x': Item, l: Tree, up: Ctx, h: nat)
    requires CtxRB(Append(ic, Fr(true, c, n, x, l, up)), h)
    ensures CtxRB(Append(ic, Fr(true, c, n', x', l, up)), h)
  {
    if ic.Fr? {
      ReplaceRB(ic.up, c, n, x, n', x', l, up, if ic.c == Black then h + 1 else h);
    }
  }

  /** After a node of colour `c` with the single child `a` is gone, `a` hangs in its place. */
  ghost predicate Removed(ctx: Ctx, a: Tree, black: bool, h: nat) {
    if black then CtxRB(ctx, h + 1) && Short(a, h) else CtxRB(ctx, h) && RB(a, h) && Fits(ctx, a)
  }

  lemma RemoveRB(ctx: Ctx, c: Color, l: Tree, n: RbNode, x: Item, r: Tree, a: Tree, h: nat) returns (h': nat)
    requires CtxRB(ctx, h) && RB(Node(c, l, n, x, r), h) && Fits(ctx, Node(c, l, n, x, r))
    requires a == l || a == r
    ensures Removed(ctx, a, c == Black, h')
  {
    h' := if c == Black then h - 1 else h;
    if c == Black && !IsBlack(a) {
      MkRB(false, Black, a.l, a.n, a.x, a.r, h');
      MkRB(false, Red, a.l, a.n, a.x, a.r, h');
    }
  }

  lemma {:induction false} SpineFlat(ic: Ctx)
    requires LeftSpine(ic)
    ensures Before(ic) == []
  {
    if ic.Fr? {
      SpineFlat(ic.up);
    }
  }

  lemma SplitAround(a: seq<Entry>, e: seq<Entry>, b: seq<Entry>, f: seq<Entry>, u: seq<Entry>, v: seq<Entry>)
    requires u == [] + (e + b) + f && v == [] + b + f
    ensures a + e + v == a + u
  {
  }

  /** The entries that remain. */
  lemma SpliceFlat(up: Ctx, c: Color, l: Tree, p: RbNode, x: Item, ic: Ctx, sc: Color, s: RbNode, sx: Item, sr: Tree)
    requires LeftSpine(ic)
    ensures var ctx' := Append(ic, Fr(true, c, s, sx, l, up));
            Flat(Plug(ctx', sr)) ==
            Before(up) + Flat(l) + Flat(Plug(ic, Node(sc, Leaf, s, sx, sr))) + After(up)
  {
    var st := Node(sc, Leaf, s, sx, sr);
    hide *;
    FlatParts(up, c, l, s, sx, ic, sr);
    FlatUnder(ic, sc, s, sx, sr);
    SplitAround(Flat(l), [Entry(s, sx)], Flat(sr), After(ic), Flat(Plug(ic, st)), Flat(Plug(ic, sr)));
  }

  lemma FlatParts(up: Ctx, c: Color, l: Tree, s: RbNode, sx: Item, ic: Ctx, sr: Tree)
    ensures Flat(Plug(Append(ic, Fr(true, c, s, sx, l, up)), sr))
         == Before(up) + (Flat(l) + [Entry(s, sx)] + Flat(Plug(ic, sr))) + After(up)
  {
    PlugAppend(ic, Fr(true, c, s, sx, l, up), sr);
    PlugFlat(up, Node(c, l, s, sx, Plug(ic, sr)));
  }

  lemma FlatUnder(ic: Ctx, sc: Color, s: RbNode, sx: Item, sr: Tree)
    requires LeftSpine(ic)
    ensures Flat(Plug(ic, Node(sc, Leaf, s, sx, sr))) == [] + ([Entry(s, sx)] + Flat(sr)) + After(ic)
    ensures Flat(Plug(ic, sr)) == [] + Flat(sr) + After(ic)
  {
    SpineFlat(ic);
    PlugFlat(ic, Node(sc, Leaf, s, sx, sr));
    PlugFlat(ic, sr);
    hide Plug;
    hide Before;
    hide After;
    assert Flat(Node(sc, Leaf, s, sx, sr)) == [Entry(s, sx)] + Flat(sr);
  }

  // ---------------------------------------------------------------- the three cases

  /** rb.c:264-265. */
  method TakeLeft(head: RbNode, ghost s: set<RbNode>, ghost ctx: Ctx, ghost t: Tree, top: RbNode, dtop: bool, p: RbNode)
    requires Heap(head, s, ctx, t) && t.Node? && t.n == p && t.r.Leaf? && IsSlot(head, ctx, top, dtop)
    modifies top`left, top`right
    ensures Heap(head, s, ctx, t.l) && p.color == t.c
  {
    OnHeap(head, s, ctx, t);
    ghost var m := Snap(s);
    SetSlot(head, s, ctx, top, dtop, p.left);
    SpliceLeft(m, Snap(s), ctx, t.c, t.l, p, t.x);
  }

  /** rb.c:271-280: the right child is the successor. */
  method TakeNear(head: RbNode, ghost s: set<RbNode>, ghost ctx: Ctx, top: RbNode, dtop: bool, p: RbNode, r: RbNode,
                  ghost c: Color, ghost l: Tree, ghost x: Item, ghost sc: Color, ghost sx: Item, ghost sr: Tree)
    requires Heap(head, s, ctx, Node(c, l, p, x, Node(sc, Leaf, r, sx, sr))) && IsSlot(head, ctx, top, dtop)
    modifies p`color, r`left, r`right, r`color, top`left, top`right
    ensures Heap(head, s, ctx, Node(c, l, r, sx, sr)) && p.color == sc
  {
    hide Rep;
    hide Bst;
    hide CtxRep;
    hide CtxBst;
    ghost var m := Snap(s);
    SuccessorReads(m, ctx, c, l, p, x, Top, sc, r, sx, sr);
    SuccessorHolder(m, ctx, c, l, p, x, Top, sc, r, sx, sr);
    r.left := p.left;
    var t := r.color;
    r.color := p.color;
    p.color := t;
    assert Snap(s) == m[r := Cell(Ptr(l), Ptr(sr), sx, c)][p := m[p].(c := sc)];
    SetSlot(head, s, ctx, top, dtop, r);
    SpliceSuccessor(m, Snap(s), ctx, c, l, p, x, Top, sc, r, sx, sr);
  }

  /** The seven writes of rb.c:299-307 add up to the four changed nodes. */
  lemma FarWrites(m: Mem, ctx: Ctx, p: RbNode, r: RbNode, n: RbNode, pc: Cell, nc: Cell)
    requires p in m && m[p] == pc && n in m && m[n] == nc && r in m && (ctx.Fr? ==> ctx.n in m)
    requires p != n && n != r && p != r
    requires ctx.Fr? ==> ctx.n != p && ctx.n != n && ctx.n != r
    ensures var m1 := Relink(m, ctx, n);
            var m2 := m1[n := m1[n].With(false, pc.l)];
            var m3 := m2[r := m2[r].With(false, nc.r)];
            var m4 := m3[n := m3[n].With(true, pc.r)];
            var m5 := m4[n := m4[n].(c := pc.c)];
            m5[p := m5[p].(c := nc.c)]
            == Relink(m[r := m[r].With(false, nc.r)][n := Cell(pc.l, pc.r, nc.x, pc.c)][p := m[p].(c := nc.c)], ctx, n)
  {
  }

  method SetRawColor(ghost s: set<RbNode>, n: RbNode, c: Color)
    requires n in s
    modifies n`color
    ensures Snap(s) == old(Snap(s))[n := old(Snap(s))[n].(c := c)]
  {
    n.color := c;
  }

  /** rb.c:299-307 as writes. */
  method FarLinks(head: RbNode, ghost s: set<RbNode>, ghost ctx: Ctx, top: RbNode, dtop: bool, p: RbNode, r: RbNode, n: RbNode)
    requires head !in s && IsSlot(head, ctx, top, dtop) && (ctx.Fr? ==> top in s)
    requires p in s && r in s && n in s && p != n && n != r && p != r
    requires ctx.Fr? ==> top != p && top != n && top != r
    modifies p`color, n`left, n`right, n`color, r`left, r`right, top`left, top`right
    ensures var m := old(Snap(s));
            Snap(s) == Relink(m[r := m[r].With(false, m[n].r)][n := Cell(m[p].l, m[p].r, m[n].x, m[p].c)][p := m[p].(c := m[n].c)], ctx, n)
    ensures head.left == if ctx.Top? then n else old(head.left)
    ensures p.color == old(n.color)
  {
    ghost var m := Snap(s);
    SetSlot(head, s, ctx, top, dtop, n);
    SetLink(s, n, false, p.left);
    SetLink(s, r, false, n.right);
    SetLink(s, n, true, p.right);
    var t := n.color;
    SetRawColor(s, n, p.color);
    SetRawColor(s, p, t);
    FarWrites(m, ctx, p, r, n, m[p], m[n]);
  }

  /** rb.c:297-307: the successor `n` hangs deeper, on the left of `r`. */
  method TakeFar(head: RbNode, ghost s: set<RbNode>, ghost ctx: Ctx, top: RbNode, dtop: bool, p: RbNode, r: RbNode, n: RbNode,
                 ghost c: Color, ghost l: Tree, ghost x: Item, ghost ic: Ctx, ghost sc: Color, ghost sx: Item, ghost sr: Tree)
    requires Heap(head, s, ctx, Node(c, l, p, x, Plug(ic, Node(sc, Leaf, n, sx, sr)))) && IsSlot(head, ctx, top, dtop)
    requires LeftSpine(ic) && ic.Fr? && ic.n == r
    modifies p`color, n`left, n`right, n`color, r`left, r`right, top`left, top`right
    ensures Heap(head, s, ctx, Node(c, l, n, sx, Plug(ic, sr))) && p.color == sc
  {
    hide Rep;
    hide Bst;
    hide CtxRep;
    hide CtxBst;
    hide Plug;
    ghost var m := Snap(s);
    SuccessorReads(m, ctx, c, l, p, x, ic, sc, n, sx, sr);
    SuccessorHolder(m, ctx, c, l, p, x, ic, sc, n, sx, sr);
    FarLinks(head, s, ctx, top, dtop, p, r, n);
    assert RootPtr(ic, n) == RootPtr(ic, Ptr(sr));
    SpliceSuccessor(m, Snap(s), ctx, c, l, p, x, ic, sc, n, sx, sr);
  }

  // ---------------------------------------------------------------- the splice as a whole

  /** Half way to the successor: `ic` has been walked below the node of `fr`, and `st` is next. */
  ghost predicate Walk(head: RbNode, s: set<RbNode>, fr: Ctx, right: Tree, ic: Ctx, st: Tree, h: nat,
                       pa: seq<RbNode>, da: seq<bool>, k0: int, k: int)
    reads head, s
  {
    && Heap(head, s, Append(ic, fr), st) && st.Node? && right == Plug(ic, st) && LeftSpine(ic)
    && InnerStack(ic, pa, da, k0 + 1, k) && k == k0 + 1 + Depth(ic)
    && CtxRB(Append(ic, fr), h) && RB(st, h) && Fits(Append(ic, fr), st)
  }

  lemma WalkStep(head: RbNode, s: set<RbNode>, fr: Ctx, right: Tree, ic: Ctx, st: Tree, h: nat,
                 pa: seq<RbNode>, da: seq<bool>, k0: int, k: int) returns (h': nat)
    requires Walk(head, s, fr, right, ic, st, h, pa, da, k0, k) && st.l.Node?
    requires k0 + Height(right) < RB_MAX_HEIGHT
    ensures k + 1 < RB_MAX_HEIGHT
    ensures Walk(head, s, fr, right, Fr(false, st.c, st.n, st.x, st.r, ic), st.l, h', pa[k := st.n], da[k := false], k0, k + 1)
  {
    PlugHeight(ic, st);
    hide Heap;
    InnerPrefix(ic, pa, da, pa[k := st.n], da[k := false], k0 + 1, k);
    h' := DownRB(Append(ic, fr), st, false, h);
    hide CtxRB;
    hide RB;
    Down(head, s, Append(ic, fr), st, false);
  }

  lemma WalkReads(head: RbNode, s: set<RbNode>, fr: Ctx, right: Tree, ic: Ctx, st: Tree, h: nat,
                  pa: seq<RbNode>, da: seq<bool>, k0: int, k: int)
    requires Walk(head, s, fr, right, ic, st, h, pa, da, k0, k)
    ensures st.n in s && st.n.left == Ptr(st.l)
    ensures ic.Fr? ==> ic.n in s && ic.n.Link(ic.d) == st.n
    ensures st.l.Node? ==> st.l.n in s && st.l.n.left == Ptr(st.l.l)
  {
    hide CtxRB;
    hide RB;
    OnHeap(head, s, Append(ic, fr), st);
    Down(head, s, Append(ic, fr), st, false);
    OnHeap(head, s, Fr(false, st.c, st.n, st.x, st.r, Append(ic, fr)), st.l);
  }

  /** rb.c:284-295: walk left from the right child `r0`, recording the way from slot `k0 + 1` on. */
  method FindSuccessor(head: RbNode, ghost s: set<RbNode>, ghost fr: Ctx, ghost right: Tree, ghost h: nat,
                       pa0: seq<RbNode>, da0: seq<bool>, k0: int, r0: RbNode)
      returns (r: RbNode, n: RbNode, pa: seq<RbNode>, da: seq<bool>, k: int, ghost ic: Ctx, ghost st: Tree, ghost hs: nat)
    requires Heap(head, s, fr, right) && right.Node? && right.n == r0 && right.l.Node?
    requires CtxRB(fr, h) && RB(right, h) && Fits(fr, right)
    requires |pa0| == |da0| == RB_MAX_HEIGHT && 1 <= k0 && k0 + Height(right) + 1 < RB_MAX_HEIGHT
    ensures Walk(head, s, fr, right, ic, st, hs, pa, da, k0, k) && k < RB_MAX_HEIGHT
    ensures ic.Fr? && ic.n == r && st.l.Leaf? && st.n == n && r in s && n in s
    ensures pa[..k0] == pa0[..k0] && da[..k0] == da0[..k0]
  {
    pa, da, k := pa0, da0, k0 + 1;
    ic, st, hs := Top, right, h;
    r := r0;
    assert Walk(head, s, fr, right, ic, st, hs, pa, da, k0, k);
    hide Walk;
    while true
      invariant Walk(head, s, fr, right, ic, st, hs, pa, da, k0, k)
      invariant st.Node? && st.n == r && st.l.Node? && k0 < k < RB_MAX_HEIGHT
      invariant |pa| == |da| == RB_MAX_HEIGHT && pa[..k0] == pa0[..k0] && da[..k0] == da0[..k0]
      decreases st
    {
      WalkReads(head, s, fr, right, ic, st, hs, pa, da, k0, k);
      hs := WalkStep(head, s, fr, right, ic, st, hs, pa, da, k0, k);
      ic, st := Fr(false, st.c, st.n, st.x, st.r, ic), st.l;
      pa, da := pa[k := r], da[k := false];
      k := k + 1;
      n := r.left;
      if n.left == null {
        break;
      }
      r := n;
    }
  }

  /** The common end of the two successor cases. */
  lemma Spliced(head: RbNode, s: set<RbNode>, ctx: Ctx, t: Tree, ic: Ctx, st: Tree, h: nat,
                pa: seq<RbNode>, da: seq<bool>, k0: int, k: int) returns (ctx': Ctx, h': nat)
    requires t.Node? && st.Node? && st.l.Leaf? && LeftSpine(ic) && t.r == Plug(ic, st)
    requires Heap(head, s, ctx, Node(t.c, t.l, st.n, st.x, Plug(ic, st.r)))
    requires CtxRB(Append(ic, Fr(true, t.c, t.n, t.x, t.l, ctx)), h) && RB(st, h)
    requires Fits(Append(ic, Fr(true, t.c, t.n, t.x, t.l, ctx)), st)
    requires OnStack(head, ctx, pa, da, k0) && InnerStack(ic, pa, da, k0 + 1, k)
    requires pa[k0] == st.n && da[k0]
    ensures Heap(head, s, ctx', st.r) && Removed(ctx', st.r, st.c == Black, h')
    ensures OnStack(head, ctx', pa, da, k)
    ensures Flat(Plug(ctx', st.r)) == Before(ctx) + Flat(t.l) + Flat(t.r) + After(ctx)
  {
    hide Heap;
    var fr := Fr(true, t.c, st.n, st.x, t.l, ctx);
    ctx' := Append(ic, fr);
    ReplaceRB(ic, t.c, t.n, t.x, st.n, st.x, t.l, ctx, h);
    SameTop(ic, Fr(true, t.c, t.n, t.x, t.l, ctx), fr);
    hide CtxRB;
    h' := RemoveRB(ctx', st.c, st.l, st.n, st.x, st.r, st.r, h);
    hide Removed;
    hide RB;
    JoinStack(head, ic, fr, pa, da, k0 + 1, k);
    SpliceFlat(ctx, t.c, t.l, t.n, t.x, ic, st.c, st.n, st.x, st.r);
    PlugAppend(ic, fr, st.r);
    Within(head, s, ctx, Node(t.c, t.l, st.n, st.x, Plug(ic, st.r)));
    Within(head, s, ctx', st.r);
  }

  lemma SameTop(ic: Ctx, fr: Ctx, fr': Ctx)
    requires fr.Fr? && fr'.Fr? && fr.c == fr'.c
    ensures Append(ic, fr).Fr? && Append(ic, fr').Fr? && Append(ic, fr).c == Append(ic, fr').c
  {
  }

  /** rb.c:264-309: unlink `p`.  Afterwards `black` says whether a black node was lost, and the stack
      leads to the link below which it was lost. */
  method Splice(head: RbNode, ghost s: set<RbNode>, ghost ctx: Ctx, ghost t: Tree, ghost h: nat,
                pa0: seq<RbNode>, da0: seq<bool>, k0: int, p: RbNode)
      returns (black: bool, pa: seq<RbNode>, da: seq<bool>, k: int, ghost ctx': Ctx, ghost t': Tree, ghost h': nat)
    requires Heap(head, s, ctx, t) && t.Node? && t.n == p
    requires CtxRB(ctx, h) && RB(t, h) && Fits(ctx, t)
    requires OnStack(head, ctx, pa0, da0, k0) && k0 + Height(t) < RB_MAX_HEIGHT
    modifies s, head
    ensures Heap(head, s, ctx', t') && Removed(ctx', t', black, h')
    ensures OnStack(head, ctx', pa, da, k) && k < RB_MAX_HEIGHT
    ensures Flat(Plug(ctx', t')) == Before(ctx) + Flat(t.l) + Flat(t.r) + After(ctx)
  {
    pa, da, k := pa0, da0, k0;
    OnHeap(head, s, ctx, t);
    if p.right == null {
      h' := RemoveRB(ctx, t.c, t.l, p, t.x, t.r, t.l, h);
      PlugFlat(ctx, t.l);
      TakeLeft(head, s, ctx, t, pa[k - 1], da[k - 1], p);
      ctx', t' := ctx, t.l;
      black := p.color == Black;
    } else {
      ghost var fr := Fr(true, t.c, p, t.x, t.l, ctx);
      Down(head, s, ctx, t, true);
      ghost var hr := DownRB(ctx, t, true, h);
      OnHeap(head, s, fr, t.r);
      black, pa, da, k, ctx', t', h' := SpliceRightNode(head, s, ctx, t, hr, pa0, da0, k0, p);
    }
  }

  /** rb.c:266-309. */
  method SpliceRightNode(head: RbNode, ghost s: set<RbNode>, ghost ctx: Ctx, ghost t: Tree, ghost h: nat,
                         pa0: seq<RbNode>, da0: seq<bool>, k0: int, p: RbNode)
      returns (black: bool, pa: seq<RbNode>, da: seq<bool>, k: int, ghost ctx': Ctx, ghost t': Tree, ghost h': nat)
    requires Heap(head, s, ctx, t) && t.Node? && t.n == p && t.r.Node? && p in s && p.right == t.r.n
    requires var fr := Fr(true, t.c, p, t.x, t.l, ctx);
             Heap(head, s, fr, t.r) && CtxRB(fr, h) && RB(t.r, h) && Fits(fr, t.r)
    requires OnStack(head, ctx, pa0, da0, k0) && k0 + Height(t) < RB_MAX_HEIGHT
    modifies s, head
    ensures Heap(head, s, ctx', t') && Removed(ctx', t', black, h')
    ensures OnStack(head, ctx', pa, da, k) && k < RB_MAX_HEIGHT
    ensures Flat(Plug(ctx', t')) == Before(ctx) + Flat(t.l) + Flat(t.r) + After(ctx)
  {
    pa, da, k := pa0, da0, k0;
    var r := p.right;
    ghost var ic, st, hs, fr := Top, t.r, h, Fr(true, t.c, p, t.x, t.l, ctx);
    OnHeap(head, s, fr, t.r);
    OnHeap(head, s, ctx, t);
    hide Heap;
    hide RB;
    hide CtxRB;
    if r.left == null {
      TakeNear(head, s, ctx, pa[k - 1], da[k - 1], p, r, t.c, t.l, t.x, st.c, st.x, st.r);
      pa, da := pa[k := r], da[k := true];
      k := k + 1;
    } else {
      var n;
      r, n, pa, da, k, ic, st, hs := FindSuccessor(head, s, fr, t.r, h, pa, da, k, r);
      InnerPrefix(ic, pa, da, pa[k0 := n], da[k0 := true], k0 + 1, k);
      pa, da := pa[k0 := n], da[k0 := true];
      TakeFar(head, s, ctx, pa[k0 - 1], da[k0 - 1], p, r, n, t.c, t.l, t.x, ic, st.c, st.x, st.r);
    }
    StackPrefix(head, ctx, pa0, da0, pa, da, k0);
    ctx', h' := Spliced(head, s, ctx, t, ic, st, hs, pa, da, k0, k);
    t' := st.r;
    black := p.color == Black;
  }
}
