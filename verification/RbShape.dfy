/** Node memory and tree shapes of the red-black table in debug-tools/shark/rb.c.

    A `RbNode` is a node on the heap.  Everything the proofs say about the heap goes through
    `Snap`, the value of all node fields at one moment, and through three plain datatypes:
    a `Tree` names the nodes below a link, a `Ctx` names the nodes above it, and `Plug` puts
    the two together again.  The arrays `pa`/`da` of the C code spell out a `Ctx`. */
module RbShape {

  // Items are compared by the 64-bit index at the start of their name
  // (shark_file.c:233-262), the only comparison function the program installs.
  const KEY_END: int := 0x1_0000_0000_0000_0000

  type Key = k: int | 0 <= k < KEY_END

  datatype Item = Item(key: Key, name: string)

  datatype Color = Black | Red

  /** struct rb_node; `rb_link[0]` is `left`, `rb_link[1]` is `right`. */
  class RbNode {
    var left: RbNode?
    var right: RbNode?
    var data: Item
    var color: Color

    /** Fresh memory: nothing is known about the fields. */
    constructor Malloc() {
    }

    function Link(d: bool): RbNode?
      reads this
    {
      if d then right else left
    }
  }

  /** The fields of one node, as a value. */
  datatype Cell = Cell(l: RbNode?, r: RbNode?, x: Item, c: Color) {
    function Link(d: bool): RbNode? { if d then r else l }
    function With(d: bool, q: RbNode?): Cell { if d then this.(r := q) else this.(l := q) }
  }

  type Mem = map<RbNode, Cell>

  ghost function Snap(s: set<RbNode>): Mem
    reads s
  {
    map n | n in s :: Cell(n.left, n.right, n.data, n.color)
  }

  // ---------------------------------------------------------------- trees

  datatype Tree = Leaf | Node(c: Color, l: Tree, n: RbNode, x: Item, r: Tree)

  datatype Entry = Entry(n: RbNode, x: Item)

  /** A node with subtree `a` on side `d` and `b` on the other side. */
  function Mk(d: bool, c: Color, a: Tree, n: RbNode, x: Item, b: Tree): Tree {
    if d then Node(c, b, n, x, a) else Node(c, a, n, x, b)
  }

  function Child(t: Tree, d: bool): Tree
    requires t.Node?
  {
    if d then t.r else t.l
  }

  function Ptr(t: Tree): RbNode? { if t.Leaf? then null else t.n }

  predicate IsBlack(t: Tree) { t.Leaf? || t.c == Black }

  /** The nodes and items of a tree in order. */
  function Flat(t: Tree): seq<Entry> {
    match t
    case Leaf => []
    case Node(_, l, n, x, r) => Flat(l) + [Entry(n, x)] + Flat(r)
  }

  function Size(t: Tree): nat {
    match t
    case Leaf => 0
    case Node(_, l, _, _, r) => Size(l) + 1 + Size(r)
  }

  function Height(t: Tree): nat {
    match t
    case Leaf => 0
    case Node(_, l, _, _, r) => 1 + if Height(l) < Height(r) then Height(r) else Height(l)
  }

  /** Search order, with every key strictly between `lo` and `hi`. */
  predicate Bst(t: Tree, lo: int, hi: int) {
    match t
    case Leaf => lo < hi
    case Node(_, l, _, x, r) => Bst(l, lo, x.key) && Bst(r, x.key, hi)
  }

  /** No red node has a red child, and every path down holds exactly `h` black nodes. */
  predicate RB(t: Tree, h: nat) {
    match t
    case Leaf => h == 0
    case Node(Black, l, _, _, r) => h > 0 && RB(l, h - 1) && RB(r, h - 1)
    case Node(Red, l, _, _, r) => IsBlack(l) && IsBlack(r) && RB(l, h) && RB(r, h)
  }

  /** The memory holds exactly this tree: links, items and colours of every node. */
  ghost predicate Rep(m: Mem, t: Tree) {
    match t
    case Leaf => true
    case Node(c, l, n, x, r) =>
      n in m && m[n] == Cell(Ptr(l), Ptr(r), x, c) && Rep(m, l) && Rep(m, r)
  }

  // ---------------------------------------------------------------- contexts

  /** The path from a link up to the root, innermost node first.  `d` is the side on which
      the link hangs, `sib` the subtree on the other side. */
  datatype Ctx = Top | Fr(d: bool, c: Color, n: RbNode, x: Item, sib: Tree, up: Ctx)

  function Plug(ctx: Ctx, t: Tree): Tree {
    match ctx
    case Top => t
    case Fr(d, c, n, x, sib, up) => Plug(up, Mk(d, c, t, n, x, sib))
  }

  function Depth(ctx: Ctx): nat {
    match ctx
    case Top => 0
    case Fr(_, _, _, _, _, up) => 1 + Depth(up)
  }

  /** The keys that may stand below the link are those strictly between `Lo` and `Hi`. */
  function Lo(ctx: Ctx, lo: int): int {
    match ctx
    case Top => lo
    case Fr(d, _, _, x, _, up) => if d then x.key else Lo(up, lo)
  }

  function Hi(ctx: Ctx, hi: int): int {
    match ctx
    case Top => hi
    case Fr(d, _, _, x, _, up) => if d then Hi(up, hi) else x.key
  }

  predicate CtxBst(ctx: Ctx, lo: int, hi: int) {
    match ctx
    case Top => true
    case Fr(d, _, _, x, sib, up) =>
      && CtxBst(up, lo, hi)
      && Lo(up, lo) < x.key < Hi(up, hi)
      && (if d then Bst(sib, Lo(up, lo), x.key) else Bst(sib, x.key, Hi(up, hi)))
  }

  /** A red-black tree results when a tree of black height `h` is plugged in; its root must be
      black when the innermost node is red.  The outermost node is black. */
  predicate CtxRB(ctx: Ctx, h: nat) {
    match ctx
    case Top => true
    case Fr(_, Black, _, _, sib, up) => RB(sib, h) && CtxRB(up, h + 1)
    case Fr(_, Red, _, _, sib, up) =>
      RB(sib, h) && IsBlack(sib) && up.Fr? && up.c == Black && CtxRB(up, h)
  }

  /** The memory holds the path, and the innermost link holds `q`. */
  ghost predicate CtxRep(m: Mem, ctx: Ctx, q: RbNode?) {
    match ctx
    case Top => true
    case Fr(d, c, n, x, sib, up) =>
      && n in m
      && m[n] == (if d then Cell(Ptr(sib), q, x, c) else Cell(q, Ptr(sib), x, c))
      && Rep(m, sib)
      && CtxRep(m, up, n)
  }

  /** What the root link holds when the innermost link holds `q`. */
  function RootPtr(ctx: Ctx, q: RbNode?): RbNode? {
    match ctx
    case Top => q
    case Fr(_, _, n, _, _, up) => RootPtr(up, n)
  }

  function Before(ctx: Ctx): seq<Entry> {
    match ctx
    case Top => []
    case Fr(d, _, n, x, sib, up) => if d then Before(up) + Flat(sib) + [Entry(n, x)] else Before(up)
  }

  function After(ctx: Ctx): seq<Entry> {
    match ctx
    case Top => []
    case Fr(d, _, n, x, sib, up) => if d then After(up) else [Entry(n, x)] + Flat(sib) + After(up)
  }

  /** `inner` hung below `outer`. */
  function Append(inner: Ctx, outer: Ctx): Ctx {
    match inner
    case Top => outer
    case Fr(d, c, n, x, sib, up) => Fr(d, c, n, x, sib, Append(up, outer))
  }

  // ---------------------------------------------------------------- opening and closing a context

  lemma {:induction false} PlugFlat(ctx: Ctx, t: Tree)
    ensures Flat(Plug(ctx, t)) == Before(ctx) + Flat(t) + After(ctx)
  {
    match ctx
    case Top =>
    case Fr(d, c, n, x, sib, up) =>
      PlugFlat(up, Mk(d, c, t, n, x, sib));
      FlatMk(d, c, t, n, x, sib);
      hide Flat;
      hide Plug;
      hide Mk;
      if d {
        Join5(Before(up), Flat(sib), [Entry(n, x)], Flat(t), After(up));
      } else {
        Join5(Before(up), Flat(t), [Entry(n, x)], Flat(sib), After(up));
      }
  }

  lemma FlatMk(d: bool, c: Color, t: Tree, n: RbNode, x: Item, sib: Tree)
    ensures Flat(Mk(d, c, t, n, x, sib))
         == if d then Flat(sib) + [Entry(n, x)] + Flat(t) else Flat(t) + [Entry(n, x)] + Flat(sib)
  {
  }

  lemma Join5(a: seq<Entry>, b: seq<Entry>, e: seq<Entry>, c: seq<Entry>, f: seq<Entry>)
    ensures a + (b + e + c) + f == (a + b + e) + c + f
    ensures a + (b + e + c) + f == a + b + (e + c + f)
  {
  }

  lemma {:induction false} PlugBst(ctx: Ctx, t: Tree, lo: int, hi: int)
    ensures Bst(Plug(ctx, t), lo, hi) <==> CtxBst(ctx, lo, hi) && Bst(t, Lo(ctx, lo), Hi(ctx, hi))
  {
    match ctx
    case Top =>
    case Fr(d, c, n, x, sib, up) =>
      PlugBst(up, Mk(d, c, t, n, x, sib), lo, hi);
      BstBounds(t, if d then x.key else Lo(up, lo), if d then Hi(up, hi) else x.key);
      BstBounds(sib, if d then Lo(up, lo) else x.key, if d then x.key else Hi(up, hi));
  }

  lemma {:induction false} BstBounds(t: Tree, lo: int, hi: int)
    ensures Bst(t, lo, hi) ==> lo < hi
  {
    if t.Node? {
      BstBounds(t.l, lo, t.x.key);
      BstBounds(t.r, t.x.key, hi);
    }
  }

  lemma {:induction false} PlugRep(m: Mem, ctx: Ctx, t: Tree)
    ensures Rep(m, Plug(ctx, t)) <==> CtxRep(m, ctx, Ptr(t)) && Rep(m, t)
    ensures Ptr(Plug(ctx, t)) == RootPtr(ctx, Ptr(t))
  {
    match ctx
    case Top =>
    case Fr(d, c, n, x, sib, up) => PlugRep(m, up, Mk(d, c, t, n, x, sib));
  }

  lemma {:induction false} SizeFlat(t: Tree)
    ensures Size(t) == |Flat(t)|
  {
    if t.Node? {
      SizeFlat(t.l);
      SizeFlat(t.r);
    }
  }

  lemma {:induction false} PlugHeight(ctx: Ctx, t: Tree)
    ensures Depth(ctx) + Height(t) <= Height(Plug(ctx, t))
  {
    match ctx
    case Top =>
    case Fr(d, c, n, x, sib, up) => PlugHeight(up, Mk(d, c, t, n, x, sib));
  }

  // ---------------------------------------------------------------- red-black trees

  /** The black height a tree gets when one of black height `h` is plugged into the context. */
  function TopHeight(ctx: Ctx, h: nat): nat {
    match ctx
    case Top => h
    case Fr(_, c, _, _, _, up) => TopHeight(up, if c == Black then h + 1 else h)
  }

  /** May a tree with this root colour hang below the context? */
  predicate Fits(ctx: Ctx, t: Tree) { IsBlack(t) || (ctx.Fr? && ctx.c == Black) }

  /** The balance the table keeps between operations: a black root over an `RB` tree. */
  ghost predicate Balanced(t: Tree) { IsBlack(t) && exists h :: RB(t, h) }

  lemma {:induction false} PlugRB(ctx: Ctx, t: Tree, h: nat)
    requires CtxRB(ctx, h) && RB(t, h) && Fits(ctx, t)
    ensures RB(Plug(ctx, t), TopHeight(ctx, h)) && IsBlack(Plug(ctx, t))
  {
    match ctx
    case Top =>
    case Fr(d, c, n, x, sib, up) =>
      PlugRB(up, Mk(d, c, t, n, x, sib), if c == Black then h + 1 else h);
  }

  /** Stepping down one link keeps the balance facts. */
  lemma DownRB(ctx: Ctx, t: Tree, d: bool, h: nat) returns (h': nat)
    requires CtxRB(ctx, h) && RB(t, h) && Fits(ctx, t) && t.Node?
    ensures h' == if t.c == Black then h - 1 else h
    ensures CtxRB(Fr(d, t.c, t.n, t.x, Child(t, !d), ctx), h')
    ensures RB(Child(t, d), h') && Fits(Fr(d, t.c, t.n, t.x, Child(t, !d), ctx), Child(t, d))
  {
    h' := if t.c == Black then h - 1 else h;
  }

  // ---------------------------------------------------------------- framing by key

  /** A tree is untouched by any change to nodes whose keys lie outside its interval. */
  lemma {:induction false} RepFrame(m: Mem, m': Mem, t: Tree, lo: int, hi: int)
    requires Rep(m, t) && Bst(t, lo, hi)
    requires forall n :: n in m && lo < m[n].x.key < hi ==> n in m' && m'[n] == m[n]
    ensures Rep(m', t)
  {
    if t.Node? {
      BstBounds(t.l, lo, t.x.key);
      BstBounds(t.r, t.x.key, hi);
      RepFrame(m, m', t.l, lo, t.x.key);
      RepFrame(m, m', t.r, t.x.key, hi);
    }
  }

  /** The memory after the innermost link of the context is set to `q`. */
  function Relink(m: Mem, ctx: Ctx, q: RbNode?): Mem
    requires ctx.Fr? ==> ctx.n in m
  {
    if ctx.Top? then m else m[ctx.n := m[ctx.n].With(ctx.d, q)]
  }

  /** Nodes with keys in (`lo`, `hi`) but not in (`a`, `b`) are the same in both memories. */
  ghost predicate SameAround(m: Mem, m': Mem, lo: int, a: int, b: int, hi: int) {
    forall n :: n in m && lo < m[n].x.key < hi && !(a < m[n].x.key < b) ==> n in m' && m'[n] == m[n]
  }

  lemma {:induction false} CtxFrame(m: Mem, m': Mem, ctx: Ctx, q: RbNode?, lo: int, hi: int)
    requires CtxRep(m, ctx, q) && CtxBst(ctx, lo, hi)
    requires SameAround(m, m', lo, Lo(ctx, lo), Hi(ctx, hi), hi)
    ensures CtxRep(m', ctx, q)
  {
    match ctx
    case Top =>
    case Fr(d, c, n, x, sib, up) =>
      CtxInterval(up, lo, hi);
      RepFrame(m, m', sib, if d then Lo(up, lo) else x.key, if d then x.key else Hi(up, hi));
      CtxFrame(m, m', up, n, lo, hi);
  }

  lemma {:induction false} CtxInterval(ctx: Ctx, lo: int, hi: int)
    requires CtxBst(ctx, lo, hi)
    ensures lo <= Lo(ctx, lo) && Hi(ctx, hi) <= hi
  {
    if ctx.Fr? {
      CtxInterval(ctx.up, lo, hi);
    }
  }

  /** Change what hangs below a context: rewrite only nodes of the hole's interval, then set the link. */
  lemma Graft(m: Mem, m': Mem, ctx: Ctx, q: RbNode?, q': RbNode?, lo: int, hi: int)
    requires CtxRep(m, ctx, q) && CtxBst(ctx, lo, hi)
    requires SameAround(Relink(m, ctx, q'), m', lo, Lo(ctx, lo), Hi(ctx, hi), hi)
    ensures CtxRep(m', ctx, q')
  {
    match ctx
    case Top =>
    case Fr(d, c, n, x, sib, up) =>
      var m1 := Relink(m, ctx, q');
      CtxInterval(up, lo, hi);
      RepFrame(m, m1, sib, if d then Lo(up, lo) else x.key, if d then x.key else Hi(up, hi));
      CtxFrame(m, m1, up, n, lo, hi);
      CtxFrame(m1, m', ctx, q', lo, hi);
  }

  // ---------------------------------------------------------------- the nodes of a tree

  ghost function Nodes(t: Tree): set<RbNode> { set e | e in Flat(t) :: e.n }

  /** Only the nodes of a tree matter to it. */
  lemma {:induction false} RepNodes(m: Mem, m': Mem, t: Tree)
    requires Rep(m, t) && forall e :: e in Flat(t) && e.n in m ==> e.n in m' && m'[e.n] == m[e.n]
    ensures Rep(m', t)
  {
    if t.Node? {
      assert Entry(t.n, t.x) in Flat(t);
      RepNodes(m, m', t.l);
      RepNodes(m, m', t.r);
    }
  }

  lemma {:induction false} RepEntries(m: Mem, t: Tree)
    requires Rep(m, t)
    ensures forall e :: e in Flat(t) ==> e.n in m && m[e.n].x == e.x
  {
    if t.Node? {
      RepEntries(m, t.l);
      RepEntries(m, t.r);
    }
  }

  /** Entries strictly increasing by key, with all keys strictly between `lo` and `hi`. */
  predicate Sorted(s: seq<Entry>, lo: int, hi: int) {
    && (forall i :: 0 <= i < |s| ==> lo < s[i].x.key < hi)
    && (forall i, j :: 0 <= i < j < |s| ==> s[i].x.key < s[j].x.key)
  }

  lemma {:induction false} BstSorted(t: Tree, lo: int, hi: int)
    requires Bst(t, lo, hi)
    ensures Sorted(Flat(t), lo, hi)
  {
    if t.Node? {
      BstBounds(t.l, lo, t.x.key);
      BstBounds(t.r, t.x.key, hi);
      BstSorted(t.l, lo, t.x.key);
      BstSorted(t.r, t.x.key, hi);
    }
  }

  /** Entries before the link have keys up to `Lo`, entries after it keys from `Hi` on. */
  lemma {:induction false} CtxKeys(ctx: Ctx, lo: int, hi: int)
    requires CtxBst(ctx, lo, hi)
    ensures forall e :: e in Before(ctx) ==> e.x.key <= Lo(ctx, lo)
    ensures forall e :: e in After(ctx) ==> Hi(ctx, hi) <= e.x.key
  {
    match ctx
    case Top =>
    case Fr(d, c, n, x, sib, up) =>
      CtxKeys(up, lo, hi);
      BstSorted(sib, if d then Lo(up, lo) else x.key, if d then x.key else Hi(up, hi));
  }

  /** A key of the hole's interval is in the whole tree only if it is in the plugged tree. */
  lemma NotElsewhere(ctx: Ctx, t: Tree, key: int, lo: int, hi: int)
    requires CtxBst(ctx, lo, hi) && Lo(ctx, lo) < key < Hi(ctx, hi)
    ensures forall e :: e in Flat(Plug(ctx, t)) && e.x.key == key ==> e in Flat(t)
  {
    CtxKeys(ctx, lo, hi);
    PlugFlat(ctx, t);
  }
}
