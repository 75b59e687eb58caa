/** struct rb_table and its operations: rb_create, rb_find, rb_probe, rb_insert and rb_delete
    (rb.c:40-432). */
module RbTable {
  import opened RbShape
  import opened RbRules
  import opened RbSteps
  import opened RbHeight
  import opened RbInsert
  import opened RbDelete
  import opened RbSplice
  import opened RbContents
  import opened Wrappers

  /** A new red leaf hung below a context (rb.c:117-124). */
  lemma HangLeaf(m: Mem, m': Mem, ctx: Ctx, n: RbNode, x: Item)
    requires Zip(m, ctx, Leaf) && n !in m && Lo(ctx, -1) < x.key < Hi(ctx, KEY_END)
    requires ctx.Fr? ==> ctx.n in m
    requires m' == Relink(m, ctx, n)[n := Cell(null, null, x, Red)]
    ensures Zip(m', ctx, Node(Red, Leaf, n, x, Leaf))
  {
    Graft(m, m', ctx, null, n, -1, KEY_END);
  }

  /** The nodes of the tree are all that matters of a larger set of nodes. */
  lemma Shrink(head: RbNode, s: set<RbNode>, t: Tree)
    requires Heap(head, s, Top, t)
    ensures Nodes(t) <= s && Heap(head, Nodes(t), Top, t)
    ensures forall e :: e in Flat(t) ==> e.n.data == e.x
  {
    RepEntries(Snap(s), t);
    forall e | e in Flat(t) ensures e.n in s { }
    RepNodes(Snap(s), Snap(Nodes(t)), t);
  }

  lemma Descend(ctx: Ctx, t: Tree, key: int)
    requires t.Node? && Lo(ctx, -1) < key < Hi(ctx, KEY_END) && key != t.x.key
    ensures var d := key > t.x.key;
            var ctx' := Fr(d, t.c, t.n, t.x, Child(t, !d), ctx);
            Lo(ctx', -1) < key < Hi(ctx', KEY_END)
  {
  }

  /** rb.c:117-124: allocate a node, link it, fill it in. */
  method NewLeaf(head: RbNode, ghost s: set<RbNode>, ghost ctx: Ctx, top: RbNode, d: bool, item: Item) returns (n: RbNode)
    requires Heap(head, s, ctx, Leaf) && IsSlot(head, ctx, top, d)
    requires Lo(ctx, -1) < item.key < Hi(ctx, KEY_END)
    modifies top`left, top`right
    ensures fresh(n) && n.data == item
    ensures Heap(head, s + {n}, ctx, Node(Red, Leaf, n, item, Leaf))
  {
    OnHeap(head, s, ctx, Leaf);
    ghost var m := Snap(s);
    n := new RbNode.Malloc();
    SetSlot(head, s, ctx, top, d, n);
    n.data := item;
    n.left, n.right := null, null;
    n.color := Red;
    assert Snap(s + {n}) == Relink(m, ctx, n)[n := Cell(null, null, item, Red)];
    HangLeaf(m, Snap(s + {n}), ctx, n, item);
  }

  /** rb.c:117-120 when the allocator returns NULL: the empty link is written with NULL again. */
  method NoLeaf(head: RbNode, ghost s: set<RbNode>, ghost ctx: Ctx, top: RbNode, d: bool)
    requires Heap(head, s, ctx, Leaf) && IsSlot(head, ctx, top, d)
    modifies top`left, top`right
    ensures Heap(head, s, ctx, Leaf)
  {
    OnHeap(head, s, ctx, Leaf);
    ghost var m := Snap(s);
    SetSlot(head, s, ctx, top, d, null);
    assert Snap(s) == m;
  }

  /** rb.c:117-199 on the nodes: the new leaf, then the balance. */
  method InsertNode(head: RbNode, ghost before: Tree, item: Item, pa: seq<RbNode>, da: seq<bool>, k: int,
                    ghost ctx: Ctx, ghost h: nat) returns (r: RbNode, ghost after: Tree, ghost i: nat)
    requires Heap(head, Nodes(before), ctx, Leaf) && Plug(ctx, Leaf) == before
    requires Lo(ctx, -1) < item.key < Hi(ctx, KEY_END)
    requires OnStack(head, ctx, pa, da, k) && CtxRB(ctx, h) && RB(Leaf, h)
    modifies head, Nodes(before)
    ensures fresh(r) && r.data == item
    ensures Nodes(after) == Nodes(before) + {r} && Heap(head, Nodes(after), Top, after) && Balanced(after)
    ensures i <= |Flat(before)| && Flat(after) == Flat(before)[..i] + [Entry(r, item)] + Flat(before)[i..]
    ensures Size(after) == Size(before) + 1 && MapOf(Flat(after)) == MapOf(Flat(before))[item.key := item]
  {
    ghost var s := Nodes(before);
    OnHeap(head, s, ctx, Leaf);
    hide Nodes;
    hide MapOf;
    hide Flat;
    r := NewLeaf(head, s, ctx, pa[k - 1], da[k - 1], item);
    LeafRB(r, item, h);
    hide Heap;
    hide RB;
    hide CtxRB;
    after := FixUp(head, s + {r}, ctx, Node(Red, Leaf, r, item, Leaf), h, pa, da, k);
    i := |Before(ctx)|;
    LeafFlat(ctx, r, item);
    Inserted(head, s + {r}, before, Entry(r, item), after, Before(ctx), After(ctx));
    SplitAt(Before(ctx), After(ctx));
  }

  /** rb.c:264-428 on the nodes: `p` is unlinked, then the balance is restored. */
  method RemoveNode(head: RbNode, ghost before: Tree, pa: seq<RbNode>, da: seq<bool>, k: int,
                    ghost ctx: Ctx, ghost t: Tree, ghost h: nat, p: RbNode) returns (ghost after: Tree, ghost i: nat)
    requires Heap(head, Nodes(before), Top, before)
    requires Heap(head, Nodes(before), ctx, t) && Plug(ctx, t) == before && t.Node? && t.n == p
    requires OnStack(head, ctx, pa, da, k) && k + Height(t) < RB_MAX_HEIGHT
    requires CtxRB(ctx, h) && RB(t, h) && Fits(ctx, t)
    modifies head, Nodes(before)
    ensures Nodes(after) == Nodes(before) - {p} && Heap(head, Nodes(after), Top, after) && Balanced(after)
    ensures i < |Flat(before)| && Flat(before)[i] == Entry(p, t.x)
    ensures Flat(after) == Flat(before)[..i] + Flat(before)[i + 1..]
    ensures Size(after) == Size(before) - 1 && MapOf(Flat(after)) == MapOf(Flat(before)) - {t.x.key}
  {
    ghost var s := Nodes(before);
    var black, pa', da', k';
    ghost var ctx', t', h';
    ghost var a, b := Unique(head, s, before, ctx, t);
    i := |a|;
    hide Nodes;
    hide MapOf;
    hide Flat;
    hide Heap;
    hide Plug;
    hide OnStack;
    hide RB;
    hide CtxRB;
    hide Short;
    black, pa', da', k', ctx', t', h' := Splice(head, s, ctx, t, h, pa, da, k, p);
    if black {
      after := FixShort(head, s, ctx', t', h', pa', da', k');
    } else {
      Finish(head, s, ctx', t', h');
      after := Plug(ctx', t');
    }
    Deleted(head, s, before, Entry(p, t.x), after, a, b);
    EntryAt(a, Entry(p, t.x), b);
  }

  /** The deleted entry is the only one with its node, and the only one with its key. */
  lemma Unique(head: RbNode, s: set<RbNode>, before: Tree, ctx: Ctx, t: Tree) returns (a: seq<Entry>, b: seq<Entry>)
    requires Heap(head, s, Top, before) && before == Plug(ctx, t) && t.Node?
    ensures Flat(before) == a + [Entry(t.n, t.x)] + b
    ensures Before(ctx) + Flat(t.l) + Flat(t.r) + After(ctx) == a + b
    ensures DistinctKeys(Flat(before))
    ensures forall e :: e in Flat(before) && e.n == t.n ==> e.x == t.x
  {
    PlugFlat(ctx, t);
    BstSorted(before, -1, KEY_END);
    SortedDistinct(Flat(before), -1, KEY_END);
    Shrink(head, s, before);
    hide Heap;
    hide Sorted;
    hide DistinctKeys;
    hide Plug;
    var e := Entry(t.n, t.x);
    assert Flat(t) == Flat(t.l) + [e] + Flat(t.r);
    hide Flat;
    a, b := Before(ctx) + Flat(t.l), Flat(t.r) + After(ctx);
    Splits(Before(ctx), Flat(t.l), e, Flat(t.r), After(ctx));
    assert Flat(before)[|a|] == e;
  }

  lemma Splits(a: seq<Entry>, l: seq<Entry>, e: Entry, r: seq<Entry>, b: seq<Entry>)
    ensures a + (l + [e] + r) + b == (a + l) + [e] + (r + b)
    ensures a + l + r + b == (a + l) + (r + b)
  {
  }

  /** The bookkeeping of a successful deletion. */
  lemma Deleted(head: RbNode, s: set<RbNode>, before: Tree, e: Entry, after: Tree, a: seq<Entry>, b: seq<Entry>)
    requires s == Nodes(before) && Heap(head, s, Top, after)
    requires Flat(after) == a + b && Flat(before) == a + [e] + b
    requires DistinctKeys(Flat(before))
    requires forall f :: f in Flat(before) && f.n == e.n ==> f.x == e.x
    ensures Nodes(after) == s - {e.n} && Heap(head, Nodes(after), Top, after)
    ensures Size(after) == Size(before) - 1 && MapOf(Flat(after)) == MapOf(Flat(before)) - {e.x.key}
  {
    Shrink(head, s, after);
    hide Heap;
    SizeFlat(before);
    SizeFlat(after);
    hide Flat;
    hide Size;
    hide MapOf;
    MapOfRemove(a, e, b);
    NodesGain(after, before, a, e, b);
    Absent(a, e, b);
    assert e.n !in Nodes(after);
    hide DistinctKeys;
    hide Nodes;
  }

  lemma SplitAt(a: seq<Entry>, b: seq<Entry>)
    ensures (a + b)[..|a|] == a && (a + b)[|a|..] == b
  {
  }

  lemma EntryAt(a: seq<Entry>, e: Entry, b: seq<Entry>)
    ensures var s := a + [e] + b; s[|a|] == e && s[..|a|] + s[|a| + 1..] == a + b
  {
    var s := a + [e] + b;
    assert s[..|a|] == a && s[|a| + 1..] == b;
  }

  lemma Absent(a: seq<Entry>, e: Entry, b: seq<Entry>)
    requires DistinctKeys(a + [e] + b) && e.x.key !in MapOf(a + b)
    requires forall f :: f in a + [e] + b && f.n == e.n ==> f.x == e.x
    ensures forall f :: f in a + b ==> f.n != e.n
  {
    var s := a + [e] + b;
    forall f | f in a + b ensures f.n != e.n {
      var i :| 0 <= i < |a + b| && (a + b)[i] == f;
      var j := if i < |a| then i else i + 1;
      assert s[j] == f && s[|a|] == e && f in s;
    }
  }

  ghost function BalancedHeight(t: Tree): (h: nat)
    requires Balanced(t)
    ensures RB(t, h)
  {
    var h :| RB(t, h); h
  }

  class Table {
    const head: RbNode
    var count: nat
    var generation: nat
    ghost var tree: Tree
    ghost var stamp: nat      // changes so far; `generation` is its value modulo 2^64

    ghost predicate Valid()
      reads this, head, Nodes(tree)
    {
      && Heap(head, Nodes(tree), Top, tree) && Balanced(tree)
      && count == Size(tree) <= MAX_COUNT && generation == stamp % KEY_END
    }

    /** Nodes and items in ascending order. */
    ghost function Entries(): seq<Entry>
      reads this
    {
      Flat(tree)
    }

    ghost function Contents(): map<int, Item>
      reads this
    {
      MapOf(Flat(tree))
    }

    constructor ()
      ensures Valid() && Entries() == [] && fresh(head)
      ensures tree == Leaf && count == generation == stamp == 0
    {
      var h := new RbNode.Malloc();
      h.left := null;
      head := h;
      count := 0;
      generation := 0;
      tree := Leaf;
      stamp := 0;
      new;
      assert RB(tree, 0);
    }

    lemma EntriesSorted()
      requires Valid()
      ensures Sorted(Entries(), -1, KEY_END) && DistinctKeys(Entries())
      ensures forall e :: e in Entries() ==> e.n in Nodes(tree) && e.n.data == e.x
      ensures forall n :: n in Nodes(tree) ==> Entry(n, n.data) in Entries()
    {
      BstSorted(tree, -1, KEY_END);
      Shrink(head, Nodes(tree), tree);
    }

    /** What the search loop finds decides membership. */
    lemma SearchResult(ctx: Ctx, t: Tree, key: int)
      requires Valid() && Plug(ctx, t) == tree
      requires Lo(ctx, -1) < key < Hi(ctx, KEY_END)
      ensures t.Leaf? ==> key !in Contents()
      ensures t.Node? && t.x.key == key ==> key in Contents() && Contents()[key] == t.x && Entry(t.n, t.x) in Entries()
    {
      EntriesSorted();
      MapOfHas(Entries());
      PlugBst(ctx, t, -1, KEY_END);
      NotElsewhere(ctx, t, key, -1, KEY_END);
      PlugFlat(ctx, t);
      if t.Node? {
        var e := Entry(t.n, t.x);
        assert e in Flat(t);
        assert e in Entries();
      }
    }

    /** rb_find, rb.c:67-86. */
    method Find(item: Item) returns (r: Option<Item>)
      requires Valid()
      ensures r == Lookup(Contents(), item.key)
    {
      ghost var ctx, t := Top, tree;
      ghost var s := Nodes(tree);
      var p := head.left;
      while p != null
        invariant Valid()
        invariant Heap(head, s, ctx, t) && p == Ptr(t) && Plug(ctx, t) == tree
        invariant Lo(ctx, -1) < item.key < Hi(ctx, KEY_END)
        decreases t
      {
        OnHeap(head, s, ctx, t);
        SearchResult(ctx, t, item.key);
        if item.key == p.data.key {
          return Some(p.data);
        }
        Descend(ctx, t, item.key);
        Down(head, s, ctx, t, item.key > p.data.key);
        ctx, t := Fr(item.key > p.data.key, t.c, t.n, t.x, Child(t, !(item.key > p.data.key)), ctx), Child(t, item.key > p.data.key);
        p := if item.key < p.data.key then p.left else p.right;
      }
      SearchResult(ctx, t, item.key);
      return None;
    }

    /** The search loop of rb_probe and rb_delete (rb.c:104-115, 248-261): walk down until the item's
        node or an empty link is reached, recording the way.  `pa[0]` is the root link itself. */
    method SearchLoop(item: Item)
        returns (p: RbNode?, pa: seq<RbNode>, da: seq<bool>, k: int, ghost ctx: Ctx, ghost t: Tree, ghost h: nat)
      requires Valid()
      ensures Valid()
      ensures Heap(head, Nodes(tree), ctx, t) && p == Ptr(t) && Plug(ctx, t) == tree
      ensures Lo(ctx, -1) < item.key < Hi(ctx, KEY_END) && (t.Node? ==> t.x.key == item.key)
      ensures OnStack(head, ctx, pa, da, k) && k + Height(t) < RB_MAX_HEIGHT
      ensures CtxRB(ctx, h) && RB(t, h) && Fits(ctx, t)
    {
      ghost var s := Nodes(tree);
      pa, da, k := seq(RB_MAX_HEIGHT, _ => head), seq(RB_MAX_HEIGHT, _ => false), 1;
      ctx, t, h := Top, tree, BalancedHeight(tree);
      p := head.left;
      PathBound(tree);
      hide CtxRB;
      hide RB;
      while p != null
        invariant Heap(head, s, ctx, t) && p == Ptr(t) && Plug(ctx, t) == tree
        invariant Lo(ctx, -1) < item.key < Hi(ctx, KEY_END)
        invariant OnStack(head, ctx, pa, da, k) && k + Height(t) < RB_MAX_HEIGHT
        invariant CtxRB(ctx, h) && RB(t, h) && Fits(ctx, t)
        invariant Valid()
        decreases t
      {
        OnHeap(head, s, ctx, t);
        if item.key == p.data.key {
          return;
        }
        var d := item.key > p.data.key;
        Descend(ctx, t, item.key);
        Down(head, s, ctx, t, d);
        h := DownRB(ctx, t, d, h);
        StackPrefix(head, ctx, pa, da, pa[k := p], da[k := d], k);
        pa, da := pa[k := p], da[k := d];
        k := k + 1;
        ctx, t := Fr(d, t.c, t.n, t.x, Child(t, !d), ctx), Child(t, d);
        p := p.Link(d);
        OnHeap(head, s, ctx, t);
      }
    }

    /** The same, with what it says about membership. */
    method Search(item: Item)
        returns (p: RbNode?, pa: seq<RbNode>, da: seq<bool>, k: int, ghost ctx: Ctx, ghost t: Tree, ghost h: nat)
      requires Valid()
      ensures Valid()
      ensures p != null <==> item.key in Contents()
      ensures p != null ==> Contents()[item.key] == p.data && Entry(p, p.data) in Entries()
      ensures Heap(head, Nodes(tree), ctx, t) && p == Ptr(t) && Plug(ctx, t) == tree
      ensures Lo(ctx, -1) < item.key < Hi(ctx, KEY_END) && (t.Node? ==> t.x.key == item.key)
      ensures OnStack(head, ctx, pa, da, k) && k + Height(t) < RB_MAX_HEIGHT
      ensures CtxRB(ctx, h) && RB(t, h) && Fits(ctx, t)
    {
      p, pa, da, k, ctx, t, h := SearchLoop(item);
      hide CtxRB;
      hide RB;
      hide MapOf;
      hide Flat;
      hide Nodes;
      hide OnStack;
      hide Plug;
      SearchResult(ctx, t, item.key);
      OnHeap(head, Nodes(tree), ctx, t);
    }

    /** rb_probe, rb.c:92-203.  Returns the node whose data slot rb_probe hands out; `oom` says
        whether the allocation fails.  `i` is the new item's place among the entries. */
    method Probe(item: Item, oom: bool) returns (r: RbNode?, ghost i: nat)
      requires Valid() && count < MAX_COUNT
      modifies this, head, Nodes(tree)
      ensures Valid()
      // a duplicate: nothing changes
      ensures item.key in old(Contents()) ==>
                && r != null && r.data == old(Contents())[item.key] && Entry(r, r.data) in old(Entries())
                && tree == old(tree) && count == old(count) && generation == old(generation) && stamp == old(stamp)
      // no memory: nothing changes
      ensures item.key !in old(Contents()) && oom ==>
                && r == null
                && tree == old(tree) && count == old(count) && generation == old(generation) && stamp == old(stamp)
      // a new item: exactly one fresh node joins
      ensures item.key !in old(Contents()) && !oom ==>
                && r != null && fresh(r) && r.data == item
                && i <= |old(Entries())| && Entries() == old(Entries())[..i] + [Entry(r, item)] + old(Entries())[i..]
                && Nodes(tree) == old(Nodes(tree)) + {r}
                && Contents() == old(Contents())[item.key := item]
                && count == old(count) + 1 && stamp == old(stamp) + 1
    {
      ghost var s := Nodes(tree);
      var p, pa, da, k;
      ghost var ctx, t, h;
      p, pa, da, k, ctx, t, h := Search(item);
      i := 0;
      if p != null {
        OnHeap(head, s, ctx, t);
        return p, 0;
      }
      if oom {
        NoLeaf(head, s, ctx, pa[k - 1], da[k - 1]);
        Within(head, s, ctx, Leaf);
        return null, 0;
      }
      r, i := InsertAt(item, pa, da, k, ctx, h);
    }

    /** rb.c:117-202: the new item goes below the empty link that the stack leads to. */
    method InsertAt(item: Item, pa: seq<RbNode>, da: seq<bool>, k: int, ghost ctx: Ctx, ghost h: nat)
        returns (r: RbNode, ghost i: nat)
      requires Valid() && count < MAX_COUNT
      requires Heap(head, Nodes(tree), ctx, Leaf) && Plug(ctx, Leaf) == tree
      requires Lo(ctx, -1) < item.key < Hi(ctx, KEY_END)
      requires OnStack(head, ctx, pa, da, k) && CtxRB(ctx, h) && RB(Leaf, h)
      modifies this, head, Nodes(tree)
      ensures Valid()
      ensures fresh(r) && r.data == item
      ensures i <= |old(Entries())| && Entries() == old(Entries())[..i] + [Entry(r, item)] + old(Entries())[i..]
      ensures Nodes(tree) == old(Nodes(tree)) + {r}
      ensures Contents() == old(Contents())[item.key := item]
      ensures count == old(count) + 1 && stamp == old(stamp) + 1
    {
      hide Heap;
      hide Plug;
      hide Flat;
      hide MapOf;
      hide Nodes;
      hide RB;
      hide CtxRB;
      hide OnStack;
      hide Balanced;
      hide Size;
      hide Bst;
      NextGeneration(stamp, generation);
      ghost var after;
      r, after, i := InsertNode(head, tree, item, pa, da, k, ctx, h);
      tree := after;
      count := count + 1;
      generation := (generation + 1) % KEY_END;
      stamp := stamp + 1;
      Restored();
    }

    /** rb_delete, rb.c:236-432.  `i` is the removed entry's place. */
    method Delete(item: Item) returns (r: Option<Item>, ghost i: nat)
      requires Valid()
      modifies this, head, Nodes(tree)
      ensures Valid()
      ensures r == Lookup(old(Contents()), item.key)
      // an absent item: nothing changes
      ensures r.None? ==>
                tree == old(tree) && count == old(count) && generation == old(generation) && stamp == old(stamp)
      // otherwise exactly the stored item and its node leave
      ensures r.Some? ==>
                && i < |old(Entries())| && old(Entries())[i].x == r.value && r.value.key == item.key
                && Entries() == old(Entries())[..i] + old(Entries())[i + 1..]
                && Nodes(tree) == old(Nodes(tree)) - {old(Entries())[i].n}
                && Contents() == old(Contents()) - {item.key}
                && count == old(count) - 1 && stamp == old(stamp) + 1
    {
      var p, pa, da, k;
      ghost var ctx, t, h;
      p, pa, da, k, ctx, t, h := Search(item);
      OnHeap(head, Nodes(tree), ctx, t);
      if p == null {
        return None, 0;
      }
      r := Some(p.data);
      i := DeleteAt(pa, da, k, ctx, t, h, p);
    }

    /** rb.c:264-431: the node `p` that the stack leads to is taken out. */
    method DeleteAt(pa: seq<RbNode>, da: seq<bool>, k: int, ghost ctx: Ctx, ghost t: Tree, ghost h: nat, p: RbNode)
        returns (ghost i: nat)
      requires Valid()
      requires Heap(head, Nodes(tree), ctx, t) && Plug(ctx, t) == tree && t.Node? && t.n == p
      requires OnStack(head, ctx, pa, da, k) && k + Height(t) < RB_MAX_HEIGHT
      requires CtxRB(ctx, h) && RB(t, h) && Fits(ctx, t)
      modifies this, head, Nodes(tree)
      ensures Valid()
      ensures i < |old(Entries())| && old(Entries())[i] == Entry(p, t.x)
      ensures Entries() == old(Entries())[..i] + old(Entries())[i + 1..]
      ensures Nodes(tree) == old(Nodes(tree)) - {p}
      ensures Contents() == old(Contents()) - {t.x.key}
      ensures count == old(count) - 1 && stamp == old(stamp) + 1
    {
      ghost var after;
      hide Heap;
      hide Plug;
      hide Flat;
      hide MapOf;
      hide Nodes;
      hide RB;
      hide CtxRB;
      hide OnStack;
      hide Balanced;
      hide Size;
      hide Bst;
      NextGeneration(stamp, generation);
      after, i := RemoveNode(head, tree, pa, da, k, ctx, t, h, p);
      tree := after;
      count := count - 1;
      generation := (generation + 1) % KEY_END;
      stamp := stamp + 1;
      Restored();
    }

    /** rb_insert, rb.c:209-214: the duplicate, if there is one and it is another item. */
    method Insert(item: Item, oom: bool) returns (r: Option<Item>)
      requires Valid() && count < MAX_COUNT
      modifies this, head, Nodes(tree)
      ensures Valid()
      ensures r == if Lookup(old(Contents()), item.key) == Some(item) then None else Lookup(old(Contents()), item.key)
      ensures Contents() == if item.key in old(Contents()) || oom then old(Contents()) else old(Contents())[item.key := item]
      ensures item.key in old(Contents()) || oom ==>
                tree == old(tree) && count == old(count) && generation == old(generation) && stamp == old(stamp)
    {
      ghost var i;
      var n;
      n, i := Probe(item, oom);
      r := None;
      if n != null && n.data != item {
        r := Some(n.data);
      }
    }

    static lemma NextGeneration(stamp: nat, generation: nat)
      requires generation == stamp % KEY_END
      ensures (generation + 1) % KEY_END == (stamp + 1) % KEY_END
    {
    }

    lemma Restored()
      requires Heap(head, Nodes(tree), Top, tree) && Balanced(tree)
      requires count == Size(tree) <= MAX_COUNT && generation == stamp % KEY_END
      ensures Valid()
    {
    }
  }

  lemma LeafRB(n: RbNode, x: Item, h: nat)
    requires RB(Leaf, h)
    ensures RB(Node(Red, Leaf, n, x, Leaf), h)
  {
  }

  /** The bookkeeping of a successful insertion. */
  lemma Inserted(head: RbNode, s: set<RbNode>, before: Tree, e: Entry, after: Tree, a: seq<Entry>, b: seq<Entry>)
    requires s == Nodes(before) + {e.n} && Heap(head, s, Top, after)
    requires Flat(before) == a + b && Flat(after) == a + [e] + b
    ensures Nodes(after) == s && Size(after) == Size(before) + 1 && e.n.data == e.x
    ensures MapOf(Flat(after)) == MapOf(Flat(before))[e.x.key := e.x]
  {
    Shrink(head, s, after);
    BstSorted(after, -1, KEY_END);
    SortedDistinct(Flat(after), -1, KEY_END);
    hide Heap;
    hide Sorted;
    SizeFlat(before);
    SizeFlat(after);
    hide Flat;
    hide Size;
    hide MapOf;
    MapOfInsert(a, e, b);
    hide DistinctKeys;
    NodesGain(before, after, a, e, b);
    hide Nodes;
    assert Flat(after)[|a|] == e;
  }

  lemma LeafFlat(ctx: Ctx, n: RbNode, x: Item)
    ensures Flat(Plug(ctx, Leaf)) == Before(ctx) + After(ctx)
    ensures Flat(Plug(ctx, Node(Red, Leaf, n, x, Leaf))) == Before(ctx) + [Entry(n, x)] + After(ctx)
  {
    PlugFlat(ctx, Leaf);
    PlugFlat(ctx, Node(Red, Leaf, n, x, Leaf));
    assert Flat(Node(Red, Leaf, n, x, Leaf)) == [Entry(n, x)];
  }

  lemma NodesGain(before: Tree, after: Tree, a: seq<Entry>, e: Entry, b: seq<Entry>)
    requires Flat(before) == a + b && Flat(after) == a + [e] + b
    ensures Nodes(after) == Nodes(before) + {e.n}
  {
    hide Flat;
    forall f | f in Flat(before) ensures f in Flat(after) { }
    assert e in Flat(after);
  }
}
