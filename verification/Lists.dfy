/** The circular doubly linked lists of debug-tools/shark/list.h. */
module Lists {

  class ListHead {
    var next: ListHead?
    var prev: ListHead?

    /** INIT_LIST_HEAD. */
    constructor ()
      ensures next == this && prev == this
    {
      next, prev := this, this;
    }
  }

  /** The next place round a ring of `n`. */
  function After(i: nat, n: nat): (j: nat)
    requires i < n
    ensures j < n
  {
    if i + 1 < n then i + 1 else 0
  }

  /** `s` is a whole ring: the links go round it both ways.  Its list, seen from the head s[0], is
      s[1..]. */
  ghost predicate Ring(s: seq<ListHead>)
    reads s
  {
    && s != []
    && (forall i, j :: 0 <= i < j < |s| ==> s[i] != s[j])
    && forall i :: 0 <= i < |s| ==> s[i].next == s[After(i, |s|)] && s[After(i, |s|)].prev == s[i]
  }

  /** `n` put behind place `p`. */
  function Inserted(s: seq<ListHead>, p: nat, n: ListHead): (r: seq<ListHead>)
    requires p < |s|
    ensures |r| == |s| + 1
  {
    s[..p + 1] + [n] + s[p + 1..]
  }

  function Removed(s: seq<ListHead>, p: nat): (r: seq<ListHead>)
    requires p < |s|
    ensures |r| == |s| - 1
  {
    s[..p] + s[p + 1..]
  }

  function Turned(s: seq<ListHead>, k: nat): (r: seq<ListHead>)
    requires k <= |s|
    ensures |r| == |s|
  {
    s[k..] + s[..k]
  }

  /** A ring may be told from any of its places. */
  lemma Turn(s: seq<ListHead>, k: nat)
    requires Ring(s) && k <= |s|
    ensures Ring(Turned(s, k)) && (forall x :: x in s <==> x in Turned(s, k))
  {
    var n, r := |s|, Turned(s, k);
    TurnedAt(s, k);
    forall i, j | 0 <= i < j < n ensures r[i] != r[j] {
    }
    hide Turned;
    forall i | 0 <= i < n ensures r[i].next == r[After(i, n)] && r[After(i, n)].prev == r[i] {
      var x := if i + k < n then i + k else i + k - n;
      assert s[x].next == s[After(x, n)] && s[After(x, n)].prev == s[x];
    }
  }

  lemma TurnedAt(s: seq<ListHead>, k: nat)
    requires k <= |s|
    ensures forall i :: 0 <= i < |s| ==> Turned(s, k)[i] == s[if i + k < |s| then i + k else i + k - |s|]
    ensures forall x :: x in s <==> x in Turned(s, k)
  {
    assert s == s[..k] + s[k..];
  }

  lemma Steps(s: seq<ListHead>)
    requires Ring(s)
    ensures forall i :: 0 <= i < |s| - 1 ==> s[i].next == s[i + 1] && s[i + 1].prev == s[i]
    ensures s[|s| - 1].next == s[0] && s[0].prev == s[|s| - 1]
  {
    forall i | 0 <= i < |s| - 1 ensures s[i].next == s[i + 1] && s[i + 1].prev == s[i] {
      assert After(i, |s|) == i + 1;
    }
    assert After(|s| - 1, |s|) == 0;
  }

  /** And back from the steps to the ring. */
  lemma Close(s: seq<ListHead>)
    requires s != [] && (forall i, j :: 0 <= i < j < |s| ==> s[i] != s[j])
    requires forall i :: 0 <= i < |s| - 1 ==> s[i].next == s[i + 1] && s[i + 1].prev == s[i]
    requires s[|s| - 1].next == s[0] && s[0].prev == s[|s| - 1]
    ensures Ring(s)
  {
  }

  /** A new last place. */
  method LinkLast(n: ListHead, ghost s: seq<ListHead>)
    requires Ring(s) && n !in s && n.prev == s[|s| - 1] && n.next == s[0]
    modifies n, s[|s| - 1], s[0]
    ensures Ring(s + [n])
  {
    ghost var last, r := |s| - 1, s + [n];
    Steps(s);
    n.prev.next := n;
    n.next.prev := n;
    Close(r);
  }

  /** The last place goes. */
  method UnlinkLast(x: ListHead, ghost s: seq<ListHead>)
    requires Ring(s) && |s| > 1 && s[|s| - 1] == x
    modifies s[|s| - 2], s[0]
    ensures Ring(s[..|s| - 1])
    ensures forall y :: y in s && y !in s[..|s| - 1] ==> y == x
  {
    ghost var last, r := |s| - 1, s[..|s| - 1];
    Steps(s);
    assert s[last - 1].next == s[last - 1 + 1];
    x.prev.next := x.next;
    x.next.prev := x.prev;
    Close(r);
  }

  lemma Successor(s: seq<ListHead>, p: nat)
    requires Ring(s) && p < |s|
    ensures s[p].next == s[After(p, |s|)]
  {
  }

  lemma TurnBack(s: seq<ListHead>, p: nat, n: ListHead)
    requires p < |s|
    ensures Turned(Turned(s, p + 1) + [n], |s| - p - 1) == Inserted(s, p, n)
    ensures n !in s ==> n !in Turned(s, p + 1)
    ensures Turned(s, p + 1)[|s| - 1] == s[p] && Turned(s, p + 1)[0] == s[After(p, |s|)]
  {
  }

  /** list_add, list.h:26-34: behind `head`, which may be any place of a ring. */
  method ListAdd(n: ListHead, head: ListHead, ghost s: seq<ListHead>, ghost p: nat)
    requires Ring(s) && p < |s| && s[p] == head && n !in s
    modifies n, head, s[After(p, |s|)]
    ensures Ring(Inserted(s, p, n))
  {
    hide Ring;
    hide Turned;
    hide Inserted;
    hide After;
    ghost var r := Turned(s, p + 1);
    Successor(s, p);
    Turn(s, p + 1);
    TurnBack(s, p, n);
    n.prev := head;
    n.next := head.next;
    assert Ring(r);
    LinkLast(n, r);
    Turn(r + [n], |s| - p - 1);
  }

  /** list_add_tail, list.h:37-45: before the head, that is at the end of the list. */
  method ListAddTail(n: ListHead, head: ListHead, ghost s: seq<ListHead>)
    requires Ring(s) && s[0] == head && n !in s
    modifies n, head, s[|s| - 1]
    ensures Ring(s + [n])
  {
    Steps(s);
    assert s != [];
    hide Ring;
    n.next := head;
    n.prev := head.prev;
    LinkLast(n, s);
  }

  lemma TurnBackRemoved(s: seq<ListHead>, p: nat)
    requires p < |s|
    ensures Turned(Turned(s, p + 1)[..|s| - 1], |s| - 1 - p) == Removed(s, p)
    ensures Turned(s, p + 1)[|s| - 1] == s[p] && Turned(s, p + 1)[0] == s[After(p, |s|)]
    ensures |s| > 1 ==> Turned(s, p + 1)[|s| - 2] == s[if p == 0 then |s| - 1 else p - 1]
  {
  }

  lemma RemovedApart(s: seq<ListHead>, p: nat)
    requires Ring(s) && p < |s|
    ensures s[p] !in Removed(s, p) && forall y :: y in Removed(s, p) ==> y in s
  {
  }

  /** The first two lines of list_del, list.h:76-77. */
  method Unlink(x: ListHead, ghost s: seq<ListHead>, ghost p: nat)
    requires Ring(s) && p < |s| && s[p] == x && |s| > 1
    modifies s[if p == 0 then |s| - 1 else p - 1], s[After(p, |s|)]
    ensures Ring(Removed(s, p)) && x !in Removed(s, p)
  {
    hide Ring;
    RemovedApart(s, p);
    Turn(s, p + 1);
    TurnBackRemoved(s, p);
    ghost var r := Turned(s, p + 1);
    hide Turned;
    hide Removed;
    UnlinkLast(x, r);
    Turn(r[..|s| - 1], |s| - 1 - p);
  }

  /** list_del, list.h:74-81, for an element that has neighbours; the two poison addresses are no
      list heads. */
  method ListDel(x: ListHead, ghost s: seq<ListHead>, ghost p: nat)
    requires Ring(s) && p < |s| && s[p] == x && |s| > 1
    modifies s
    ensures Ring(Removed(s, p)) && x !in Removed(s, p) && x.next == x.prev == null
  {
    hide Ring;
    hide Removed;
    Unlink(x, s, p);
    x.next := null;
    x.prev := null;
  }

  /** list_del_init, list.h:84-92: the element becomes a ring of its own. */
  method ListDelInit(x: ListHead, ghost s: seq<ListHead>, ghost p: nat)
    requires Ring(s) && p < |s| && s[p] == x
    modifies s
    ensures |s| > 1 ==> Ring(Removed(s, p)) && x !in Removed(s, p)
    ensures Ring([x])
  {
    if x.next == x {
      assert |s| == 1 by { assert s[p] == s[After(p, |s|)]; }
      x.prev.next := x.next;
      x.next.prev := x.prev;
    } else {
      assert |s| > 1;
      hide Ring;
      hide Removed;
      Unlink(x, s, p);
    }
    x.next := x;
    x.prev := x;
    RingOfOne(x);
  }

  lemma RingOfOne(x: ListHead)
    requires x.next == x.prev == x
    ensures Ring([x])
  {
  }

  /** list_move_tail, list.h:103-108, within one list: the element goes to the end. */
  method ListMoveTail(x: ListHead, head: ListHead, ghost s: seq<ListHead>, ghost p: nat)
    requires Ring(s) && 0 < p < |s| && s[p] == x && s[0] == head
    modifies s
    ensures Ring(Removed(s, p) + [x])
  {
    assert Removed(s, p)[0] == head;
    hide Ring;
    ListDel(x, s, p);
    ListAddTail(x, head, Removed(s, p));
  }

  /** list_move, list.h:95-100, within one list: the element goes to the front. */
  method ListMove(x: ListHead, head: ListHead, ghost s: seq<ListHead>, ghost p: nat)
    requires Ring(s) && 0 < p < |s| && s[p] == x && s[0] == head
    modifies s
    ensures Ring(Inserted(Removed(s, p), 0, x))
  {
    assert Removed(s, p)[0] == head && |Removed(s, p)| >= 1;
    assert forall y :: y in Removed(s, p) ==> y in s;
    hide Ring;
    ListDel(x, s, p);
    hide Removed;
    ListAdd(x, head, Removed(s, p), 0);
  }

  predicate Disjoint(a: seq<ListHead>, b: seq<ListHead>) {
    forall i, j :: 0 <= i < |a| && 0 <= j < |b| ==> a[i] != b[j]
  }

  /** list_move to another list. */
  method ListMoveAcross(x: ListHead, head: ListHead, ghost s: seq<ListHead>, ghost p: nat, ghost b: seq<ListHead>)
    requires Ring(s) && 0 < p < |s| && s[p] == x
    requires Ring(b) && b[0] == head && Disjoint(b, s)
    modifies s, b
    ensures Ring(Removed(s, p)) && Ring(Inserted(b, 0, x))
  {
    assert b != [];
    hide Ring;
    RemovedApart(s, p);
    hide Removed;
    ListDel(x, s, p);
    assert Ring(b);
    ListAdd(x, head, b, 0);
  }

  /** list_move_tail to another list. */
  method ListMoveTailAcross(x: ListHead, head: ListHead, ghost s: seq<ListHead>, ghost p: nat, ghost b: seq<ListHead>)
    requires Ring(s) && 0 < p < |s| && s[p] == x
    requires Ring(b) && b[0] == head && Disjoint(b, s)
    modifies s, b
    ensures Ring(Removed(s, p)) && Ring(b + [x])
  {
    assert b != [];
    hide Ring;
    RemovedApart(s, p);
    hide Removed;
    ListDel(x, s, p);
    assert Ring(b);
    ListAddTail(x, head, b);
  }

  /** list_empty, list.h:111-115. */
  predicate ListEmpty(head: ListHead)
    reads head
  {
    head.next == head
  }

  lemma EmptyIsAlone(s: seq<ListHead>)
    requires Ring(s)
    ensures ListEmpty(s[0]) <==> |s| == 1
  {
    assert s[0].next == s[After(0, |s|)];
  }

  /** list_rotate_left, list.h:221-229: the first element goes to the end. */
  method ListRotateLeft(head: ListHead, ghost s: seq<ListHead>)
    requires Ring(s) && s[0] == head
    modifies s
    ensures Ring([head] + if |s| == 1 then [] else s[2..] + [s[1]])
  {
    EmptyIsAlone(s);
    if !ListEmpty(head) {
      var first := head.next;
      assert first == s[1] by { Steps(s); }
      hide Ring;
      ListMoveTail(first, head, s, 1);
      assert Removed(s, 1) + [first] == [head] + (s[2..] + [s[1]]);
    } else {
      assert [head] + [] == s;
    }
  }

  /** Two rings joined: the elements of `l` between s[p] and its successor, l's head left out. */
  function Spliced(s: seq<ListHead>, p: nat, l: seq<ListHead>): seq<ListHead>
    requires p < |s| && l != []
  {
    s[..p + 1] + l[1..] + s[p + 1..]
  }

  lemma SplicedSteps(s: seq<ListHead>, l: seq<ListHead>)
    requires Ring(s) && Ring(l) && Disjoint(s, l) && |l| > 1
    ensures Spliced(s, |s| - 1, l) == s + l[1..]
    ensures forall i, j :: 0 <= i < j < |s + l[1..]| ==> (s + l[1..])[i] != (s + l[1..])[j]
  {
  }

  /** The four assignments of __list_splice and __list_append: between the last place of `s` and the
      first come the elements of `l`. */
  method Join(list: ListHead, last: ListHead, first: ListHead, ghost s: seq<ListHead>, ghost l: seq<ListHead>)
    requires Ring(s) && Ring(l) && Disjoint(s, l) && |l| > 1
    requires l[0] == list && s[|s| - 1] == last && s[0] == first
    modifies last, first, l[1], l[|l| - 1]
    ensures Ring(s + l[1..])
  {
    ghost var n, k, r := |s|, |l|, s + l[1..];
    Steps(s);
    Steps(l);
    SplicedSteps(s, l);
    assert list.next == l[0 + 1];
    hide Ring;
    list.prev.next := first;
    first.prev := list.prev;
    last.next := list.next;
    list.next.prev := last;
    JoinClose(s, l);
  }

  lemma JoinClose(s: seq<ListHead>, l: seq<ListHead>)
    requires s != [] && |l| > 1
    requires forall i, j :: 0 <= i < j < |s + l[1..]| ==> (s + l[1..])[i] != (s + l[1..])[j]
    requires forall i :: 0 <= i < |s| - 1 ==> s[i].next == s[i + 1] && s[i + 1].prev == s[i]
    requires s[|s| - 1].next == l[1] && l[1].prev == s[|s| - 1]
    requires forall i :: 1 <= i < |l| - 1 ==> l[i].next == l[i + 1] && l[i + 1].prev == l[i]
    requires l[|l| - 1].next == s[0] && s[0].prev == l[|l| - 1]
    ensures Ring(s + l[1..])
  {
    var r := s + l[1..];
    forall i | 0 <= i < |r| - 1 ensures r[i].next == r[i + 1] && r[i + 1].prev == r[i] {
      if i >= |s| { assert r[i] == l[i - |s| + 1] && r[i + 1] == l[i - |s| + 2]; }
    }
    Close(r);
  }

  /** list_append_init, list.h:172-180: all elements of `list` move to the end of `head`. */
  method ListAppendInit(list: ListHead, head: ListHead, ghost s: seq<ListHead>, ghost l: seq<ListHead>)
    requires Ring(s) && Ring(l) && Disjoint(s, l) && l[0] == list && s[0] == head
    modifies s, l
    ensures Ring(s + l[1..]) && Ring([list])
  {
    EmptyIsAlone(l);
    if ListEmpty(list) {
      assert l == [list] && s + l[1..] == s;
      return;
    }
    assert head.prev == s[|s| - 1] by { Steps(s); }
    assert list !in s + l[1..];
    hide Ring;
    Join(list, head.prev, head, s, l);
    Alone(list, s + l[1..]);
  }

  /** INIT_LIST_HEAD on a head that no ring needs any more. */
  method Alone(list: ListHead, ghost r: seq<ListHead>)
    requires Ring(r) && list !in r
    modifies list
    ensures Ring(r) && Ring([list])
  {
    hide Ring;
    list.next := list;
    list.prev := list;
    RingOfOne(list);
  }

  lemma TurnSpliced(s: seq<ListHead>, l: seq<ListHead>)
    requires s != [] && l != []
    ensures Turned(Turned(s, 1) + l[1..], |s| - 1) == [s[0]] + l[1..] + s[1..]
    ensures Turned(s, 1)[|s| - 1] == s[0] && Turned(s, 1)[0] == s[After(0, |s|)]
    ensures Disjoint(s, l) ==> Disjoint(Turned(s, 1), l)
  {
  }

  /** list_splice_init, list.h:141-148: all elements of `list` move to the front of `head`. */
  method ListSpliceInit(list: ListHead, head: ListHead, ghost s: seq<ListHead>, ghost l: seq<ListHead>)
    requires Ring(s) && Ring(l) && Disjoint(s, l) && l[0] == list && s[0] == head
    modifies s, l
    ensures Ring([head] + l[1..] + s[1..]) && Ring([list])
  {
    EmptyIsAlone(l);
    if ListEmpty(list) {
      assert l == [list] && [head] + l[1..] + s[1..] == s;
      return;
    }
    assert head.next == s[After(0, |s|)];
    assert list !in [head] + l[1..] + s[1..];
    hide Ring;
    Turn(s, 1);
    TurnSpliced(s, l);
    ghost var r := Turned(s, 1);
    hide Turned;
    Join(list, head, head.next, r, l);
    Turn(r + l[1..], |s| - 1);
    Alone(list, [head] + l[1..] + s[1..]);
  }

  /** What `compare` has to be: an order up to equality on these elements. */
  ghost predicate Ordering(compare: (ListHead, ListHead) -> int, es: set<ListHead>) {
    && (forall a, b :: a in es && b in es ==> (compare(a, b) >= 0 <==> compare(b, a) <= 0))
    && (forall a, b, c :: a in es && b in es && c in es && compare(a, b) <= 0 && compare(b, c) <= 0 ==> compare(a, c) <= 0)
  }

  ghost predicate Sorted(compare: (ListHead, ListHead) -> int, es: seq<ListHead>) {
    forall i, j :: 0 <= i < j < |es| ==> compare(es[i], es[j]) <= 0
  }

  /** list_add_order, list.h:54-71: walk back from the end past all greater elements. */
  method ListAddOrder(n: ListHead, head: ListHead, compare: (ListHead, ListHead) -> int, ghost s: seq<ListHead>)
      returns (ghost p: nat)
    requires Ring(s) && s[0] == head && n !in s
    modifies s, n
    ensures p < |s| && Ring(Inserted(s, p, n))
    ensures p > 0 ==> compare(n, s[p]) >= 0
    ensures forall i :: p < i < |s| ==> compare(n, s[i]) < 0
  {
    Steps(s);
    assert forall i :: 0 < i < |s| ==> s[i] != head;
    var pos := head.prev;
    p := |s| - 1;
    while pos != head
      invariant p < |s| && pos == s[p] && unchanged(s, n)
      invariant forall i :: p < i < |s| ==> compare(n, s[i]) < 0
      decreases p
    {
      if compare(n, pos) >= 0 {
        break;
      }
      assert s[p - 1 + 1].prev == s[p - 1];
      pos := pos.prev;
      p := p - 1;
    }
    ListAdd(n, pos, s, p);
  }

  /** In a sorted list that is the place after all elements that are not greater, equal ones among
      them. */
  lemma PlaceAfterEqual(compare: (ListHead, ListHead) -> int, l: seq<ListHead>, n: ListHead, p: nat)
    requires p <= |l| && Sorted(compare, l) && Ordering(compare, (set x | x in l) + {n})
    requires p > 0 ==> compare(n, l[p - 1]) >= 0
    requires forall i :: p <= i < |l| ==> compare(n, l[i]) < 0
    ensures forall i :: 0 <= i < p ==> compare(l[i], n) <= 0
    ensures forall i :: p <= i < |l| ==> compare(n, l[i]) < 0 < compare(l[i], n)
  {
    forall i | 0 <= i < |l| ensures if i < p then compare(l[i], n) <= 0 else compare(l[i], n) > 0 {
      var es := (set x | x in l) + {n};
      assert l[i] in es && n in es;
      if i < p {
        assert l[p - 1] in es && (i < p - 1 ==> compare(l[i], l[p - 1]) <= 0);
      }
    }
  }

  lemma InsertSorted(compare: (ListHead, ListHead) -> int, l: seq<ListHead>, n: ListHead, p: nat)
    requires p <= |l| && Sorted(compare, l)
    requires (forall i :: 0 <= i < p ==> compare(l[i], n) <= 0) && forall i :: p <= i < |l| ==> compare(n, l[i]) <= 0
    ensures Sorted(compare, l[..p] + [n] + l[p..])
  {
    var r := l[..p] + [n] + l[p..];
    forall i, j | 0 <= i < j < |r| ensures compare(r[i], r[j]) <= 0 {
      var a, b := if i <= p then i else i - 1, if j <= p then j else j - 1;
      assert (i != p ==> r[i] == l[a]) && (j != p ==> r[j] == l[b]);
    }
  }

  lemma InsertedTail(s: seq<ListHead>, p: nat, n: ListHead)
    requires p < |s|
    ensures Inserted(s, p, n)[1..] == s[1..][..p] + [n] + s[1..][p..]
  {
  }

  /** The list stays sorted, and the old elements keep their order. */
  lemma AddOrderKeepsSorted(compare: (ListHead, ListHead) -> int, s: seq<ListHead>, n: ListHead, p: nat)
    requires p < |s| && Sorted(compare, s[1..]) && Ordering(compare, (set x | x in s[1..]) + {n})
    requires p > 0 ==> compare(n, s[p]) >= 0
    requires forall i :: p < i < |s| ==> compare(n, s[i]) < 0
    ensures Inserted(s, p, n)[1..] == s[1..][..p] + [n] + s[1..][p..]
    ensures Sorted(compare, Inserted(s, p, n)[1..])
  {
    hide *;
    var l := s[1..];
    PlaceAfterEqual(compare, l, n, p);
    InsertSorted(compare, l, n, p);
    InsertedTail(s, p, n);
  }
}
