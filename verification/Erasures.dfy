/** The erasure patterns that decode_list.c:354-499 goes through, as increasing lists of fragment
    numbers, and how many there are. */
module Erasures {
  import opened Arith

  type Pattern = seq<nat>

  /** Strictly increasing numbers below `m`, none below `from`. */
  predicate Rising(p: Pattern, from: nat, m: nat) {
    && (forall i :: 0 <= i < |p| ==> from <= p[i] < m)
    && (forall i, j :: 0 <= i < j < |p| ==> p[i] < p[j])
  }

  /** Every pattern of the list, each with `pre` put before it. */
  function Extend(pre: Pattern, ps: seq<Pattern>): (r: seq<Pattern>)
    ensures |r| == |ps| && forall i :: 0 <= i < |ps| ==> r[i] == pre + ps[i]
  {
    seq(|ps|, i requires 0 <= i < |ps| => pre + ps[i])
  }

  /** All patterns of `c` numbers from `from` up, in lexicographic order. */
  function Choose(from: nat, m: nat, c: nat): seq<Pattern>
    decreases m - from
  {
    if c == 0 then [[]]
    else if from >= m then []
    else Extend([from], Choose(from + 1, m, c - 1)) + Choose(from + 1, m, c)
  }

  /** All patterns of 1 to `c` numbers below `m`, the small ones first. */
  function UpTo(m: nat, c: nat): seq<Pattern> {
    if c == 0 then [] else UpTo(m, c - 1) + Choose(0, m, c)
  }

  lemma {:induction false} ChooseRises(from: nat, m: nat, c: nat, i: nat)
    requires i < |Choose(from, m, c)|
    ensures |Choose(from, m, c)[i]| == c && Rising(Choose(from, m, c)[i], from, m)
    decreases m - from
  {
    if c > 0 {
      var with := Choose(from + 1, m, c - 1);
      if i < |with| {
        ChooseRises(from + 1, m, c - 1, i);
      } else {
        ChooseRises(from + 1, m, c, i - |with|);
      }
    }
  }

  /** No pattern of the right size is left out. */
  lemma {:induction false} ChooseHas(from: nat, m: nat, p: Pattern) returns (i: nat)
    requires Rising(p, from, m)
    ensures i < |Choose(from, m, |p|)| && Choose(from, m, |p|)[i] == p
    decreases m - from
  {
    ChooseNone(from, m);
    hide Choose;
    if p == [] {
      i := 0;
    } else {
      assert from <= p[0] < m;
      ChooseSum(from, m, |p|);
      if p[0] == from {
        i := ChooseHas(from + 1, m, p[1..]);
        assert p == [from] + p[1..];
      } else {
        i := ChooseHas(from + 1, m, p);
        i := |Choose(from + 1, m, |p| - 1)| + i;
      }
      ChooseAt(from, m, |p|, i);
    }
  }

  lemma ChooseNone(from: nat, m: nat)
    ensures Choose(from, m, 0) == [[]]
  {
  }

  lemma ChooseSum(from: nat, m: nat, c: nat)
    requires from < m && c > 0
    ensures |Choose(from, m, c)| == |Choose(from + 1, m, c - 1)| + |Choose(from + 1, m, c)|
  {
  }

  lemma ChooseAt(from: nat, m: nat, c: nat, i: nat)
    requires i < |Choose(from, m, c)| && from < m && c > 0
    ensures var with := Choose(from + 1, m, c - 1);
            Choose(from, m, c)[i] == if i < |with| then [from] + with[i] else Choose(from + 1, m, c)[i - |with|]
  {
  }

  /** No two of the patterns are the same. */
  predicate Apart(ps: seq<Pattern>) { forall i, j :: 0 <= i < j < |ps| ==> ps[i] != ps[j] }

  lemma ExtendApart(x: nat, ps: seq<Pattern>)
    requires Apart(ps)
    ensures Apart(Extend([x], ps))
  {
    forall i, j | 0 <= i < j < |ps| ensures [x] + ps[i] != [x] + ps[j] {
      ConsApart(x, ps[i], ps[j]);
    }
  }

  lemma ConsApart(x: nat, a: Pattern, b: Pattern)
    requires a != b
    ensures [x] + a != [x] + b
  {
    assert ([x] + a)[1..] == a && ([x] + b)[1..] == b;
  }

  lemma JoinApart(a: seq<Pattern>, b: seq<Pattern>)
    requires Apart(a) && Apart(b) && forall i, j :: 0 <= i < |a| && 0 <= j < |b| ==> a[i] != b[j]
    ensures Apart(a + b)
  {
  }

  /** None comes twice. */
  lemma {:induction false} ChooseApart(from: nat, m: nat, c: nat)
    ensures Apart(Choose(from, m, c))
    decreases m - from
  {
    if c > 0 && from < m {
      var with, without := Choose(from + 1, m, c - 1), Choose(from + 1, m, c);
      assert Choose(from, m, c) == Extend([from], with) + without;
      hide Choose;
      hide Apart;
      ChooseApart(from + 1, m, c - 1);
      ExtendApart(from, with);
      ChooseApart(from + 1, m, c);
      forall i, j | 0 <= i < |with| && 0 <= j < |without| ensures Extend([from], with)[i] != without[j] {
        ChooseRises(from + 1, m, c, j);
        assert Extend([from], with)[i][0] == from;
      }
      JoinApart(Extend([from], with), without);
    }
  }

  lemma {:induction false} UpToRises(m: nat, c: nat, i: nat)
    requires i < |UpTo(m, c)|
    ensures 1 <= |UpTo(m, c)[i]| <= c && Rising(UpTo(m, c)[i], 0, m)
  {
    var n := |UpTo(m, c - 1)|;
    if i < n { UpToRises(m, c - 1, i); } else { ChooseRises(0, m, c, i - n); }
  }

  lemma {:induction false} UpToHas(m: nat, c: nat, p: Pattern) returns (i: nat)
    requires Rising(p, 0, m) && 1 <= |p| <= c
    ensures i < |UpTo(m, c)| && UpTo(m, c)[i] == p
  {
    if |p| == c {
      i := ChooseHas(0, m, p);
      i := |UpTo(m, c - 1)| + i;
    } else {
      i := UpToHas(m, c - 1, p);
    }
  }

  lemma {:induction false} UpToApart(m: nat, c: nat)
    ensures Apart(UpTo(m, c))
  {
    if c > 0 {
      var small, big := UpTo(m, c - 1), Choose(0, m, c);
      assert UpTo(m, c) == small + big;
      hide Choose;
      hide UpTo;
      hide Apart;
      UpToApart(m, c - 1);
      ChooseApart(0, m, c);
      forall i, j | 0 <= i < |small| && 0 <= j < |big| ensures small[i] != big[j] {
        UpToRises(m, c - 1, i);
        ChooseRises(0, m, c, j);
      }
      JoinApart(small, big);
    }
  }

  /** At the first place where two patterns differ the one has the smaller number. */
  ghost predicate LexBefore(p: Pattern, q: Pattern) {
    exists k :: 0 <= k < |p| && k < |q| && p[..k] == q[..k] && p[k] < q[k]
  }

  lemma LexCons(x: nat, p: Pattern, q: Pattern)
    requires LexBefore(p, q)
    ensures LexBefore([x] + p, [x] + q)
  {
    var k :| 0 <= k < |p| && k < |q| && p[..k] == q[..k] && p[k] < q[k];
    assert ([x] + p)[..k + 1] == [x] + p[..k] && ([x] + q)[..k + 1] == [x] + q[..k];
    assert ([x] + p)[k + 1] < ([x] + q)[k + 1];
  }

  lemma LexHead(x: nat, p: Pattern, q: Pattern)
    requires q != [] && x < q[0]
    ensures LexBefore([x] + p, q)
  {
    assert ([x] + p)[..0] == q[..0];
  }

  /** With two patterns there are numbers left, and some to choose. */
  lemma ChooseMany(from: nat, m: nat, c: nat)
    requires |Choose(from, m, c)| > 1
    ensures from < m && c > 0
  {
  }

  lemma {:induction false} ChooseInOrder(from: nat, m: nat, c: nat, i: nat, j: nat)
    requires i < j < |Choose(from, m, c)|
    ensures LexBefore(Choose(from, m, c)[i], Choose(from, m, c)[j])
    decreases m - from
  {
    hide *;
    ChooseMany(from, m, c);
    ChooseAt(from, m, c, i);
    ChooseAt(from, m, c, j);
    ChooseSum(from, m, c);
    var with, without := Choose(from + 1, m, c - 1), Choose(from + 1, m, c);
    if j < |with| {
      ChooseInOrder(from + 1, m, c - 1, i, j);
      LexCons(from, with[i], with[j]);
    } else if i < |with| {
      ChooseFirst(from + 1, m, c, j - |with|);
      LexHead(from, with[i], without[j - |with|]);
    } else {
      ChooseInOrder(from + 1, m, c, i - |with|, j - |with|);
    }
  }

  lemma ChooseFirst(from: nat, m: nat, c: nat, i: nat)
    requires i < |Choose(from, m, c)| && c > 0
    ensures Choose(from, m, c)[i] != [] && from <= Choose(from, m, c)[i][0]
  {
    ChooseRises(from, m, c, i);
  }

  /** The patterns come by size, and within a size in lexicographic order. */
  lemma {:induction false} UpToInOrder(m: nat, c: nat, i: nat, j: nat)
    requires i < j < |UpTo(m, c)|
    ensures |UpTo(m, c)[i]| < |UpTo(m, c)[j]|
            || (|UpTo(m, c)[i]| == |UpTo(m, c)[j]| && LexBefore(UpTo(m, c)[i], UpTo(m, c)[j]))
  {
    hide Choose;
    hide LexBefore;
    var n := |UpTo(m, c - 1)|;
    if j < n {
      UpToInOrder(m, c - 1, i, j);
    } else if i < n {
      UpToRises(m, c - 1, i);
      ChooseRises(0, m, c, j - n);
    } else {
      ChooseRises(0, m, c, i - n);
      ChooseRises(0, m, c, j - n);
      ChooseInOrder(0, m, c, i - n, j - n);
    }
  }

  function SetOf(p: Pattern): set<nat> { set x | x in p }

  /** The increasing list of a set of numbers below `m`. */
  function Listing(s: set<nat>, m: nat): (p: Pattern)
    ensures Rising(p, 0, m) && forall x :: x in p <==> x in s && x < m
  {
    if m == 0 then [] else if m - 1 in s then Listing(s, m - 1) + [m - 1] else Listing(s, m - 1)
  }

  lemma LastSame(p: Pattern, q: Pattern, m: nat)
    requires Rising(p, 0, m) && Rising(q, 0, m) && p != [] && q != []
    requires (forall x :: x in p ==> x in q) && forall x :: x in q ==> x in p
    ensures p[|p| - 1] == q[|q| - 1]
  {
    assert p[|p| - 1] in q && q[|q| - 1] in p;
  }

  lemma Shorter(p: Pattern, q: Pattern, m: nat, x: nat)
    requires Rising(p, 0, m) && p != [] && q != [] && p[|p| - 1] == q[|q| - 1]
    requires forall y :: y in p ==> y in q
    requires x in p[..|p| - 1]
    ensures x in q[..|q| - 1]
  {
    var i :| 0 <= i < |p| - 1 && p[i] == x;
    assert p[i] < p[|p| - 1] && p[i] in q;
  }

  lemma RisingSub(p: Pattern, m: nat)
    requires Rising(p, 0, m) && p != []
    ensures Rising(p[..|p| - 1], 0, m)
  {
  }

  lemma SameSize(p: Pattern, q: Pattern, m: nat)
    requires Rising(p, 0, m) && Rising(q, 0, m)
    requires (forall x :: x in p ==> x in q) && forall x :: x in q ==> x in p
    ensures |p| == |q|
  {
    hide Rising;
    assert SetOf(p) == SetOf(q);
    RisingSize(p, m);
    RisingSize(q, m);
  }

  /** Two increasing lists of the same numbers are the same list. */
  lemma {:induction false} RisingUnique(p: Pattern, q: Pattern, m: nat)
    requires Rising(p, 0, m) && Rising(q, 0, m)
    requires (forall x :: x in p ==> x in q) && forall x :: x in q ==> x in p
    ensures p == q
    decreases |p|
  {
    hide Rising;
    SameSize(p, q, m);
    if |p| > 0 {
      LastSame(p, q, m);
      var p', q' := p[..|p| - 1], q[..|q| - 1];
      forall x | x in p' ensures x in q' { Shorter(p, q, m, x); }
      forall x | x in q' ensures x in p' { Shorter(q, p, m, x); }
      RisingSub(p, m);
      RisingSub(q, m);
      RisingUnique(p', q', m);
      assert p == p' + [p[|p| - 1]] && q == q' + [q[|q| - 1]];
    }
  }

  lemma {:induction false} RisingSize(p: Pattern, m: nat)
    requires Rising(p, 0, m)
    ensures |SetOf(p)| == |p|
  {
    if p != [] {
      var a := |p| - 1;
      RisingSize(p[..a], m);
      assert SetOf(p) == SetOf(p[..a]) + {p[a]};
    }
  }

  /** Every non-empty set of at most `c` fragments below `m` occurs, at exactly one place. */
  lemma EverySetOnce(m: nat, c: nat, s: set<nat>) returns (i: nat)
    requires forall x :: x in s ==> x < m
    requires 1 <= |s| <= c
    ensures i < |UpTo(m, c)| && SetOf(UpTo(m, c)[i]) == s
    ensures forall j :: 0 <= j < |UpTo(m, c)| && SetOf(UpTo(m, c)[j]) == s ==> j == i
  {
    var p := Listing(s, m);
    assert SetOf(p) == s;
    RisingSize(p, m);
    i := UpToHas(m, c, p);
    forall j | 0 <= j < |UpTo(m, c)| && SetOf(UpTo(m, c)[j]) == s ensures j == i {
      var q := UpTo(m, c)[j];
      UpToRises(m, c, j);
      assert forall x :: x in q <==> x in SetOf(q);
      RisingUnique(q, p, m);
      UpToApart(m, c);
    }
  }

  function Fact(n: nat): (f: nat)
    ensures f >= 1
  {
    if n == 0 then 1 else n * Fact(n - 1)
  }

  /** Pascal's triangle. */
  function Binomial(n: nat, c: nat): nat {
    if c == 0 then 1 else if n == 0 then 0 else Binomial(n - 1, c - 1) + Binomial(n - 1, c)
  }

  lemma {:induction false} ChooseCount(from: nat, m: nat, c: nat)
    requires from <= m
    ensures |Choose(from, m, c)| == Binomial(m - from, c)
    decreases m - from
  {
    if c > 0 && from < m {
      ChooseCount(from + 1, m, c - 1);
      ChooseCount(from + 1, m, c);
    }
  }

  lemma {:induction false} BinomialEnd(n: nat, c: nat)
    requires c >= n
    ensures Binomial(n, c) == if c == n then 1 else 0
  {
    if n > 0 {
      BinomialEnd(n - 1, c - 1);
      BinomialEnd(n - 1, c);
    }
  }

  lemma {:induction false} BinomialSmall(n: nat, c: nat)
    ensures Binomial(n, c) <= Pow2(n)
  {
    Pow2Monotone(0, n);
    if n > 0 && c > 0 {
      BinomialSmall(n - 1, c - 1);
      BinomialSmall(n - 1, c);
    }
  }

  /** The factorial quotient is exact. */
  lemma {:induction false} BinomialFact(n: nat, c: nat)
    requires c <= n
    ensures Fact(n) == Binomial(n, c) * (Fact(c) * Fact(n - c))
    ensures Binomial(n, c) >= 1
  {
    if c == n {
      BinomialEnd(n, c);
    } else if c > 0 {
      BinomialFact(n - 1, c - 1);
      BinomialFact(n - 1, c);
      PascalStep(Binomial(n - 1, c - 1), Binomial(n - 1, c), c, n - c, Fact(c - 1), Fact(n - c - 1), Fact(n - 1));
    }
  }

  lemma PascalStep(b1: nat, b2: nat, c: nat, d: nat, fc: nat, fd: nat, f: nat)
    requires f == b1 * (fc * (d * fd)) && f == b2 * ((c * fc) * fd)
    ensures (c + d) * f == (b1 + b2) * ((c * fc) * (d * fd))
  {
    var x := fc * (d * fd);
    var y := (c * fc) * fd;
    assert (c * fc) * (d * fd) == c * x;
    assert (c * fc) * (d * fd) == d * y;
    assert b1 * (c * x) == c * (b1 * x);
    assert b2 * (d * y) == d * (b2 * y);
  }
}
