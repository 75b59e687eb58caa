/** ec_method_combination (ec_encode_data/decode_list.c:220-261): the number of patterns in 64 bits. */
module Combination {
  import opened Arith
  import opened Erasures
  import opened Wrappers

  const U64 := 0x1_0000_0000_0000_0000

  /** Unsigned 64-bit product, and sum with a quotient. */
  function Times64(a: nat, b: nat): nat { a * b % U64 }

  function AddQuotient(sum: nat, n: nat, d: nat): nat
    requires d != 0
  {
    (sum + n / d) % U64
  }

  /** `acc` times n, n - 1, ..., 1, as unsigned 64-bit products. */
  function Down(n: nat, acc: nat): nat
    decreases n
  {
    if n == 0 then acc else Down(n - 1, Times64(acc, n))
  }

  /** The divisor of one summand; the difference is an unsigned one too. */
  function Divisor(m: nat, i: nat): nat { Times64(Down(i, 1), Down((m - i) % U64, 1)) }

  /** The sum over 1..r in 64 bits. */
  function WrappedSum(m: nat, r: nat): nat
    requires forall i :: 1 <= i <= r ==> Divisor(m, i) != 0
  {
    if r == 0 then 0 else AddQuotient(WrappedSum(m, r - 1), Down(m, 1), Divisor(m, r))
  }

  /** unsigned long long to long long. */
  function Signed(x: nat): (r: int)
    ensures x < U64 ==> -U64 <= 2 * r < U64 && r % U64 == x
  {
    if x < U64 / 2 then x else x - U64
  }

  /** A factorial loop, decode_list.c:239-241, 247-249, 251-253. */
  method FactLoop(n: nat) returns (f: nat)
    ensures f == Down(n, 1)
  {
    f := 1;
    var j := n;
    while j >= 1
      invariant 0 <= j <= n && Down(j, f) == Down(n, 1)
    {
      f := Times64(f, j);
      j := j - 1;
    }
  }

  predicate IsInt(n: int) { -0x8000_0000 <= n < 0x8000_0000 }

  /** m - k, as an unsigned number. */
  function Redundancy(m: int, k: int): nat { (m - k) % U64 }

  /** Some divisor is zero: the program does not get past it. */
  ghost predicate Stops(m: nat, k: nat) { exists i :: 1 <= i <= Redundancy(m, k) && Divisor(m, i) == 0 }

  /** None where the program divides by zero. */
  method Combine(m: int, k: int) returns (ret: Option<int>)
    requires IsInt(m) && IsInt(k)
    ensures m <= 0 || k <= 0 ==> ret == Some(-EINVAL)
    ensures m > 0 && k > 0 && Stops(m, k) ==> ret == None
    ensures m > 0 && k > 0 && !Stops(m, k) ==> ret == Some(Signed(WrappedSum(m, Redundancy(m, k))))
  {
    if m <= 0 || k <= 0 {
      return Some(-EINVAL);
    }
    var redundancy := Redundancy(m, k);
    var n1 := FactLoop(m);
    var sum, i := 0, 1;
    hide Down;
    hide Times64;
    hide AddQuotient;
    while i <= redundancy
      invariant 1 <= i <= redundancy + 1 && (forall j :: 1 <= j < i ==> Divisor(m, j) != 0)
      invariant sum == WrappedSum(m, i - 1)
    {
      var m1 := FactLoop(i);
      var n1m1 := FactLoop((m - i) % U64);
      assert Divisor(m, i) == Times64(m1, n1m1);
      if Times64(m1, n1m1) == 0 {
        return None;
      }
      sum := AddQuotient(sum, n1, Times64(m1, n1m1));
      i := i + 1;
    }
    ret := Some(Signed(sum));
  }

  lemma {:induction false} FactGrows(n: nat, m: nat)
    requires n <= m
    ensures Fact(n) <= Fact(m)
    decreases m
  {
    if n < m {
      FactGrows(n, m - 1);
      assert m * Fact(m - 1) >= Fact(m - 1);
    }
  }

  lemma Fact20(m: nat)
    requires m <= 20
    ensures Fact(m) <= Fact(20) == 2432902008176640000
  {
    FactGrows(m, 20);
    assert Fact(5) == 120;
    assert Fact(10) == 3628800;
    assert Fact(15) == 1307674368000;
  }

  /** The loop computes the factorial modulo 2^64. */
  lemma {:induction false} DownIsFact(n: nat, acc: nat)
    requires acc < U64
    ensures Down(n, acc) == acc * Fact(n) % U64
  {
    if n == 0 {
      assert acc * Fact(n) == acc;
    } else {
      DownIsFact(n - 1, acc * n % U64);
      ModMul(acc * n, Fact(n - 1), U64);
      assert (acc * n) * Fact(n - 1) == acc * (n * Fact(n - 1));
    }
  }

  lemma DownExact(n: nat)
    requires n <= 20
    ensures Down(n, 1) == Fact(n) <= Fact(20) == 2432902008176640000
  {
    DownIsFact(n, 1);
    Fact20(n);
  }

  /** Up to 20 fragments no product wraps, every quotient is exact and is a binomial coefficient. */
  lemma QuotientExact(m: nat, i: nat)
    requires m <= 20 && i <= m
    ensures Divisor(m, i) == Fact(i) * Fact(m - i) != 0
    ensures Down(m, 1) / Divisor(m, i) == Binomial(m, i)
    ensures Down(m, 1) % Divisor(m, i) == 0
  {
    hide Fact;
    hide Down;
    hide Binomial;
    DownExact(m);
    DownExact(i);
    DownExact(m - i);
    BinomialFact(m, i);
    Factors(Fact(i), Fact(m - i), Binomial(m, i), Fact(m));
  }

  lemma Factors(a: nat, b: nat, c: nat, n: nat)
    requires a >= 1 && b >= 1 && c >= 1 && n == c * (a * b)
    ensures 1 <= a * b <= n && c <= n && n / (a * b) == c && n % (a * b) == 0
  {
    Bigger(a, b);
    Bigger(c, a * b);
    Bigger(a * b, c);
    DivExact(c, n, a * b);
  }

  lemma SumStep(m: nat, r: nat, x: nat)
    requires 0 < r <= m <= 20 && forall i :: 1 <= i <= r ==> Divisor(m, i) != 0
    requires Down(m, 1) / Divisor(m, r) == x <= 0x10_0000 && WrappedSum(m, r - 1) <= (r - 1) * 0x10_0000
    ensures WrappedSum(m, r) == WrappedSum(m, r - 1) + x
  {
    hide Down;
    hide Divisor;
  }

  lemma SumBase(m: nat)
    ensures WrappedSum(m, 0) == |UpTo(m, 0)| == 0 && Pow2(20) == 0x10_0000
  {
    Pow2Sum(5, 5);
    Pow2Sum(10, 10);
  }

  lemma {:induction false} SumExact(m: nat, r: nat)
    requires r <= m <= 20
    ensures forall i :: 1 <= i <= r ==> Divisor(m, i) != 0
    ensures WrappedSum(m, r) == |UpTo(m, r)| <= r * 0x10_0000
  {
    SumBase(m);
    if r > 0 {
      assert UpTo(m, r) == UpTo(m, r - 1) + Choose(0, m, r);
      hide *;
      SumExact(m, r - 1);
      QuotientExact(m, r);
      BinomialSmall(m, r);
      Pow2Monotone(m, 20);
      SumStep(m, r, Binomial(m, r));
      ChooseCount(0, m, r);
    }
  }

  /** A quotient of wrapped numbers is at most the coefficient, and equal just if nothing wrapped in the
      product that it undoes. */
  lemma QuotientAtMost(m: nat, i: nat)
    requires i <= m < U64 && Divisor(m, i) != 0
    ensures Down(m, 1) / Divisor(m, i) <= Binomial(m, i)
    ensures Down(m, 1) / Divisor(m, i) == Binomial(m, i) <==> Binomial(m, i) * Divisor(m, i) < U64
  {
    hide Divisor;
    hide Down;
    hide Fact;
    hide Binomial;
    DivisorIs(m, i);
    DownFact(m);
    BinomialFact(m, i);
    ReducedFactor(Fact(i) * Fact(m - i), Binomial(m, i));
    Undone(Down(m, 1), Binomial(m, i), Divisor(m, i));
  }

  lemma ReducedFactor(a: nat, c: nat)
    ensures c * (a % U64) % U64 == c * a % U64
  {
    ModMul(a, c, U64);
    Commute(a, c);
    Commute(a % U64, c);
  }

  /** A wrapped product divided by one factor. */
  lemma Undone(n: nat, c: nat, d: nat)
    requires d != 0 && n == c * d % U64
    ensures n / d <= c
    ensures n / d == c <==> c * d < U64
  {
    if c * d < U64 {
      DivExact(c, n, d);
    } else {
      assert n < c * d;
      Bigger(d, 1);
      if n / d >= c {
        MulAtLeast(c, n / d, d);
      }
    }
  }

  lemma MulAtLeast(a: nat, b: nat, d: nat)
    requires a <= b
    ensures a * d <= b * d
  {
    assert b * d == a * d + (b - a) * d;
  }

  lemma DownFact(n: nat)
    ensures Down(n, 1) == Fact(n) % U64
  {
    DownIsFact(n, 1);
  }

  lemma TimesReduced(a: nat, b: nat)
    ensures Times64(a % U64, b % U64) == a * b % U64
  {
    ModProduct(a, b, U64);
  }

  lemma DivisorIs(m: nat, i: nat)
    requires i <= m < U64
    ensures Divisor(m, i) == Fact(i) * Fact(m - i) % U64
  {
    hide Fact;
    hide Down;
    hide Times64;
    DownFact(i);
    DownFact(m - i);
    TimesReduced(Fact(i), Fact(m - i));
  }

  /** From x, the factorial of n in 64 bits, to y, that of `last`; but for 59 the product with the next
      number wraps each time. */
  predicate Chain(n: nat, last: nat, x: nat, y: nat)
    decreases last - n
  {
    if n >= last then x == y
    else
      var p := x * (n + 1);
      (n == 59 || p >= U64) && Chain(n + 1, last, p % U64, y)
  }

  lemma {:induction false} ChainMeans(n: nat, last: nat, x: nat, y: nat)
    requires n <= last && Chain(n, last, x, y) && x == Fact(n) % U64
    ensures y == Fact(last) % U64
    ensures forall j :: n <= j < last && j != 59 ==> Wraps(j)
    decreases last - n
  {
    if n < last {
      NextFact(n);
      ChainMeans(n + 1, last, x * (n + 1) % U64, y);
    }
  }

  /** The summand of one lost fragment of j + 1 wraps. */
  predicate Wraps(j: nat) { (Fact(j) % U64) * (j + 1) >= U64 }

  lemma Chain20()
    ensures Chain(20, 22, 2432902008176640000, 17196083355034583040)
    ensures Chain(22, 25, 17196083355034583040, 7034535277573963776)
    ensures Chain(25, 28, 7034535277573963776, 12478583540742619136)
    ensures Chain(28, 31, 12478583540742619136, 4999213071378415616)
  {
  }

  lemma Chain31()
    ensures Chain(31, 34, 4999213071378415616, 4926277576697053184)
    ensures Chain(34, 37, 4926277576697053184, 1096907932701818880)
    ensures Chain(37, 40, 1096907932701818880, 18376134811363311616)
    ensures Chain(40, 43, 18376134811363311616, 10541877243825618944)
  {
  }

  lemma Chain43()
    ensures Chain(43, 46, 10541877243825618944, 1150331055211806720)
    ensures Chain(46, 49, 1150331055211806720, 8789267254022766592)
    ensures Chain(49, 52, 8789267254022766592, 9994050523088551936)
    ensures Chain(52, 55, 9994050523088551936, 6711489344688881664)
  {
  }

  lemma Chain55()
    ensures Chain(55, 58, 6711489344688881664, 2504001392817995776)
    ensures Chain(58, 59, 2504001392817995776, 162129586585337856)
    ensures Chain(59, 61, 162129586585337856, 3098476543630901248)
    ensures Chain(61, 64, 3098476543630901248, 9223372036854775808)
    ensures Chain(64, 65, 9223372036854775808, 9223372036854775808)
    ensures Chain(65, 66, 9223372036854775808, 0)
  {
  }

  lemma Residues31()
    ensures forall j :: 20 <= j < 31 && j != 59 ==> Wraps(j)
    ensures Fact(31) % U64 == 4999213071378415616
  {
    Fact20(20);
    Chain20();
    hide *;
    ChainMeans(20, 22, 2432902008176640000, 17196083355034583040);
    ChainMeans(22, 25, 17196083355034583040, 7034535277573963776);
    ChainMeans(25, 28, 7034535277573963776, 12478583540742619136);
    ChainMeans(28, 31, 12478583540742619136, 4999213071378415616);
  }

  lemma Residues43()
    ensures forall j :: 20 <= j < 43 && j != 59 ==> Wraps(j)
    ensures Fact(43) % U64 == 10541877243825618944
  {
    Residues31();
    Chain31();
    hide *;
    ChainMeans(31, 34, 4999213071378415616, 4926277576697053184);
    ChainMeans(34, 37, 4926277576697053184, 1096907932701818880);
    ChainMeans(37, 40, 1096907932701818880, 18376134811363311616);
    ChainMeans(40, 43, 18376134811363311616, 10541877243825618944);
  }

  lemma Residues55()
    ensures forall j :: 20 <= j < 55 && j != 59 ==> Wraps(j)
    ensures Fact(55) % U64 == 6711489344688881664
  {
    Residues43();
    Chain43();
    hide *;
    ChainMeans(43, 46, 10541877243825618944, 1150331055211806720);
    ChainMeans(46, 49, 1150331055211806720, 8789267254022766592);
    ChainMeans(49, 52, 8789267254022766592, 9994050523088551936);
    ChainMeans(52, 55, 9994050523088551936, 6711489344688881664);
  }

  /** Every factorial from 20 to 65 wraps with the next number, but that of 59. */
  lemma Residues()
    ensures forall j :: 20 <= j < 66 && j != 59 ==> Wraps(j)
    ensures Fact(58) % U64 == 2504001392817995776 && Fact(59) % U64 == 162129586585337856
    ensures Fact(64) % U64 == Fact(65) % U64 == U64 / 2 && Fact(66) % U64 == 0
  {
    Residues55();
    Chain55();
    hide Chain;
    hide Fact;
    hide Wraps;
    ChainMeans(55, 58, 6711489344688881664, 2504001392817995776);
    ChainMeans(58, 59, 2504001392817995776, 162129586585337856);
    ChainMeans(59, 61, 162129586585337856, 3098476543630901248);
    ChainMeans(61, 64, 3098476543630901248, 9223372036854775808);
    ChainMeans(64, 65, 9223372036854775808, 9223372036854775808);
    ChainMeans(65, 66, 9223372036854775808, 0);
  }

  lemma NextFact(n: nat)
    ensures Fact(n + 1) % U64 == (Fact(n) % U64) * (n + 1) % U64
  {
    ModMul(Fact(n), n + 1, U64);
    assert Fact(n + 1) == (n + 1) * Fact(n);
  }

  /** From 66 on nothing is left of a factorial. */
  lemma {:induction false} FactZero(n: nat, m: nat)
    requires n <= m && Fact(n) % U64 == 0
    ensures Fact(m) % U64 == 0
    decreases m
  {
    hide Fact;
    if n < m {
      FactZero(n, m - 1);
      NextFact(m - 1);
      assert 0 * m == 0;
    }
  }

  /** No divisor of up to 65 fragments is zero, for it divides a factorial that is not. */
  lemma DivisorNotZero(m: nat, i: nat)
    requires i <= m <= 65
    ensures Divisor(m, i) != 0
  {
    hide Fact;
    hide Divisor;
    hide Binomial;
    hide Wraps;
    DivisorIs(m, i);
    BinomialFact(m, i);
    Residues();
    if Divisor(m, i) == 0 {
      ModMul(Fact(i) * Fact(m - i), Binomial(m, i), U64);
      ZeroTimes(Fact(i) * Fact(m - i), Binomial(m, i), Fact(m));
      FactZero(m, 65);
    }
  }

  lemma ZeroTimes(a: nat, c: nat, n: nat)
    requires a % U64 == 0 && n == c * a
    ensures n % U64 == 0
  {
    ModMul(a, c, U64);
    assert a * c == c * a;
  }

  lemma DivisorFirst(m: nat)
    requires 1 <= m < U64
    ensures Divisor(m, 1) == Fact(m - 1) % U64
  {
    assert Fact(1) == 1;
    hide *;
    DivisorIs(m, 1);
  }

  lemma DivisorSecond(m: nat)
    requires 2 <= m < U64
    ensures Divisor(m, 2) == 2 * (Fact(m - 2) % U64) % U64
  {
    assert Fact(2) == 2;
    hide *;
    DivisorIs(m, 2);
    ModMul(Fact(m - 2), 2, U64);
  }

  lemma Divisors66()
    ensures Divisor(66, 1) == U64 / 2 && Divisor(66, 2) == 0
  {
    hide Fact;
    hide Divisor;
    hide Wraps;
    Residues();
    DivisorFirst(66);
    DivisorSecond(66);
  }

  /** Exactly when the program divides by zero. */
  lemma StopsExactly(m: int, k: int)
    requires IsInt(m) && IsInt(k) && 0 < m && 0 < k
    ensures Stops(m, k) <==> k > m || (k < m && (m >= 67 || (m == 66 && k <= 64)))
  {
    hide Divisor;
    hide Fact;
    hide Down;
    Residues();
    if m < k {
      FactZero(66, U64 - 1);
      DivisorPast(m);
      assert Divisor(m, m + 1) == 0;
    } else if m <= 65 {
      forall i | 1 <= i <= Redundancy(m, k) ensures Divisor(m, i) != 0 { DivisorNotZero(m, i); }
    } else if m == 66 {
      Divisors66();
    } else if k < m {
      FactZero(66, m - 1);
      DivisorIs(m, 1);
      DivisorFirst(m);
      assert Divisor(m, 1) == 0;
    }
  }

  lemma DivisorPast(m: nat)
    requires Fact(U64 - 1) % U64 == 0
    ensures Divisor(m, m + 1) == 0
  {
    hide Fact;
    hide Down;
    DownIsFact(U64 - 1, 1);
  }

  /** The sum never exceeds the number of patterns, and falls short as soon as one summand wraps. */
  lemma {:induction false} SumAtMost(m: nat, r: nat, i: nat)
    requires r <= m < U64 && forall j :: 1 <= j <= r ==> Divisor(m, j) != 0
    ensures WrappedSum(m, r) <= |UpTo(m, r)|
    ensures 1 <= i <= r && Binomial(m, i) * Divisor(m, i) >= U64 ==> WrappedSum(m, r) < |UpTo(m, r)|
  {
    if r == 0 {
      SumBase(m);
    } else {
      assert UpTo(m, r) == UpTo(m, r - 1) + Choose(0, m, r);
      assert WrappedSum(m, r) == AddQuotient(WrappedSum(m, r - 1), Down(m, 1), Divisor(m, r));
      hide *;
      SumAtMost(m, r - 1, i);
      QuotientAtMost(m, r);
      ChooseCount(0, m, r);
      AddAtMost(WrappedSum(m, r - 1), Down(m, 1), Divisor(m, r));
    }
  }

  lemma AddAtMost(sum: nat, n: nat, d: nat)
    requires d != 0
    ensures AddQuotient(sum, n, d) <= sum + n / d
  {
  }

  /** The summand that wraps: that of one lost fragment, with 60 fragments that of two. */
  lemma SomeWraps(m: nat, r: nat) returns (i: nat)
    requires 21 <= m <= 66 && 1 <= r <= m && (m != 60 || r >= 2)
    ensures 1 <= i <= r && Binomial(m, i) * Divisor(m, i) >= U64
  {
    hide Fact;
    hide Divisor;
    hide Binomial;
    hide Wraps;
    Residues();
    if m != 60 {
      i := 1;
      DivisorFirst(m);
      BinomialOne(m);
      assert Wraps(m - 1);
      WrapsMeans(m - 1);
    } else {
      i := 2;
      Two60();
    }
  }

  lemma WrapsMeans(j: nat)
    requires Wraps(j)
    ensures (j + 1) * (Fact(j) % U64) >= U64
  {
  }

  lemma {:induction false} BinomialOne(n: nat)
    ensures Binomial(n, 1) == n
  {
    if n > 0 { BinomialOne(n - 1); }
  }

  lemma {:induction false} BinomialTwo(n: nat)
    ensures Binomial(n, 2) == n * (n - 1) / 2
  {
    if n > 0 {
      BinomialTwo(n - 1);
      BinomialOne(n - 1);
    }
  }

  lemma Two60()
    requires Fact(58) % U64 == 2504001392817995776
    ensures Binomial(60, 2) * Divisor(60, 2) >= U64
  {
    hide Fact;
    hide Divisor;
    hide Binomial;
    DivisorSecond(60);
    BinomialTwo(60);
  }

  lemma FirstSum(m: nat)
    requires Divisor(m, 1) != 0
    ensures WrappedSum(m, 1) == Down(m, 1) / Divisor(m, 1) % U64 && |UpTo(m, 1)| == m
  {
    assert UpTo(m, 1) == UpTo(m, 0) + Choose(0, m, 1);
    ChooseCount(0, m, 1);
    BinomialOne(m);
    hide Down;
    hide Divisor;
    hide Choose;
    hide Binomial;
    assert WrappedSum(m, 0) == 0;
  }

  /** With 60 fragments and one to lose the two wrapped factorials happen to have the right quotient. */
  lemma One60()
    ensures Divisor(60, 1) != 0 && WrappedSum(60, 1) == |UpTo(60, 1)| == 60
  {
    hide Fact;
    hide Divisor;
    hide Binomial;
    hide Wraps;
    hide Down;
    hide UpTo;
    hide WrappedSum;
    Residues();
    DivisorFirst(60);
    BinomialOne(60);
    QuotientAtMost(60, 1);
    FirstSum(60);
  }

  lemma NoneLost(m: nat)
    ensures WrappedSum(m, 0) == |UpTo(m, 0)| == 0
  {
  }

  lemma SignedIs(x: nat)
    ensures Signed(x) <= x && (x < U64 / 2 ==> Signed(x) == x)
  {
  }

  lemma RedundancyIs(m: int, k: int)
    requires IsInt(m) && IsInt(k) && 0 < k <= m
    ensures Redundancy(m, k) == m - k
  {
  }

  /** Exactly when the program gives the number of patterns that the search visits: with up to 20
      fragments, with none to lose, and with 60 and one to lose.  In all other cases it divides by zero
      or gives too little. */
  lemma CountsExactly(m: int, k: int)
    requires IsInt(m) && IsInt(k) && 0 < k <= m && !Stops(m, k)
    ensures var ret := Signed(WrappedSum(m, Redundancy(m, k)));
            if m <= 20 || k == m || (m == 60 && k == 59) then ret == |UpTo(m, m - k)| else ret < |UpTo(m, m - k)|
  {
    hide Divisor;
    hide UpTo;
    hide WrappedSum;
    hide Signed;
    hide Redundancy;
    hide Down;
    hide Binomial;
    StopsExactly(m, k);
    RedundancyIs(m, k);
    SignedIs(WrappedSum(m, m - k));
    if k == m {
      NoneLost(m);
    } else if m <= 20 {
      SumExact(m, m - k);
    } else if m == 60 && k == 59 {
      One60();
    } else {
      var i := SomeWraps(m, m - k);
      SumAtMost(m, m - k, i);
    }
  }
}
