/** How deep a red-black tree can be, and why 128 stack entries are enough (rb.h:56-59). */
module RbHeight {
  import opened Arith
  import opened RbShape

  lemma Pow2Of64()
    ensures Pow2(64) == KEY_END
  {
    Pow2Sum(4, 4);
    Pow2Sum(8, 8);
    Pow2Sum(16, 16);
    Pow2Sum(32, 32);
  }

  /** A tree of black height `h` holds at least 2^h - 1 nodes. */
  lemma {:induction false} SizeFromBlackHeight(t: Tree, h: nat)
    requires RB(t, h)
    ensures Pow2(h) <= Size(t) + 1
  {
    if t.Node? {
      var h' := if t.c == Black then h - 1 else h;
      SizeFromBlackHeight(t.l, h');
      SizeFromBlackHeight(t.r, h');
    }
  }

  /** At least every second node on a path is black. */
  lemma {:induction false} HeightFromBlackHeight(t: Tree, h: nat)
    requires RB(t, h)
    ensures Height(t) <= 2 * h + if IsBlack(t) then 0 else 1
  {
    if t.Node? {
      var h' := if t.c == Black then h - 1 else h;
      HeightFromBlackHeight(t.l, h');
      HeightFromBlackHeight(t.r, h');
    }
  }

  /** A table of n items is at most 2 * log2(n + 1) deep. */
  lemma HeightBound(t: Tree)
    requires Balanced(t)
    ensures Pow2((Height(t) + 1) / 2) <= Size(t) + 1
  {
    var h :| RB(t, h);
    HeightFromBlackHeight(t, h);
    SizeFromBlackHeight(t, h);
    Pow2Monotone((Height(t) + 1) / 2, h);
  }

  // Counts are size_t; a table never holds more items than this.
  const MAX_COUNT: nat := KEY_END - 2

  /** With 64-bit counts no path is longer than 126 nodes. */
  lemma PathBound(t: Tree)
    requires Balanced(t) && Size(t) <= MAX_COUNT
    ensures Height(t) <= 126
  {
    HeightBound(t);
    if Height(t) > 126 {
      Pow2Monotone(64, (Height(t) + 1) / 2);
      Pow2Of64();
      assert false;
    }
  }
}
