/** The backtracking search of ec_encode_data/decode_list.c:354-499 over all erasure patterns. */
module ErasureSearch {
  import opened Combination
  import opened DecodeMatrix
  import opened Erasures
  import opened Gf256
  import opened Matrix
  import opened Wrappers

  /** What ec_decode_matrix_new keeps of a pattern (decode_list.c:309-315): the flags, the list of m
      slots, and both counts. */
  datatype Cached = Cached(inErr: seq<bool>, errList: seq<nat>, nerrs: nat, nsrcerrs: nat)

  function Entry(p: Pattern, m: nat, k: nat): Cached {
    Cached(seq(m, i => i in p), p + seq(if m > |p| then m - |p| else 0, _ => 0), |p|, DataErrors(p, k))
  }

  /** The cache after these visits: the newest first, only what hits a data fragment. */
  function CacheOf(ps: seq<Pattern>, m: nat, k: nat): seq<Cached> {
    if ps == [] then []
    else
      var p := ps[|ps| - 1];
      (if DataErrors(p, k) != 0 then [Entry(p, m, k)] else []) + CacheOf(ps[..|ps| - 1], m, k)
  }

  /** One element of the cache (ec_decode_matrix_t). */
  datatype Built = Built(pattern: Cached, decodeIndex: seq<nat>, decodeMatrix: Mat)

  function Patterns(cache: seq<Built>): (r: seq<Cached>)
    ensures |r| == |cache|
  {
    seq(|cache|, i requires 0 <= i < |cache| => cache[i].pattern)
  }

  /** Every inversion succeeds, and what it gives is an inverse. */
  ghost predicate Inverts(invert: Mat -> Option<Mat>, e: Mat, k: nat) {
    forall err: seq<bool> :: |err| == |e| && k <= |Alive(err, 0)| ==>
      var b := Survivors(e, err, k); invert(b).Some? && LeftInverse(invert(b).value, b, k)
  }

  /** The element holds the numbers of the first k survivors and, for each erased fragment, a row that
      makes its encode-matrix row from theirs. */
  ghost predicate Decodes(e: Mat, m: nat, k: nat, b: Built) {
    && IsMat(e, m, k) && Shaped(b.pattern, m, k) && |b.decodeIndex| == m && IsMat(b.decodeMatrix, m, k)
    && (forall i :: 0 <= i < k ==> b.decodeIndex[i] == Alive(b.pattern.inErr, 0)[i])
    && MakesErased(e, b.pattern.inErr, b.pattern.errList[..b.pattern.nerrs], m, k, b.decodeMatrix)
  }

  ghost predicate Shaped(c: Cached, m: nat, k: nat) {
    && |c.inErr| == |c.errList| == m && k <= m && c.nerrs <= m - k && k <= |Alive(c.inErr, 0)|
    && c.errList[..c.nerrs] == Erased(c.inErr, 0) && c.nsrcerrs == DataErrors(c.errList[..c.nerrs], k)
  }

  /** ec_decode_matrix_new, decode_list.c:292-330, all allocations and the inversion succeeding. */
  method DecodeMatrixNew(e: Mat, invert: Mat -> Option<Mat>, m: nat, k: nat, c: Cached) returns (b: Built)
    requires Systematic(e, m, k) && Inverts(invert, e, k) && Shaped(c, m, k)
    ensures b.pattern == c && Decodes(e, m, k, b)
  {
    InvertsAt(invert, e, c.inErr, m, k);
    SystematicMat(e, m, k);
    ShapedErrs(c, m, k);
    hide *;
    var index := new nat[m](_ => 0);
    var decode := new Byte[m, k]((_, _) => ZERO);
    var errs := c.errList[..c.nerrs];
    var ret := GenDecodeMatrix(e, c.inErr, errs, c.nsrcerrs, m, k, invert(Survivors(e, c.inErr, k)), index, decode);
    b := Built(c, index[..], MatOf(decode));
    MatOfRows(decode);
    RowsDecode(e, c, m, k, index[..], MatOf(decode));
  }

  lemma ShapedErrs(c: Cached, m: nat, k: nat)
    requires Shaped(c, m, k)
    ensures |c.inErr| == |c.errList| == m && k <= m && c.nerrs <= m - k && k <= |Alive(c.inErr, 0)|
    ensures c.errList[..c.nerrs] == Erased(c.inErr, 0) && c.nsrcerrs == DataErrors(c.errList[..c.nerrs], k)
  {
  }

  lemma MatOfRows(a: array2<Byte>)
    ensures forall i :: 0 <= i < a.Length0 ==> MatOf(a)[i] == RowOf(a, i)
    ensures IsMat(MatOf(a), a.Length0, a.Length1) && |MatOf(a)| == a.Length0
  {
  }

  lemma RowsDecode(e: Mat, c: Cached, m: nat, k: nat, index: seq<nat>, rows: Mat)
    requires IsMat(e, m, k) && Shaped(c, m, k) && |index| == m && IsMat(rows, m, k)
    requires forall i :: 0 <= i < k ==> index[i] == Alive(c.inErr, 0)[i]
    requires forall q :: 0 <= q < c.nerrs ==>
               c.errList[..c.nerrs][q] < m
               && RowTimes(rows[q], Survivors(e, c.inErr, k), k, k) == e[c.errList[..c.nerrs][q]]
    ensures Decodes(e, m, k, Built(c, index, rows))
  {
    hide RowTimes;
    hide Survivors;
    hide Alive;
  }

  lemma InvertsAt(invert: Mat -> Option<Mat>, e: Mat, err: seq<bool>, m: nat, k: nat)
    requires Inverts(invert, e, k) && |err| == |e| == m && k <= |Alive(err, 0)|
    ensures var b := Survivors(e, err, k); invert(b).Some? && LeftInverse(invert(b).value, b, k)
  {
    hide LeftInverse;
    hide Survivors;
  }

  lemma SystematicMat(e: Mat, m: nat, k: nat)
    requires Systematic(e, m, k)
    ensures IsMat(e, m, k) && |e| == m
  {
  }

  /** The flags, the list and the counts are those of the pattern `cur`. */
  ghost predicate Marked(inErr: seq<bool>, errList: seq<nat>, count: nat, nerrs: nat, nsrcerrs: nat, cur: Pattern,
                         m: nat, k: nat) {
    && |inErr| == m == |errList| && Rising(cur, 0, m) && |cur| <= m
    && count == nerrs == |cur| && nsrcerrs == DataErrors(cur, k)
    && errList[..|cur|] == cur
    && (forall i :: |cur| <= i < m ==> errList[i] == 0)
    && forall i :: 0 <= i < m ==> (inErr[i] <==> i in cur)
  }

  lemma MarkedEntry(inErr: seq<bool>, errList: seq<nat>, count: nat, nerrs: nat, nsrcerrs: nat, cur: Pattern, m: nat, k: nat)
    requires Marked(inErr, errList, count, nerrs, nsrcerrs, cur, m, k)
    ensures Entry(cur, m, k) == Cached(inErr, errList, nerrs, nsrcerrs)
    ensures Rising(cur, 0, m) && nsrcerrs == DataErrors(cur, k)
  {
    hide Rising;
    hide DataErrors;
    assert inErr == Entry(cur, m, k).inErr;
    assert errList == Entry(cur, m, k).errList;
  }

  lemma MarkedMore(inErr: seq<bool>, errList: seq<nat>, n: nat, nsrcerrs: nat, cur: Pattern, m: nat, k: nat, i: nat)
    requires Marked(inErr, errList, n, n, nsrcerrs, cur, m, k) && i < m && n < m && Rising(cur + [i], 0, m)
    ensures Marked(inErr[i := true], errList[n := i], n + 1, n + 1, nsrcerrs + (if i < k then 1 else 0), cur + [i], m, k)
  {
    assert (cur + [i])[..n] == cur;
    assert errList[n := i][..n + 1] == cur + [i];
  }

  lemma MarkedLess(inErr: seq<bool>, errList: seq<nat>, n: nat, nsrcerrs: nat, cur: Pattern, m: nat, k: nat, i: nat)
    requires Marked(inErr, errList, n, n, nsrcerrs, cur + [i], m, k) && i < m
    ensures n == |cur| + 1 && nsrcerrs >= if i < k then 1 else 0
    ensures Marked(inErr[i := false], errList[n - 1 := 0], n - 1, n - 1, nsrcerrs - (if i < k then 1 else 0), cur, m, k)
  {
    var now := cur + [i];
    assert now[..|cur|] == cur && now[|cur|] == i;
    assert errList[..n][..n - 1] == errList[..n - 1];
    assert errList[n - 1 := 0][..n - 1] == cur;
  }

  /** The cache holds what the visits so far put there. */
  ghost predicate Caches(cache: seq<Built>, visited: seq<Pattern>, e: Mat, m: nat, k: nat) {
    && Patterns(cache) == CacheOf(visited, m, k)
    && forall i :: 0 <= i < |cache| ==> Decodes(e, m, k, cache[i])
  }

  lemma CachesMore(cache: seq<Built>, visited: seq<Pattern>, e: Mat, m: nat, k: nat, p: Pattern, b: seq<Built>)
    requires Caches(cache, visited, e, m, k)
    requires if DataErrors(p, k) != 0 then |b| == 1 && b[0].pattern == Entry(p, m, k) && Decodes(e, m, k, b[0]) else b == []
    ensures Caches(b + cache, visited + [p], e, m, k)
  {
    hide Decodes;
    hide Entry;
    hide DataErrors;
    assert (visited + [p])[..|visited|] == visited;
    assert Patterns(b + cache) == Patterns(b) + Patterns(cache);
  }

  class Search {
    const m: nat
    const k: nat
    const encodeMatrix: Mat
    const invert: Mat -> Option<Mat>
    const srcInErr: array<bool>
    const srcErrList: array<nat>
    var count: nat
    var nerrs: nat
    var nsrcerrs: nat
    var cache: seq<Built>
    ghost var visited: seq<Pattern>

    /** The whole state is that of the pattern `cur`. */
    ghost predicate At(cur: Pattern)
      reads this, srcInErr, srcErrList
    {
      && srcInErr.Length == m == srcErrList.Length
      && Marked(srcInErr[..], srcErrList[..], count, nerrs, nsrcerrs, cur, m, k)
      && Caches(cache, visited, encodeMatrix, m, k)
    }

    /** What the search is given. */
    ghost predicate Sound() { Systematic(encodeMatrix, m, k) && Inverts(invert, encodeMatrix, k) }

    constructor (m: nat, k: nat, encodeMatrix: Mat, invert: Mat -> Option<Mat>)
      ensures this.m == m && this.k == k && this.encodeMatrix == encodeMatrix && this.invert == invert
      ensures fresh(srcInErr) && fresh(srcErrList)
      ensures At([]) && visited == []
    {
      this.m, this.k, this.encodeMatrix, this.invert := m, k, encodeMatrix, invert;
      srcInErr := new bool[m](_ => false);
      srcErrList := new nat[m](_ => 0);
      count, nerrs, nsrcerrs, cache, visited := 0, 0, 0, [], [];
    }

    /** decode_list.c:364-368: fragment `i` joins the pattern. */
    method Mark(i: nat, ghost cur: Pattern)
      requires At(cur) && i < m && Rising(cur + [i], 0, m) && |cur| < m
      modifies this`count, this`nerrs, this`nsrcerrs, srcInErr, srcErrList
      ensures At(cur + [i]) && count == |cur| + 1
    {
      assert count == nerrs == |cur|;
      hide Marked;
      hide Caches;
      MarkedMore(srcInErr[..], srcErrList[..], nerrs, nsrcerrs, cur, m, k, i);
      count := count + 1;
      srcInErr[i] := true;
      srcErrList[nerrs] := i;
      nerrs := nerrs + 1;
      if i < k { nsrcerrs := nsrcerrs + 1; }
      assert srcInErr[..] == old(srcInErr[..])[i := true] && srcErrList[..] == old(srcErrList[..])[|cur| := i];
    }

    /** decode_list.c:381-385 and 391-395: it leaves again. */
    method Unmark(i: nat, ghost cur: Pattern)
      requires At(cur + [i]) && i < m
      modifies this`count, this`nerrs, this`nsrcerrs, srcInErr, srcErrList
      ensures At(cur)
    {
      assert count == nerrs;
      hide Marked;
      hide Caches;
      MarkedLess(srcInErr[..], srcErrList[..], nerrs, nsrcerrs, cur, m, k, i);
      RoomLess(cur, i);
      srcInErr[i] := false;
      count := count - 1;
      nerrs := nerrs - 1;
      srcErrList[nerrs] := 0;
      if i < k { nsrcerrs := nsrcerrs - 1; }
      assert srcInErr[..] == old(srcInErr[..])[i := false] && srcErrList[..] == old(srcErrList[..])[|cur| := 0];
    }

    lemma RoomLess(cur: Pattern, i: nat)
      requires At(cur + [i])
      ensures |cur| < m
    {
    }

    /** decode_list.c:371-378: a pattern that hits a data fragment is put into the cache, with its decode
        matrix. */
    method Visit(ghost cur: Pattern)
      requires Sound() && At(cur) && 0 < |cur| <= m - k
      modifies this`cache, this`visited
      ensures At(cur) && visited == old(visited) + [cur]
    {
      MarkedEntry(srcInErr[..], srcErrList[..], count, nerrs, nsrcerrs, cur, m, k);
      assert k <= m;
      hide Marked;
      hide Caches;
      hide Decodes;
      hide Shaped;
      hide Systematic;
      hide Inverts;
      hide Entry;
      hide Rising;
      hide DataErrors;
      ghost var was := cache;
      ghost var more: seq<Built> := [];
      if nsrcerrs != 0 {
        PatternFits(cur, m, k);
        var b := DecodeMatrixNew(encodeMatrix, invert, m, k, Cached(srcInErr[..], srcErrList[..], nerrs, nsrcerrs));
        cache := [b] + cache;
        more := [b];
      }
      assert cache == more + was;
      CachesMore(was, visited, encodeMatrix, m, k, cur, more);
      visited := visited + [cur];
    }

    /** ec_method_decode_matrix_ftw, decode_list.c:354-401: all patterns that go on from `cur`, whose
        last fragment is `n`, to `errorCount` fragments; afterwards everything is as before. */
    method Ftw(n: nat, errorCount: nat, ghost cur: Pattern)
      requires Sound() && At(cur) && cur != [] && cur[|cur| - 1] == n < m && |cur| < errorCount <= m - k
      modifies this, srcInErr, srcErrList
      ensures At(cur)
      ensures visited == old(visited) + Extend(cur, Choose(n + 1, m, errorCount - |cur|))
      decreases m - n, 0
    {
      hide At;
      hide Sound;
      hide Choose;
      hide Extend;
      hide Rising;
      var i := n + 1;
      ghost var rest := Extend(cur, Choose(i, m, errorCount - |cur|));
      ghost var all := visited + rest;
      assert Joined(visited, rest, all);
      hide Joined;
      while i < m
        invariant n < i <= m && At(cur)
        invariant Joined(visited, Extend(cur, Choose(i, m, errorCount - |cur|)), all)
      {
        ExtendStep(cur, i, m, errorCount - |cur|);
        ghost var now := Extend(cur + [i], Choose(i + 1, m, errorCount - |cur| - 1));
        ghost var later := Extend(cur, Choose(i + 1, m, errorCount - |cur|));
        JoinedStep(visited, now, later, all);
        Branch(i, errorCount, cur);
        i := i + 1;
      }
      NoneFrom(i, m, errorCount - |cur|, cur);
      JoinedAll(visited, [], all);
    }

    /** One pass of the loops at decode_list.c:363-397 and 452-490: the patterns that go on with `i`. */
    method Branch(i: nat, errorCount: nat, ghost cur: Pattern)
      requires Sound() && At(cur) && i < m && (cur == [] || cur[|cur| - 1] < i) && |cur| < errorCount <= m - k
      modifies this, srcInErr, srcErrList
      ensures At(cur)
      ensures visited == old(visited) + Extend(cur + [i], Choose(i + 1, m, errorCount - |cur| - 1))
      decreases m - i, 1
    {
      hide *;
      RoomAt(cur, i);
      Mark(i, cur);
      ghost var now := cur + [i];
      if count == errorCount {
        Visit(now);
        ExtendNothing(now, i + 1, m);
      } else {
        Ftw(i, errorCount, now);
      }
      Unmark(i, cur);
    }

    lemma RoomAt(cur: Pattern, i: nat)
      requires At(cur) && i < m && (cur == [] || cur[|cur| - 1] < i)
      ensures |cur| <= i && Rising(cur + [i], 0, m)
    {
      RoomFor(cur, m, i);
    }

    /** decode_list.c:453-457; it finds everything reset already. */
    method Reset()
      requires At([])
      modifies this`count, this`nerrs, this`nsrcerrs, srcInErr, srcErrList
      ensures At([])
    {
      hide Caches;
      count, nerrs, nsrcerrs := 0, 0, 0;
      var i := 0;
      while i < m
        invariant 0 <= i <= m && count == nerrs == nsrcerrs == 0
        invariant forall x :: 0 <= x < i ==> !srcInErr[x] && srcErrList[x] == 0
      {
        srcInErr[i], srcErrList[i] := false, 0;
        i := i + 1;
      }
      assert Marked(srcInErr[..], srcErrList[..], 0, 0, 0, [], m, k);
    }

    /** decode_list.c:452-490: all first fragments for one size. */
    method EnumerateSize(errorCount: nat)
      requires Sound() && At([]) && 1 <= errorCount <= m - k
      modifies this, srcInErr, srcErrList
      ensures At([]) && visited == old(visited) + Choose(0, m, errorCount)
    {
      hide *;
      var n := 0;
      ghost var all := visited + Choose(0, m, errorCount);
      JoinedStart(visited, Choose(0, m, errorCount), all);
      while n < m
        invariant 0 <= n <= m && At([]) && Joined(visited, Choose(n, m, errorCount), all)
      {
        ChooseStep(n, m, errorCount);
        ghost var now, later := Extend([n], Choose(n + 1, m, errorCount - 1)), Choose(n + 1, m, errorCount);
        assert [] + [n] == [n];
        JoinedStep(visited, now, later, all);
        Reset();
        Branch(n, errorCount, []);
        n := n + 1;
      }
      NoneFrom(n, m, errorCount, []);
      JoinedAll(visited, Choose(n, m, errorCount), all);
    }

    lemma SoundSize()
      requires Sound()
      ensures k <= m
    {
    }

    /** ec_method_decode_matrix_init, decode_list.c:449-493: all sizes up to the redundancy, and for each
        all first fragments. */
    method EnumerateAll()
      requires Sound() && At([]) && visited == []
      modifies this, srcInErr, srcErrList
      ensures At([])
      ensures visited == UpTo(m, m - k)
    {
      hide *;
      SoundSize();
      UpToStart(m);
      var redundancy := m - k;
      var errorCount := 1;
      while errorCount <= redundancy
        invariant 1 <= errorCount <= redundancy + 1 && At([])
        invariant visited == UpTo(m, errorCount - 1)
      {
        UpToNext(m, errorCount);
        EnumerateSize(errorCount);
        errorCount := errorCount + 1;
      }
    }
  }

  lemma UpToStart(m: nat)
    ensures UpTo(m, 0) == []
  {
  }

  lemma UpToNext(m: nat, c: nat)
    requires c > 0
    ensures UpTo(m, c) == UpTo(m, c - 1) + Choose(0, m, c)
  {
  }

  predicate Joined(seen: seq<Pattern>, rest: seq<Pattern>, all: seq<Pattern>) { seen + rest == all }

  lemma JoinedStart(seen: seq<Pattern>, rest: seq<Pattern>, all: seq<Pattern>)
    requires all == seen + rest
    ensures Joined(seen, rest, all)
  {
  }

  lemma JoinedStep(seen: seq<Pattern>, now: seq<Pattern>, later: seq<Pattern>, all: seq<Pattern>)
    requires Joined(seen, now + later, all)
    ensures Joined(seen + now, later, all)
  {
    assert seen + (now + later) == (seen + now) + later;
  }

  lemma JoinedAll(seen: seq<Pattern>, rest: seq<Pattern>, all: seq<Pattern>)
    requires Joined(seen, rest, all) && rest == []
    ensures seen == all
  {
  }

  lemma ChooseStep(i: nat, m: nat, c: nat)
    requires i < m && c > 0
    ensures Choose(i, m, c) == Extend([i], Choose(i + 1, m, c - 1)) + Choose(i + 1, m, c)
  {
  }

  lemma NoneFrom(i: nat, m: nat, c: nat, cur: Pattern)
    requires i >= m && c > 0
    ensures Choose(i, m, c) == [] && Extend(cur, Choose(i, m, c)) == []
  {
  }

  lemma ExtendNothing(cur: Pattern, i: nat, m: nat)
    ensures Extend(cur, Choose(i, m, 0)) == [cur]
  {
    assert cur + [] == cur;
  }

  /** ec_method_decode_matrix_init, decode_list.c:403-499, every build succeeding.  The count that it takes
      first may divide by zero; then it does not get any further (None).  For k = m no build runs, and the
      initial error value comes back. */
  method Init(m: int, k: int, encodeMatrix: Mat, invert: Mat -> Option<Mat>) returns (err: Option<int>, search: Search?)
    requires IsInt(m) && IsInt(k)
    requires 0 < k <= m ==> Systematic(encodeMatrix, m, k) && Inverts(invert, encodeMatrix, k)
    ensures m <= 0 || k <= 0 ==> err == Some(-EINVAL)
    ensures m > 0 && k > 0 ==>
              err == if k > m || (k < m && (m >= 67 || (m == 66 && k <= 64))) then None
                     else if k == m then Some(-ENOMEM) else Some(0)
    ensures search != null <==> m > 0 && k > 0 && err != None
    ensures search != null ==>
              && Patterns(search.cache) == CacheOf(UpTo(m, m - k), m, k) && search.visited == UpTo(m, m - k)
              && forall i :: 0 <= i < |search.cache| ==> Decodes(encodeMatrix, m, k, search.cache[i])
  {
    hide UpTo;
    hide CacheOf;
    hide Stops;
    hide Decodes;
    hide WrappedSum;
    hide Systematic;
    hide Inverts;
    var count := Combine(m, k);
    if m <= 0 || k <= 0 {
      return Some(-EINVAL), null;
    }
    StopsExactly(m, k);
    if count == None {
      return None, null;
    }
    search := new Search(m, k, encodeMatrix, invert);
    search.EnumerateAll();
    err := Some(if |search.cache| == 0 then -ENOMEM else 0);
    CacheLength(search.cache, m, k);
  }

  lemma CacheLength(cache: seq<Built>, m: nat, k: nat)
    requires 0 < k <= m && Patterns(cache) == CacheOf(UpTo(m, m - k), m, k)
    ensures |cache| == 0 <==> k == m
  {
    if k < m {
      FirstHits(m, m - k, k);
      CacheHas(UpTo(m, m - k), m, k, 0);
    }
  }

  lemma {:induction false} FirstHits(m: nat, c: nat, k: nat)
    requires c > 0 && m > 0 && k > 0
    ensures UpTo(m, c) != [] && UpTo(m, c)[0] == [0] && DataErrors([0], k) == 1
  {
    if c == 1 {
      assert UpTo(m, 0) == [] && Choose(1, m, 0) == [[]];
      assert Choose(0, m, 1)[0] == [0] + [];
      assert DataErrors([0][..0], k) == 0;
    } else {
      FirstHits(m, c - 1, k);
    }
  }

  /** The cache holds exactly the visited patterns that hit a data fragment. */
  lemma {:induction false} CacheHas(ps: seq<Pattern>, m: nat, k: nat, i: nat)
    requires i < |ps| && DataErrors(ps[i], k) != 0
    ensures Entry(ps[i], m, k) in CacheOf(ps, m, k)
  {
    var n := |ps| - 1;
    if i < n { CacheHas(ps[..n], m, k, i); }
  }

  lemma {:induction false} CacheOnly(ps: seq<Pattern>, m: nat, k: nat, e: Cached) returns (i: nat)
    requires e in CacheOf(ps, m, k)
    ensures i < |ps| && DataErrors(ps[i], k) != 0 && e == Entry(ps[i], m, k)
  {
    var n := |ps| - 1;
    if DataErrors(ps[n], k) != 0 && e == Entry(ps[n], m, k) {
      i := n;
    } else {
      i := CacheOnly(ps[..n], m, k, e);
    }
  }

  /** A pattern hits a data fragment just when its first fragment is one. */
  lemma HitsData(p: Pattern, m: nat, k: nat)
    requires Rising(p, 0, m) && p != []
    ensures DataErrors(p, k) != 0 <==> p[0] < k
    ensures (exists x :: x in p && x < k) <==> p[0] < k
  {
    DataFirst(p, k, 0);
    assert p[0] in p;
  }

  lemma PatternFits(p: Pattern, m: nat, k: nat)
    requires k <= m && Rising(p, 0, m) && |p| <= m - k
    ensures Shaped(Entry(p, m, k), m, k) && Entry(p, m, k).errList[..|p|] == p
  {
    var flags := Entry(p, m, k).inErr;
    var q := Erased(flags, 0);
    forall x | x in p ensures x in q { assert flags[x]; }
    forall x | x in q ensures x in p { assert flags[x]; }
    RisingUnique(p, q, m);
  }

  /** Every build gets what it needs: the list is that of the flags, both counts agree with it, and
      enough fragments survive. */
  lemma EntryFits(m: nat, k: nat, i: nat)
    requires k <= m && i < |UpTo(m, m - k)|
    ensures var p := UpTo(m, m - k)[i];
            var e := Entry(p, m, k);
            |e.inErr| == m && e.errList[..e.nerrs] == p == Erased(e.inErr, 0)
            && 0 < e.nerrs <= m - k && e.nsrcerrs == DataErrors(p, k) && k <= |Alive(e.inErr, 0)|
  {
    UpToRises(m, m - k, i);
    PatternFits(UpTo(m, m - k)[i], m, k);
  }

  /** What the cache is for: row q of an element, applied to what survives of any data, gives the erased
      fragment of number q. */
  lemma CacheDecodes(e: Mat, m: nat, k: nat, b: Built, q: nat, data: Vec)
    requires Decodes(e, m, k, b) && q < b.pattern.nerrs && |data| == k
    ensures b.pattern.errList[q] < m
    ensures Dot(b.decodeMatrix[q], Times(Survivors(e, b.pattern.inErr, k), data), k) == Dot(e[b.pattern.errList[q]], data, k)
    ensures forall i :: 0 <= i < k ==>
              b.decodeIndex[i] < m
              && Times(Survivors(e, b.pattern.inErr, k), data)[i] == Dot(e[b.decodeIndex[i]], data, k)
  {
    hide RowTimes;
    hide Dot;
    hide Times;
    assert b.pattern.errList[..b.pattern.nerrs][q] == b.pattern.errList[q];
    DecodesErased(e, b.pattern.inErr, m, k, b.decodeMatrix[q], b.pattern.errList[q], data);
  }

  lemma ExtendStep(cur: Pattern, i: nat, m: nat, c: nat)
    requires i < m && c > 0
    ensures Extend(cur, Choose(i, m, c)) == Extend(cur + [i], Choose(i + 1, m, c - 1)) + Extend(cur, Choose(i + 1, m, c))
  {
    var a := Choose(i + 1, m, c - 1);
    forall x | 0 <= x < |a| ensures Extend(cur, Choose(i, m, c))[x] == (cur + [i]) + a[x] {
      assert cur + ([i] + a[x]) == (cur + [i]) + a[x];
    }
  }

  lemma {:induction false} RoomFor(cur: Pattern, m: nat, i: nat)
    requires Rising(cur, 0, m) && i < m && forall x :: 0 <= x < |cur| ==> cur[x] < i
    ensures |cur| <= i && Rising(cur + [i], 0, m)
  {
    if cur != [] { RoomFor(cur[..|cur| - 1], m, cur[|cur| - 1]); }
  }
}
