/** What storing the survivors' numbers in bytes (decode_index, gf_vect_dot_prod/test.c:507, 540, 572)
    costs: exactly which losses are repaired. */
module StripeCut {
  import opened Gf256
  import opened Matrix
  import opened DecodeMatrix
  import opened StripeCode
  import opened StripeDecode

  predicate DataLost(err: seq<bool>, k: nat) { exists x :: 0 <= x < k && x < |err| && err[x] }

  /** A case of use: a systematic matrix whose first k surviving rows have the inverse `inv`, data of at
      least one stripe, and fragments of which the surviving ones are as they were encoded. */
  ghost predicate Use(e: Mat, inv: Mat, err: seq<bool>, m: nat, k: nat, data: seq<Byte>, frags: seq<seq<Byte>>)
    requires |err| == m && k <= |Alive(err, 0)|
  {
    && Systematic(e, m, k) && LeftInverse(inv, Survivors(e, err, k), k)
    && |frags| == m && |data| >= k * CHUNK && Whole(|data|, k) && Survive(e, err, k, frags, 0, data)
  }

  /** In every case of use the first stripe comes out right. */
  ghost predicate Repairs(err: seq<bool>, m: nat, k: nat)
    requires |err| == m && 0 < k <= m && k <= |Alive(err, 0)|
  {
    forall e: Mat, inv: Mat, data: seq<Byte>, frags: seq<seq<Byte>> ::
      Use(e, inv, err, m, k, data, frags) ==> FirstStripe(inv, err, frags, k) == data[..k * CHUNK]
  }

  // ---------------------------------------------------------------- nothing is cut

  lemma FirstChunkRight(e: Mat, inv: Mat, err: seq<bool>, m: nat, k: nat, data: seq<Byte>, frags: seq<seq<Byte>>, x: nat)
    requires |err| == m && 0 < k <= m && k <= |Alive(err, 0)| && Use(e, inv, err, m, k, data, frags) && x < k
    requires Straight(err, k) || !DataLost(err, k)
    ensures FirstChunk(inv, err, frags, k, x) == Chunk(data[..k * CHUNK], x)
  {
    var stripe := data[..k * CHUNK];
    SurviveStripe(e, err, k, frags, 0, data);
    hide CodeStripe;
    hide DotChunks;
    hide LeftInverse;
    hide Survivors;
    hide Fragment;
    if err[x] {
      var chunks := Heads(frags, CutIndex(err, k));
      StraightIndex(err, k);
      DecodeStripe(e, err, m, k, inv, chunks, stripe, x);
    } else {
      UnitCopies(stripe, k, x);
    }
  }

  lemma {:induction false} FirstChunksRight(e: Mat, inv: Mat, err: seq<bool>, m: nat, k: nat, data: seq<Byte>,
                                            frags: seq<seq<Byte>>, n: nat)
    requires |err| == m && 0 < k <= m && k <= |Alive(err, 0)| && Use(e, inv, err, m, k, data, frags) && n <= k
    requires Straight(err, k) || !DataLost(err, k)
    ensures n * CHUNK <= k * CHUNK && FirstChunks(inv, err, frags, k, n) == data[..k * CHUNK][..n * CHUNK]
  {
    hide *;
    UseSizes(e, inv, err, m, k, data, frags);
    FirstChunksStep(inv, err, frags, k, n);
    if n > 0 {
      FirstChunksRight(e, inv, err, m, k, data, frags, n - 1);
      FirstChunkRight(e, inv, err, m, k, data, frags, n - 1);
      ChunkNext(data[..k * CHUNK], n - 1, k);
    }
  }

  lemma FirstChunksStep(inv: Mat, err: seq<bool>, frags: seq<seq<Byte>>, k: nat, n: nat)
    requires n <= k <= |err| && IsMat(inv, k, k) && k <= |Alive(err, 0)|
    ensures n == 0 ==> FirstChunks(inv, err, frags, k, n) == []
    ensures n > 0 ==>
              FirstChunks(inv, err, frags, k, n)
              == FirstChunks(inv, err, frags, k, n - 1) + FirstChunk(inv, err, frags, k, n - 1)
  {
    hide FirstChunk;
  }

  lemma FirstStripeRight(e: Mat, inv: Mat, err: seq<bool>, m: nat, k: nat, data: seq<Byte>, frags: seq<seq<Byte>>)
    requires |err| == m && 0 < k <= m && k <= |Alive(err, 0)| && Use(e, inv, err, m, k, data, frags)
    requires Straight(err, k) || !DataLost(err, k)
    ensures |data| >= k * CHUNK && IsMat(inv, k, k) && FirstStripe(inv, err, frags, k) == data[..k * CHUNK]
  {
    hide Use;
    hide FirstChunks;
    UseSizes(e, inv, err, m, k, data, frags);
    FirstChunksRight(e, inv, err, m, k, data, frags, k);
    assert data[..k * CHUNK][..k * CHUNK] == data[..k * CHUNK];
  }

  lemma UseSizes(e: Mat, inv: Mat, err: seq<bool>, m: nat, k: nat, data: seq<Byte>, frags: seq<seq<Byte>>)
    requires |err| == m && k <= |Alive(err, 0)| && Use(e, inv, err, m, k, data, frags)
    ensures |data| >= k * CHUNK && IsMat(inv, k, k) && |frags| == m
  {
  }

  // ---------------------------------------------------------------- a case in which the cut tells

  /** The surviving data rows, then the lost ones: survivor number i is given row Target[i]. */
  function Target(err: seq<bool>, k: nat): (t: seq<nat>)
    requires k <= |err|
    ensures |t| == k && forall i :: 0 <= i < k ==> t[i] < k
    ensures forall i, j :: 0 <= i < j < k ==> t[i] != t[j]
    ensures forall x :: 0 <= x < k ==> x in t
  {
    var front := err[..k];
    TargetIs(front);
    Alive(front, 0) + Erased(front, 0)
  }

  lemma TargetIs(err: seq<bool>)
    ensures var t := Alive(err, 0) + Erased(err, 0);
            && |t| == |err| && (forall i :: 0 <= i < |t| ==> t[i] < |err|)
            && (forall i, j :: 0 <= i < j < |t| ==> t[i] != t[j]) && forall x :: 0 <= x < |err| ==> x in t
  {
    var a, b := Alive(err, 0), Erased(err, 0);
    var t := a + b;
    assert forall x :: 0 <= x < |err| ==> x in (if err[x] then b else a);
  }

  function Place(s: seq<nat>, x: nat): (i: nat)
    requires x in s
    ensures i < |s| && s[i] == x
  {
    if s[0] == x then 0 else 1 + Place(s[1..], x)
  }

  lemma PlaceOf(s: seq<nat>, i: nat)
    requires i < |s| && forall x, y :: 0 <= x < y < |s| ==> s[x] != s[y]
    ensures Place(s, s[i]) == i
  {
  }

  /** The matrix: unit rows throughout, survivor number i having that of Target[i]. */
  function UnitMatrix(err: seq<bool>, k: nat): (e: Mat)
    requires 0 < k <= |err| && k <= |Alive(err, 0)|
    ensures IsMat(e, |err|, k)
  {
    var s, t := Alive(err, 0)[..k], Target(err, k);
    seq(|err|, r requires 0 <= r < |err| =>
      if r < k then Unit(k, r) else if r in s then Unit(k, t[Place(s, r)]) else Unit(k, 0))
  }

  function UnitInverse(err: seq<bool>, k: nat): (d: Mat)
    requires k <= |err|
    ensures IsMat(d, k, k)
  {
    seq(k, x requires 0 <= x < k => Unit(k, Place(Target(err, k), x)))
  }

  /** Survivors below k come first, and are the surviving data rows. */
  lemma {:induction false} AliveSplit(err: seq<bool>, k: nat, r: nat)
    requires r <= k <= |err|
    ensures Alive(err, r) == Alive(err[..k], r) + Alive(err, k)
    decreases k - r
  {
    hide *;
    var front := err[..k];
    if r < k {
      AliveSplit(err, k, r + 1);
      AliveStep(err, r);
      AliveStep(front, r);
      Cons(r, Alive(front, r + 1), Alive(err, k));
    } else {
      AliveEnd(front);
      assert [] + Alive(err, k) == Alive(err, k);
    }
  }

  lemma Cons(x: nat, a: seq<nat>, b: seq<nat>)
    ensures [x] + (a + b) == ([x] + a) + b
  {
  }

  lemma AliveEnd(err: seq<bool>)
    ensures Alive(err, |err|) == []
  {
  }

  lemma AliveStep(err: seq<bool>, r: nat)
    requires r < |err|
    ensures Alive(err, r) == if err[r] then Alive(err, r + 1) else [r] + Alive(err, r + 1)
  {
  }

  lemma TargetAt(err: seq<bool>, k: nat, i: nat)
    requires 0 < k <= |err| && k <= |Alive(err, 0)| && i < k
    ensures Alive(err, 0)[i] == Target(err, k)[i] || k <= Alive(err, 0)[i] < |err|
  {
    var a := Alive(err[..k], 0);
    AliveSplit(err, k, 0);
    assert forall x :: 0 <= x < |Alive(err, k)| ==> k <= Alive(err, k)[x] < |err|;
    assert i < |a| ==> Target(err, k)[i] == a[i];
    hide Alive;
    hide Target;
    if i >= |a| { assert Alive(err, 0)[i] == Alive(err, k)[i - |a|]; }
  }

  lemma SurvivorRow(err: seq<bool>, k: nat, i: nat)
    requires 0 < k <= |err| && k <= |Alive(err, 0)| && i < k
    ensures UnitMatrix(err, k)[Alive(err, 0)[i]] == Unit(k, Target(err, k)[i])
  {
    hide Target;
    TargetAt(err, k, i);
    PlaceAlive(err, k, i);
    hide Alive;
    hide Place;
    hide Unit;
  }

  lemma PlaceAlive(err: seq<bool>, k: nat, i: nat)
    requires k <= |Alive(err, 0)| && i < k
    ensures Alive(err, 0)[i] < |err| && Alive(err, 0)[i] in Alive(err, 0)[..k]
    ensures Place(Alive(err, 0)[..k], Alive(err, 0)[i]) == i
  {
    var s := Alive(err, 0);
    hide Alive;
    assert s[..k][i] == s[i];
    PlaceOf(s[..k], i);
  }

  lemma UnitRowTimes(k: nat, p: nat, b: Mat)
    requires p < k && IsMat(b, k, k)
    ensures RowTimes(Unit(k, p), b, k, k) == b[p]
  {
    hide Dot;
    forall c | 0 <= c < k ensures RowTimes(Unit(k, p), b, k, k)[c] == b[p][c] {
      DotUnit(k, p, Col(b, c), k);
    }
  }

  lemma UnitInverts(err: seq<bool>, m: nat, k: nat)
    requires |err| == m && 0 < k <= m && k <= |Alive(err, 0)|
    ensures Systematic(UnitMatrix(err, k), m, k)
    ensures LeftInverse(UnitInverse(err, k), Survivors(UnitMatrix(err, k), err, k), k)
  {
    var e := UnitMatrix(err, k);
    var b := Survivors(e, err, k);
    UnitSystematic(err, m, k);
    SurvivorRows(e, err, m, k);
    hide UnitMatrix;
    hide UnitInverse;
    hide Survivors;
    hide RowTimes;
    hide Alive;
    forall x | 0 <= x < k ensures RowTimes(UnitInverse(err, k)[x], b, k, k) == Unit(k, x) {
      UnitInverseRow(err, k, x);
      var p := Place(Target(err, k), x);
      SurvivorRow(err, k, p);
      UnitRowTimes(k, p, b);
    }
  }

  lemma UnitSystematic(err: seq<bool>, m: nat, k: nat)
    requires |err| == m && 0 < k <= m && k <= |Alive(err, 0)|
    ensures Systematic(UnitMatrix(err, k), m, k) && IsMat(Survivors(UnitMatrix(err, k), err, k), k, k)
  {
    hide Target;
    hide Place;
    hide Unit;
  }

  lemma UnitInverseRow(err: seq<bool>, k: nat, x: nat)
    requires x < k <= |err|
    ensures UnitInverse(err, k)[x] == Unit(k, Place(Target(err, k), x))
  {
  }

  function Filled(b: Byte, n: nat): (s: seq<Byte>)
    ensures |s| == n
  {
    seq(n, _ => b)
  }

  /** One stripe that is zero but for chunk `x`. */
  function OneChunk(k: nat, x: nat): (data: seq<Byte>)
    requires x < k
    ensures |data| == k * CHUNK
  {
    Filled(ZERO, x * CHUNK) + Filled(ONE, CHUNK) + Filled(ZERO, (k - 1 - x) * CHUNK)
  }

  lemma OneChunkAt(k: nat, x: nat, y: nat)
    requires x < k && y < k
    ensures (y + 1) * CHUNK <= k * CHUNK
    ensures Chunk(OneChunk(k, x), y) == Filled(if y == x then ONE else ZERO, CHUNK)
  {
    if y < x {
      assert (y + 1) * CHUNK <= x * CHUNK;
    } else if y > x {
      assert y * CHUNK >= (x + 1) * CHUNK;
    }
  }

  /** The fragments of that data, the lost ones all zero. */
  function Arrived(err: seq<bool>, k: nat, x: nat): (frags: seq<seq<Byte>>)
    requires 0 < k <= |err| && k <= |Alive(err, 0)| && x < k
    ensures |frags| == |err|
  {
    Received(UnitMatrix(err, k), OneChunk(k, x), k, err, seq(|err|, _ => Filled(ZERO, CHUNK)))
  }

  lemma OneStripe(k: nat, y: nat, data: seq<Byte>)
    requires y < k && |data| == k * CHUNK
    ensures Fragment(Unit(k, y), data, k) == Chunk(data, y)
  {
    UnitCopies(data, k, y);
    assert data[..k * CHUNK] == data;
    assert Fragment(Unit(k, y), data[k * CHUNK..], k) == [];
  }

  /** The fragment that the cut number of the last survivor leads to is all zero. */
  lemma WrongFragment(err: seq<bool>, k: nat)
    requires 0 < k <= |err| && k <= |Alive(err, 0)| && !Straight(err, k) && DataLost(err, k)
    ensures var x, r := Target(err, k)[k - 1], CutIndex(err, k)[k - 1];
            r < |err| && Arrived(err, k, x)[r] == Filled(ZERO, CHUNK)
  {
    hide *;
    var t := Target(err, k);
    var x, r := t[k - 1], CutIndex(err, k)[k - 1];
    NotStraight(err, k);
    var l := CutLands(err, k);
    if !err[r] {
      SurvivorRow(err, k, l);
      OneStripe(k, t[l], OneChunk(k, x));
      OneChunkAt(k, x, t[l]);
    }
    ArrivedAt(err, k, x, r);
  }

  lemma NotStraight(err: seq<bool>, k: nat)
    requires 0 < k <= |Alive(err, 0)| && !Straight(err, k)
    ensures Alive(err, 0)[k - 1] >= BYTE_SPAN
  {
  }

  /** The cut number is that of a fragment before the last survivor; if that one survives, it is another
      of the first k survivors. */
  lemma CutLands(err: seq<bool>, k: nat) returns (l: nat)
    requires 0 < k <= |err| && k <= |Alive(err, 0)| && Alive(err, 0)[k - 1] >= BYTE_SPAN
    ensures var r := CutIndex(err, k)[k - 1];
            r < |err| && (!err[r] ==> l < k - 1 && Alive(err, 0)[l] == r)
  {
    hide *;
    LastCut(err, k);
    var r := CutIndex(err, k)[k - 1];
    l := 0;
    if !err[r] {
      AliveHas(err, r);
      l := Earlier(Alive(err, 0), k - 1, r);
    }
  }

  lemma LastCut(err: seq<bool>, k: nat)
    requires 0 < k <= |Alive(err, 0)| && Alive(err, 0)[k - 1] >= BYTE_SPAN
    ensures CutIndex(err, k)[k - 1] < Alive(err, 0)[k - 1] < |err|
  {
    Smaller(Alive(err, 0)[k - 1]);
  }

  lemma AliveHas(err: seq<bool>, r: nat)
    requires r < |err| && !err[r]
    ensures r in Alive(err, 0) && forall x, y :: 0 <= x < y < |Alive(err, 0)| ==> Alive(err, 0)[x] < Alive(err, 0)[y]
  {
  }

  lemma Earlier(s: seq<nat>, i: nat, r: nat) returns (l: nat)
    requires i < |s| && r in s && r < s[i] && forall x, y :: 0 <= x < y < |s| ==> s[x] < s[y]
    ensures l < i && s[l] == r
  {
    l :| 0 <= l < |s| && s[l] == r;
  }

  lemma Smaller(n: nat)
    ensures n % BYTE_SPAN <= n && (n >= BYTE_SPAN ==> n % BYTE_SPAN < n)
  {
  }

  lemma ArrivedAt(err: seq<bool>, k: nat, x: nat, r: nat)
    requires 0 < k <= |err| && k <= |Alive(err, 0)| && x < k && r < |err|
    ensures Arrived(err, k, x)[r]
         == if err[r] then Filled(ZERO, CHUNK) else Fragment(UnitMatrix(err, k)[r], OneChunk(k, x), k)
  {
    hide Fragment;
    hide UnitMatrix;
    hide OneChunk;
    hide Filled;
  }

  /** The last row of the target is a lost data row. */
  lemma LastIsLost(err: seq<bool>, k: nat)
    requires 0 < k <= |err| && DataLost(err, k)
    ensures err[Target(err, k)[k - 1]]
  {
    var front := err[..k];
    var x :| 0 <= x < k && x < |err| && err[x];
    assert front[x] && x in Erased(front, 0);
  }

  lemma DotChunksUnit(k: nat, p: nat, chunks: seq<seq<Byte>>)
    requires p < k && |chunks| == k && forall j :: 0 <= j < k ==> |chunks[j]| == CHUNK
    ensures DotChunks(Unit(k, p), chunks, k) == chunks[p]
  {
    hide Dot;
    forall b | 0 <= b < CHUNK ensures DotChunks(Unit(k, p), chunks, k)[b] == chunks[p][b] {
      DotUnit(k, p, seq(k, j requires 0 <= j < k => chunks[j][b]), k);
    }
  }

  lemma ArrivedIsUse(err: seq<bool>, m: nat, k: nat, x: nat)
    requires |err| == m && 0 < k <= m && k <= |Alive(err, 0)| && x < k
    ensures Use(UnitMatrix(err, k), UnitInverse(err, k), err, m, k, OneChunk(k, x), Arrived(err, k, x))
  {
    UnitInverts(err, m, k);
    ReceivedSurvive(UnitMatrix(err, k), OneChunk(k, x), k, err, seq(|err|, _ => Filled(ZERO, CHUNK)));
    hide Systematic;
    hide LeftInverse;
    hide Survive;
    hide UnitMatrix;
    hide UnitInverse;
    hide Received;
    assert Whole(k * CHUNK, k);
  }

  lemma {:induction false} FirstChunksAt(inv: Mat, err: seq<bool>, frags: seq<seq<Byte>>, k: nat, n: nat, x: nat)
    requires x < n <= k <= |err| && IsMat(inv, k, k) && k <= |Alive(err, 0)|
    ensures (x + 1) * CHUNK <= n * CHUNK
    ensures Chunk(FirstChunks(inv, err, frags, k, n), x) == FirstChunk(inv, err, frags, k, x)
  {
    hide FirstChunk;
    if x < n - 1 { FirstChunksAt(inv, err, frags, k, n - 1, x); }
  }

  /** As soon as a number is cut and data are lost, some data come out wrong. */
  lemma CutBreaks(err: seq<bool>, m: nat, k: nat)
    requires |err| == m && 0 < k <= m && k <= |Alive(err, 0)| && !Straight(err, k) && DataLost(err, k)
    ensures !Repairs(err, m, k)
  {
    var x := Target(err, k)[k - 1];
    var e, inv, data, frags := UnitMatrix(err, k), UnitInverse(err, k), OneChunk(k, x), Arrived(err, k, x);
    hide *;
    ArrivedIsUse(err, m, k, x);
    WrongChunk(err, m, k);
    OneChunkAt(k, x, x);
    ZeroNotOne();
    FirstDiffers(inv, err, frags, k, x, data);
    Breaks(e, inv, err, m, k, data, frags);
  }

  lemma FirstDiffers(inv: Mat, err: seq<bool>, frags: seq<seq<Byte>>, k: nat, x: nat, data: seq<Byte>)
    requires x < k <= |err| && IsMat(inv, k, k) && k <= |Alive(err, 0)|
    requires |data| == k * CHUNK && (x + 1) * CHUNK <= |data| && Chunk(data, x) != FirstChunk(inv, err, frags, k, x)
    ensures FirstStripe(inv, err, frags, k) != data
  {
    FirstChunksAt(inv, err, frags, k, k, x);
    hide FirstChunk;
    hide FirstChunks;
  }

  lemma Breaks(e: Mat, inv: Mat, err: seq<bool>, m: nat, k: nat, data: seq<Byte>, frags: seq<seq<Byte>>)
    requires |err| == m && 0 < k <= m && k <= |Alive(err, 0)| && Use(e, inv, err, m, k, data, frags)
    requires IsMat(inv, k, k) && |data| == k * CHUNK && FirstStripe(inv, err, frags, k) != data
    ensures !Repairs(err, m, k)
  {
    hide Use;
    hide FirstStripe;
    UseSizes(e, inv, err, m, k, data, frags);
    assert data[..k * CHUNK] == data;
  }

  lemma ZeroNotOne()
    ensures Filled(ZERO, CHUNK) != Filled(ONE, CHUNK)
  {
    assert Filled(ZERO, CHUNK)[0] != Filled(ONE, CHUNK)[0];
  }

  lemma WrongChunk(err: seq<bool>, m: nat, k: nat)
    requires |err| == m && 0 < k <= m && k <= |Alive(err, 0)| && !Straight(err, k) && DataLost(err, k)
    ensures var x := Target(err, k)[k - 1];
            FirstChunk(UnitInverse(err, k), err, Arrived(err, k, x), k, x) == Filled(ZERO, CHUNK)
  {
    hide *;
    var t := Target(err, k);
    var x := t[k - 1];
    var frags := Arrived(err, k, x);
    LastIsLost(err, k);
    PlaceOf(t, k - 1);
    UnitInverseRow(err, k, x);
    DotChunksUnit(k, k - 1, Heads(frags, CutIndex(err, k)));
    WrongFragment(err, k);
    HeadAt(frags, CutIndex(err, k), k - 1);
    LostChunk(UnitInverse(err, k), err, frags, k, x);
  }

  lemma HeadAt(frags: seq<seq<Byte>>, index: seq<nat>, i: nat)
    requires i < |index| && index[i] < |frags| && |frags[index[i]]| == CHUNK
    ensures Heads(frags, index)[i] == frags[index[i]]
  {
    assert frags[index[i]][0..CHUNK] == frags[index[i]];
  }

  lemma LostChunk(inv: Mat, err: seq<bool>, frags: seq<seq<Byte>>, k: nat, x: nat)
    requires x < k <= |err| && IsMat(inv, k, k) && k <= |Alive(err, 0)| && err[x]
    ensures FirstChunk(inv, err, frags, k, x) == DotChunks(inv[x], Heads(frags, CutIndex(err, k)), k)
  {
  }

  /** A loss is repaired, whatever the matrix, the data and the replaced fragments, exactly if no data
      fragment is lost or the numbers of the first k survivors fit a byte. */
  lemma RepairsExactly(err: seq<bool>, m: nat, k: nat)
    requires |err| == m && 0 < k <= m && k <= |Alive(err, 0)|
    ensures Repairs(err, m, k) <==> !DataLost(err, k) || Alive(err, 0)[k - 1] < BYTE_SPAN
  {
    hide Use;
    hide FirstStripe;
    hide Alive;
    hide DataLost;
    if Straight(err, k) || !DataLost(err, k) {
      forall e: Mat, inv: Mat, data: seq<Byte>, frags: seq<seq<Byte>> | Use(e, inv, err, m, k, data, frags)
        ensures |data| >= k * CHUNK && IsMat(inv, k, k) && FirstStripe(inv, err, frags, k) == data[..k * CHUNK] {
        FirstStripeRight(e, inv, err, m, k, data, frags);
      }
    } else {
      CutBreaks(err, m, k);
    }
  }
}
