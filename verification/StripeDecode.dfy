/** ec_dot_prod_gen_decode_matrix and ec_dot_prod_method_decode (gf_vect_dot_prod/test.c:506-669). */
module StripeDecode {
  import opened Arith
  import opened Gf256
  import opened Matrix
  import opened DecodeMatrix
  import opened StripeCode
  import opened StripeCodec
  import opened Wrappers

  /** A pointer into a fragment or into one of the buffers for recovered chunks. */
  datatype Ptr = Frag(row: nat, off: nat) | Temp(slot: nat, off: nat)

  function Advanced(p: Ptr, n: nat): Ptr { p.(off := p.off + n * CHUNK) }

  /** The chunk that a pointer stands at; what lies beyond the end of a buffer counts as zero. */
  function ReadChunk(p: Ptr, frags: seq<seq<Byte>>, temps: seq<seq<Byte>>): (c: seq<Byte>)
    ensures |c| == CHUNK
  {
    var buf := match p
      case Frag(r, _) => if r < |frags| then frags[r] else []
      case Temp(t, _) => if t < |temps| then temps[t] else [];
    if p.off + CHUNK <= |buf| then buf[p.off..p.off + CHUNK] else seq(CHUNK, _ => ZERO)
  }

  /** The surviving fragments, from `off` on, are the fragments of `rest`. */
  predicate Survive(e: Mat, err: seq<bool>, k: nat, frags: seq<seq<Byte>>, off: nat, rest: seq<Byte>)
    requires k > 0 && IsMat(e, |err|, k) && |frags| == |err|
  {
    forall r :: 0 <= r < |err| && !err[r] ==> off <= |frags[r]| && frags[r][off..] == Fragment(e[r], rest, k)
  }

  /** The pointers of the first k survivors all stand at `off`. */
  predicate Aligned(ptr: seq<Ptr>, err: seq<bool>, k: nat, off: nat)
    requires |ptr| == |err| && k <= |Alive(err, 0)|
  {
    forall i :: 0 <= i < k ==> ptr[Alive(err, 0)[i]] == Frag(Alive(err, 0)[i], off)
  }

  const BYTE_SPAN := 256

  /** What decode_index holds: the numbers of the first k survivors, each cut to a byte. */
  function CutIndex(err: seq<bool>, k: nat): (index: seq<nat>)
    requires k <= |Alive(err, 0)|
    ensures |index| == k
  {
    seq(k, i requires 0 <= i < k => Alive(err, 0)[i] % BYTE_SPAN)
  }

  /** Nothing is cut. */
  predicate Straight(err: seq<bool>, k: nat)
    requires k <= |Alive(err, 0)|
  {
    k > 0 ==> Alive(err, 0)[k - 1] < BYTE_SPAN
  }

  lemma StraightIndex(err: seq<bool>, k: nat)
    requires k <= |Alive(err, 0)| && Straight(err, k)
    ensures forall i :: 0 <= i < k ==> CutIndex(err, k)[i] == Alive(err, 0)[i]
  {
    hide Alive;
    CutNone(Alive(err, 0), k);
  }

  lemma CutNone(s: seq<nat>, k: nat)
    requires k <= |s| && (k > 0 ==> s[k - 1] < BYTE_SPAN) && forall i, j :: 0 <= i < j < |s| ==> s[i] < s[j]
    ensures forall i :: 0 <= i < k ==> s[i] % BYTE_SPAN == s[i]
  {
    forall i | 0 <= i < k ensures s[i] % BYTE_SPAN == s[i] {
      assert s[i] <= s[k - 1];
    }
  }

  lemma CutInside(err: seq<bool>, k: nat)
    requires k <= |Alive(err, 0)|
    ensures forall i :: 0 <= i < k ==> CutIndex(err, k)[i] < |err|
  {
  }

  /** test.c:523-559: as in the other program, but the inverse itself is the decode matrix, and its
      rows from k on are zero. */
  method DotGenDecodeMatrix(e: Mat, err: seq<bool>, m: nat, k: nat, inv: Option<Mat>, index: array<nat>)
      returns (ret: int, decode: Mat)
    requires IsMat(e, m, k) && |err| == m && k <= |Alive(err, 0)| && index.Length == m && k <= m
    requires inv.Some? ==> LeftInverse(inv.value, Survivors(e, err, k), k)
    modifies index
    ensures ret < 0 <==> inv.None?
    ensures index[..k] == CutIndex(err, k)
    ensures inv.Some? ==> IsMat(decode, m, k) && decode[..k] == inv.value
  {
    var b := new Byte[k, k]((x, y) => ZERO);
    CollectRows(e, err, m, k, b, index);
    CutAll(index, k);
    match inv
    case None =>
      ret, decode := -1, [];
    case Some(d) =>
      ret, decode := 0, d + seq(m - k, _ => seq(k, _ => ZERO));
  }

  /** Storing the numbers as uint8_t, test.c:540. */
  method CutAll(index: array<nat>, k: nat)
    requires k <= index.Length
    modifies index
    ensures forall i :: 0 <= i < k ==> index[i] == old(index[i]) % BYTE_SPAN
  {
    var i := 0;
    while i < k
      invariant 0 <= i <= k
      invariant forall x :: 0 <= x < i ==> index[x] == old(index[x]) % BYTE_SPAN
      invariant forall x :: i <= x < index.Length ==> index[x] == old(index[x])
    {
      index[i] := index[i] % BYTE_SPAN;
      i := i + 1;
    }
  }

  /** At `off` the surviving fragments hold what `stripe` contributes to them. */
  predicate ReadsStripe(e: Mat, err: seq<bool>, k: nat, frags: seq<seq<Byte>>, off: nat, stripe: seq<Byte>)
    requires IsMat(e, |err|, k) && |frags| == |err| && |stripe| == k * CHUNK
  {
    forall r :: 0 <= r < |err| && !err[r] ==>
      off + CHUNK <= |frags[r]| && frags[r][off..off + CHUNK] == CodeStripe(e[r], stripe, k)
  }

  /** test.c:633-634: the chunks that the indexed pointers stand at. */
  method Gather(k: nat, index: seq<nat>, ptr: array<Ptr>, frags: seq<seq<Byte>>, temps: seq<seq<Byte>>)
      returns (chunks: seq<seq<Byte>>)
    requires |index| == k && forall i :: 0 <= i < k ==> index[i] < ptr.Length
    ensures |chunks| == k && forall i :: 0 <= i < k ==> chunks[i] == ReadChunk(ptr[index[i]], frags, temps)
    ensures forall i :: 0 <= i < k ==> |chunks[i]| == CHUNK
  {
    chunks := [];
    var i := 0;
    while i < k
      invariant 0 <= i <= k && |chunks| == i
      invariant forall x :: 0 <= x < i ==> chunks[x] == ReadChunk(ptr[index[x]], frags, temps)
    {
      chunks := chunks + [ReadChunk(ptr[index[i]], frags, temps)];
      i := i + 1;
    }
  }

  /** The list, one of bytes, names erased fragments only, and every erased data fragment, in any order. */
  predicate Names(errs: seq<nat>, err: seq<bool>, k: nat) {
    && (forall i :: 0 <= i < |errs| ==> errs[i] < |err| && errs[i] < BYTE_SPAN && err[errs[i]])
    && forall x :: 0 <= x < |err| && x < k && err[x] ==> x in errs
  }

  /** The pointer stands at a buffer with what a row of the decode matrix makes of the chunks. */
  predicate Fetched(p: Ptr, temps: seq<seq<Byte>>, row: Vec, chunks: seq<seq<Byte>>, k: nat)
    requires |row| == |chunks| == k && forall i :: 0 <= i < k ==> |chunks[i]| == CHUNK
  {
    p.Temp? && p.off == 0 && p.slot < |temps| && temps[p.slot] == DotChunks(row, chunks, k)
  }

  /** test.c:636-643: every fragment on the list gets its chunk recovered into a buffer. */
  method Recover(err: seq<bool>, errs: seq<nat>, k: nat, decode: Mat, chunks: seq<seq<Byte>>, ptr: array<Ptr>,
                 temps0: seq<seq<Byte>>) returns (temps: seq<seq<Byte>>)
    requires k <= |err| == ptr.Length && IsMat(decode, |err|, k) && |temps0| == |errs| && |chunks| == k
    requires Names(errs, err, k) && forall i :: 0 <= i < k ==> |chunks[i]| == CHUNK
    modifies ptr
    ensures |temps| == |errs|
    ensures forall x :: 0 <= x < k && err[x] ==> Fetched(ptr[x], temps, decode[x], chunks, k)
    ensures forall x :: 0 <= x < |err| && !err[x] ==> ptr[x] == old(ptr[x])
  {
    temps := temps0;
    var i := 0;
    hide DotChunks;
    while i < |errs|
      invariant 0 <= i <= |errs| == |temps|
      invariant forall x :: 0 <= x < |err| && !err[x] ==> ptr[x] == old(ptr[x])
      invariant forall q :: 0 <= q < i ==> Fetched(ptr[errs[q]], temps, decode[errs[q]], chunks, k) && ptr[errs[q]].slot < i
    {
      temps := temps[i := DotChunks(decode[errs[i]], chunks, k)];
      ptr[errs[i]] := Temp(i, 0);
      i := i + 1;
    }
    forall x | 0 <= x < k && err[x] ensures Fetched(ptr[x], temps, decode[x], chunks, k) {
      var q :| 0 <= q < |errs| && errs[q] == x;
    }
  }

  lemma Recovered(e: Mat, err: seq<bool>, m: nat, k: nat, decode: Mat, ptr: seq<Ptr>,
                  frags: seq<seq<Byte>>, temps: seq<seq<Byte>>, chunks: seq<seq<Byte>>, off: nat, stripe: seq<Byte>, x: nat)
    requires 0 < k <= m == |err| == |frags| == |ptr| && IsMat(e, m, k) && IsMat(decode, m, k) && x < k
    requires k <= |Alive(err, 0)| && |stripe| == k * CHUNK && |chunks| == k
    requires LeftInverse(decode[..k], Survivors(e, err, k), k)
    requires Aligned(ptr, err, k, off) && ReadsStripe(e, err, k, frags, off, stripe)
    requires forall i :: 0 <= i < k ==> |chunks[i]| == CHUNK && chunks[i] == frags[Alive(err, 0)[i]][off..off + CHUNK]
    requires err[x] ==> Fetched(ptr[x], temps, decode[x], chunks, k)
    requires e[x] == Unit(k, x)
    ensures ReadChunk(ptr[x], frags, temps) == Chunk(stripe, x)
  {
    hide DotChunks;
    hide CodeStripe;
    hide LeftInverse;
    if err[x] {
      DecodeStripe(e, err, m, k, decode[..k], chunks, stripe, x);
    } else {
      var p := AliveData(err, k, x);
      UnitCopies(stripe, k, x);
    }
  }

  /** The chunks that the first `n` pointers stand at, one after the other. */
  function Put(ptr: seq<Ptr>, frags: seq<seq<Byte>>, temps: seq<seq<Byte>>, n: nat): (s: seq<Byte>)
    requires n <= |ptr|
    ensures |s| == n * CHUNK
  {
    if n == 0 then [] else Put(ptr, frags, temps, n - 1) + ReadChunk(ptr[n - 1], frags, temps)
  }

  lemma {:induction false} PutIsStripe(ptr: seq<Ptr>, frags: seq<seq<Byte>>, temps: seq<seq<Byte>>, n: nat, k: nat,
                                       stripe: seq<Byte>)
    requires n <= k <= |ptr| && |stripe| == k * CHUNK
    requires forall x :: 0 <= x < k ==> ReadChunk(ptr[x], frags, temps) == Chunk(stripe, x)
    ensures Put(ptr, frags, temps, n) == stripe[..n * CHUNK]
  {
    hide ReadChunk;
    if n > 0 {
      PutIsStripe(ptr, frags, temps, n - 1, k, stripe);
      ChunkNext(stripe, n - 1, k);
    }
  }

  /** test.c:645-649: k chunks are put out. */
  method PutStripe(k: nat, ptr: array<Ptr>, frags: seq<seq<Byte>>, temps: seq<seq<Byte>>, out: array<Byte>, outSize0: nat)
      returns (outSize: nat)
    requires k <= ptr.Length && outSize0 + k * CHUNK <= out.Length
    modifies out
    ensures outSize == outSize0 + k * CHUNK && out[..outSize] == old(out[..outSize0]) + Put(ptr[..], frags, temps, k)
  {
    hide ReadChunk;
    outSize := outSize0;
    var i := 0;
    while i < k
      invariant 0 <= i <= k && outSize == outSize0 + i * CHUNK
      invariant out[..outSize] == old(out[..outSize0]) + Put(ptr[..], frags, temps, i)
    {
      Memcpy(out, outSize, ReadChunk(ptr[i], frags, temps));
      outSize := outSize + CHUNK;
      i := i + 1;
    }
  }

  /** How often `r` occurs. */
  function Occurs(index: seq<nat>, r: nat): nat {
    if index == [] then 0 else Occurs(index[..|index| - 1], r) + if index[|index| - 1] == r then 1 else 0
  }

  lemma {:induction false} OccursOnce(index: seq<nat>, r: nat)
    requires forall x, y :: 0 <= x < y < |index| ==> index[x] != index[y]
    ensures Occurs(index, r) == if r in index then 1 else 0
  {
    if index != [] { OccursOnce(index[..|index| - 1], r); }
  }

  /** test.c:651-653: every pointer moves on as often as its number occurs. */
  method MoveOn(index: seq<nat>, ptr: array<Ptr>)
    requires forall x :: 0 <= x < |index| ==> index[x] < ptr.Length
    modifies ptr
    ensures forall r :: 0 <= r < ptr.Length ==> ptr[r] == Advanced(old(ptr[r]), Occurs(index, r))
  {
    var i := 0;
    while i < |index|
      invariant 0 <= i <= |index|
      invariant forall r :: 0 <= r < ptr.Length ==> ptr[r] == Advanced(old(ptr[r]), Occurs(index[..i], r))
    {
      assert index[..i + 1][..i] == index[..i];
      ptr[index[i]] := Advanced(ptr[index[i]], 1);
      i := i + 1;
    }
    assert index[..i] == index;
  }

  lemma AliveApart(err: seq<bool>, k: nat)
    requires k <= |Alive(err, 0)|
    ensures forall x, y :: 0 <= x < y < k ==> Alive(err, 0)[x] != Alive(err, 0)[y]
    ensures forall x :: 0 <= x < k ==> Alive(err, 0)[x] < |err|
  {
  }

  /** With nothing cut, the pointers of the first k survivors move on once. */
  lemma MovedAligned(err: seq<bool>, k: nat, was: seq<Ptr>, now: seq<Ptr>, off: nat)
    requires k <= |Alive(err, 0)| && Straight(err, k) && |was| == |now| == |err| && Aligned(was, err, k, off)
    requires forall r :: 0 <= r < |err| ==> now[r] == Advanced(was[r], Occurs(CutIndex(err, k), r))
    ensures Aligned(now, err, k, off + CHUNK)
  {
    hide Alive;
    hide CutIndex;
    hide Straight;
    hide Advanced;
    hide Occurs;
    StraightIndex(err, k);
    AliveApart(err, k);
    forall i | 0 <= i < k ensures now[Alive(err, 0)[i]] == Frag(Alive(err, 0)[i], off + CHUNK) {
      MovedOne(CutIndex(err, k), i, was[Alive(err, 0)[i]], off);
    }
  }

  lemma MovedOne(index: seq<nat>, i: nat, p: Ptr, off: nat)
    requires i < |index| && p == Frag(index[i], off) && forall x, y :: 0 <= x < y < |index| ==> index[x] != index[y]
    ensures Advanced(p, Occurs(index, index[i])) == Frag(index[i], off + CHUNK)
  {
    OccursOnce(index, index[i]);
  }

  /** The chunks that the indexed fragments begin with. */
  function Heads(frags: seq<seq<Byte>>, index: seq<nat>): (chunks: seq<seq<Byte>>)
    ensures |chunks| == |index| && forall i :: 0 <= i < |chunks| ==> |chunks[i]| == CHUNK
  {
    seq(|index|, i requires 0 <= i < |index| => ReadChunk(Frag(index[i], 0), frags, []))
  }

  /** Chunk `x` of the first stripe that comes out, whatever is cut. */
  function FirstChunk(inv: Mat, err: seq<bool>, frags: seq<seq<Byte>>, k: nat, x: nat): (c: seq<Byte>)
    requires x < k <= |err| && IsMat(inv, k, k) && k <= |Alive(err, 0)|
    ensures |c| == CHUNK
  {
    if err[x] then DotChunks(inv[x], Heads(frags, CutIndex(err, k)), k) else ReadChunk(Frag(x, 0), frags, [])
  }

  function FirstChunks(inv: Mat, err: seq<bool>, frags: seq<seq<Byte>>, k: nat, n: nat): (s: seq<Byte>)
    requires n <= k <= |err| && IsMat(inv, k, k) && k <= |Alive(err, 0)|
    ensures |s| == n * CHUNK
  {
    if n == 0 then [] else FirstChunks(inv, err, frags, k, n - 1) + FirstChunk(inv, err, frags, k, n - 1)
  }

  /** The first stripe that comes out when data fragments are lost. */
  function FirstStripe(inv: Mat, err: seq<bool>, frags: seq<seq<Byte>>, k: nat): (s: seq<Byte>)
    requires k <= |err| && IsMat(inv, k, k) && k <= |Alive(err, 0)|
    ensures |s| == k * CHUNK
  {
    FirstChunks(inv, err, frags, k, k)
  }

  lemma {:induction false} PutIsFirst(ptr: seq<Ptr>, frags: seq<seq<Byte>>, temps: seq<seq<Byte>>, n: nat, k: nat,
                                      inv: Mat, err: seq<bool>)
    requires n <= k <= |err| == |ptr| && IsMat(inv, k, k) && k <= |Alive(err, 0)|
    requires forall x :: 0 <= x < k ==> ReadChunk(ptr[x], frags, temps) == FirstChunk(inv, err, frags, k, x)
    ensures Put(ptr, frags, temps, n) == FirstChunks(inv, err, frags, k, n)
  {
    hide ReadChunk;
    hide FirstChunk;
    if n > 0 { PutIsFirst(ptr, frags, temps, n - 1, k, inv, err); }
  }

  /** What a pass makes of the pointers at the start of the fragments. */
  lemma PassFirst(err: seq<bool>, m: nat, k: nat, decode: Mat, was: seq<Ptr>, ptr: seq<Ptr>, frags: seq<seq<Byte>>,
                  temps0: seq<seq<Byte>>, temps: seq<seq<Byte>>, chunks: seq<seq<Byte>>)
    requires 0 < k <= m == |err| == |was| == |ptr| && IsMat(decode, m, k) && k <= |Alive(err, 0)| && |chunks| == k
    requires forall r :: 0 <= r < m ==> was[r] == Frag(r, 0)
    requires forall i :: 0 <= i < k ==>
               |chunks[i]| == CHUNK && CutIndex(err, k)[i] < m
               && chunks[i] == ReadChunk(was[CutIndex(err, k)[i]], frags, temps0)
    requires forall x :: 0 <= x < k && err[x] ==> Fetched(ptr[x], temps, decode[x], chunks, k)
    requires forall x :: 0 <= x < m && !err[x] ==> ptr[x] == was[x]
    ensures Put(ptr, frags, temps, k) == FirstStripe(decode[..k], err, frags, k)
  {
    hide DotChunks;
    assert forall i :: 0 <= i < k ==> chunks[i] == Heads(frags, CutIndex(err, k))[i];
    assert chunks == Heads(frags, CutIndex(err, k));
    PutIsFirst(ptr, frags, temps, k, k, decode[..k], err);
  }

  lemma GatheredStraight(e: Mat, err: seq<bool>, m: nat, k: nat, was: seq<Ptr>, frags: seq<seq<Byte>>,
                         temps0: seq<seq<Byte>>, chunks: seq<seq<Byte>>, off: nat, stripe: seq<Byte>)
    requires 0 < k <= m == |err| == |frags| == |was| && IsMat(e, m, k)
    requires k <= |Alive(err, 0)| && |stripe| == k * CHUNK && |chunks| == k && Straight(err, k)
    requires Aligned(was, err, k, off) && ReadsStripe(e, err, k, frags, off, stripe)
    requires forall i :: 0 <= i < k ==>
               |chunks[i]| == CHUNK && CutIndex(err, k)[i] < m
               && chunks[i] == ReadChunk(was[CutIndex(err, k)[i]], frags, temps0)
    ensures forall i :: 0 <= i < k ==>
              Alive(err, 0)[i] < m && off + CHUNK <= |frags[Alive(err, 0)[i]]|
              && chunks[i] == frags[Alive(err, 0)[i]][off..off + CHUNK]
  {
    hide CodeStripe;
    hide Alive;
    StraightIndex(err, k);
    hide CutIndex;
  }

  lemma StillAligned(err: seq<bool>, k: nat, was: seq<Ptr>, ptr: seq<Ptr>, off: nat)
    requires k <= |Alive(err, 0)| && |was| == |ptr| == |err| && Aligned(was, err, k, off)
    requires forall x :: 0 <= x < |err| && !err[x] ==> ptr[x] == was[x]
    ensures Aligned(ptr, err, k, off)
  {
    hide Alive;
  }

  /** What a pass makes of aligned pointers, nothing being cut. */
  lemma PassStraight(e: Mat, err: seq<bool>, m: nat, k: nat, decode: Mat, was: seq<Ptr>, ptr: seq<Ptr>,
                     frags: seq<seq<Byte>>, temps0: seq<seq<Byte>>, temps: seq<seq<Byte>>, chunks: seq<seq<Byte>>,
                     off: nat, stripe: seq<Byte>)
    requires 0 < k <= m == |err| == |frags| == |was| == |ptr| && IsMat(e, m, k) && IsMat(decode, m, k)
    requires k <= |Alive(err, 0)| && |stripe| == k * CHUNK && |chunks| == k && Straight(err, k)
    requires LeftInverse(decode[..k], Survivors(e, err, k), k) && forall x :: 0 <= x < k ==> e[x] == Unit(k, x)
    requires Aligned(was, err, k, off) && ReadsStripe(e, err, k, frags, off, stripe)
    requires forall i :: 0 <= i < k ==>
               |chunks[i]| == CHUNK && CutIndex(err, k)[i] < m
               && chunks[i] == ReadChunk(was[CutIndex(err, k)[i]], frags, temps0)
    requires forall x :: 0 <= x < k && err[x] ==> Fetched(ptr[x], temps, decode[x], chunks, k)
    requires forall x :: 0 <= x < m && !err[x] ==> ptr[x] == was[x]
    ensures Put(ptr, frags, temps, k) == stripe && Aligned(ptr, err, k, off)
  {
    hide *;
    GatheredStraight(e, err, m, k, was, frags, temps0, chunks, off, stripe);
    StillAligned(err, k, was, ptr, off);
    forall x | 0 <= x < k ensures ReadChunk(ptr[x], frags, temps) == Chunk(stripe, x) {
      Recovered(e, err, m, k, decode, ptr, frags, temps, chunks, off, stripe, x);
    }
    PutIsStripe(ptr, frags, temps, k, k, stripe);
    assert stripe[..k * CHUNK] == stripe;
  }

  /** One pass of the loop at test.c:632-654. */
  method DecodeStep(e: Mat, err: seq<bool>, errs: seq<nat>, m: nat, k: nat, decode: Mat, index: seq<nat>, ptr: array<Ptr>,
                    frags: seq<seq<Byte>>, temps0: seq<seq<Byte>>, out: array<Byte>, outSize0: nat,
                    ghost off: nat, ghost stripe: seq<Byte>)
      returns (temps: seq<seq<Byte>>, outSize: nat, ghost put: seq<Byte>)
    requires 0 < k <= m == |err| == |frags| == ptr.Length && IsMat(e, m, k) && IsMat(decode, m, k)
    requires Names(errs, err, k) && k <= |Alive(err, 0)| && |temps0| == |errs| && |stripe| == k * CHUNK
    requires LeftInverse(decode[..k], Survivors(e, err, k), k) && forall x :: 0 <= x < k ==> e[x] == Unit(k, x)
    requires index == CutIndex(err, k) && ReadsStripe(e, err, k, frags, off, stripe)
    requires outSize0 + k * CHUNK <= out.Length
    modifies ptr, out
    ensures |temps| == |errs| && |put| == k * CHUNK
    ensures outSize == outSize0 + k * CHUNK && out[..outSize] == old(out[..outSize0]) + put
    ensures Straight(err, k) && Aligned(old(ptr[..]), err, k, off) ==>
              put == stripe && Aligned(ptr[..], err, k, off + CHUNK)
    ensures (forall r :: 0 <= r < m ==> old(ptr[r]) == Frag(r, 0)) && IsMat(decode[..k], k, k) ==>
              put == FirstStripe(decode[..k], err, frags, k)
  {
    hide *;
    CutInside(err, k);
    var chunks := Gather(k, index, ptr, frags, temps0);
    ghost var was := ptr[..];
    temps := Recover(err, errs, k, decode, chunks, ptr, temps0);
    ghost var now := ptr[..];
    put := Put(now, frags, temps, k);
    if Straight(err, k) && Aligned(was, err, k, off) {
      PassStraight(e, err, m, k, decode, was, now, frags, temps0, temps, chunks, off, stripe);
    }
    if forall r :: 0 <= r < m ==> was[r] == Frag(r, 0) {
      PassFirst(err, m, k, decode, was, now, frags, temps0, temps, chunks);
    }
    outSize := PutStripe(k, ptr, frags, temps, out, outSize0);
    MoveOn(index, ptr);
    if Straight(err, k) && Aligned(was, err, k, off) {
      MovedAligned(err, k, now, ptr[..], off);
    }
  }

  /** Survivors of whole stripes start with the first stripe's chunk. */
  lemma SurviveStripe(e: Mat, err: seq<bool>, k: nat, frags: seq<seq<Byte>>, off: nat, rest: seq<Byte>)
    requires k > 0 && IsMat(e, |err|, k) && |frags| == |err| && |rest| >= k * CHUNK
    requires Survive(e, err, k, frags, off, rest)
    ensures ReadsStripe(e, err, k, frags, off, rest[..k * CHUNK])
    ensures Survive(e, err, k, frags, off + CHUNK, rest[k * CHUNK..])
  {
    hide CodeStripe;
    forall r | 0 <= r < |err| && !err[r]
      ensures off + CHUNK <= |frags[r]| && frags[r][off..off + CHUNK] == CodeStripe(e[r], rest[..k * CHUNK], k)
      ensures frags[r][off + CHUNK..] == Fragment(e[r], rest[k * CHUNK..], k)
    {
      var f := frags[r][off..];
      assert f == CodeStripe(e[r], rest[..k * CHUNK], k) + Fragment(e[r], rest[k * CHUNK..], k);
      assert frags[r][off..off + CHUNK] == f[..CHUNK] && frags[r][off + CHUNK..] == f[CHUNK..];
    }
  }

  /** The loop at test.c:632-654.  With nothing cut the data come out; and cut or not, the first stripe
      is `FirstStripe`. */
  method DecodeLoop(e: Mat, err: seq<bool>, errs: seq<nat>, m: nat, k: nat, decode: Mat, index: seq<nat>, ptr: array<Ptr>,
                    frags: seq<seq<Byte>>, size: nat, out: array<Byte>, ghost data: seq<Byte>)
    requires 0 < k <= m == |err| == |frags| == ptr.Length && IsMat(e, m, k) && IsMat(decode, m, k)
    requires Names(errs, err, k) && k <= |Alive(err, 0)| && index == CutIndex(err, k)
    requires LeftInverse(decode[..k], Survivors(e, err, k), k) && forall x :: 0 <= x < k ==> e[x] == Unit(k, x)
    requires (forall r :: 0 <= r < m ==> ptr[r] == Frag(r, 0)) && Survive(e, err, k, frags, 0, data)
    requires |data| == size * k <= out.Length && Whole(|data|, k) && IsMat(decode[..k], k, k)
    modifies ptr, out
    ensures Straight(err, k) ==> out[..size * k] == data
    ensures size > 0 ==> k * CHUNK <= size * k && out[..k * CHUNK] == FirstStripe(decode[..k], err, frags, k)
  {
    hide *;
    MatRows(decode, m, k);
    StartAligned(ptr[..], err, k);
    PiecesStart(data);
    var outSize: nat := 0;
    var temps := seq(|errs|, _ => seq(CHUNK, _ => ZERO));
    ghost var rest, off: nat := data, 0;
    ghost var first := FirstStripe(decode[..k], err, frags, k);
    while outSize < size * k
      invariant outSize <= size * k && |temps| == |errs| && Whole(|rest|, k)
      invariant Survive(e, err, k, frags, off, rest) && |rest| == size * k - outSize
      invariant Straight(err, k) ==> Aligned(ptr[..], err, k, off) && Pieces(data, out[..outSize], rest)
      invariant off == 0 ==> outSize == 0 && forall r :: 0 <= r < m ==> ptr[r] == Frag(r, 0)
      invariant off > 0 ==> k * CHUNK <= outSize && out[..k * CHUNK] == first
      decreases |rest|
    {
      WholeStep(|rest|, k);
      SurviveStripe(e, err, k, frags, off, rest);
      ghost var stripe, before := rest[..k * CHUNK], out[..outSize];
      ghost var put;
      temps, outSize, put := DecodeStep(e, err, errs, m, k, decode, index, ptr, frags, temps, out, outSize, off, stripe);
      Prefix(out[..outSize], before, put, k * CHUNK);
      if Straight(err, k) { PiecesStep(data, before, rest, out[..outSize], k * CHUNK); }
      rest, off := rest[k * CHUNK..], off + CHUNK;
    }
    SomeStripe(size, k, |data|);
    if Straight(err, k) { PiecesEnd(data, out[..outSize], rest); }
  }

  predicate Pieces(data: seq<Byte>, done: seq<Byte>, rest: seq<Byte>) { data == done + rest }

  lemma PiecesStart(data: seq<Byte>)
    ensures Pieces(data, [], data)
  {
  }

  lemma PiecesStep(data: seq<Byte>, before: seq<Byte>, rest: seq<Byte>, now: seq<Byte>, n: nat)
    requires Pieces(data, before, rest) && n <= |rest| && now == before + rest[..n]
    ensures Pieces(data, now, rest[n..])
  {
    assert before + rest == (before + rest[..n]) + rest[n..];
  }

  lemma PiecesEnd(data: seq<Byte>, done: seq<Byte>, rest: seq<Byte>)
    requires Pieces(data, done, rest) && rest == []
    ensures data == done
  {
  }

  lemma MatRows(a: Mat, m: nat, k: nat)
    requires IsMat(a, m, k)
    ensures |a| == m
  {
  }

  lemma StartAligned(ptr: seq<Ptr>, err: seq<bool>, k: nat)
    requires |ptr| == |err| && k <= |Alive(err, 0)| && forall r :: 0 <= r < |ptr| ==> ptr[r] == Frag(r, 0)
    ensures Aligned(ptr, err, k, 0)
  {
  }

  lemma Prefix(now: seq<Byte>, before: seq<Byte>, put: seq<Byte>, n: nat)
    requires now == before + put && |put| == n
    ensures n <= |before| ==> now[..n] == before[..n]
    ensures before == [] ==> now[..n] == put
  {
  }

  lemma SomeStripe(size: nat, k: nat, n: nat)
    requires k > 0 && n == size * k && Whole(n, k)
    ensures size > 0 ==> k * CHUNK <= n && n > 0
  {
  }

  lemma WholeStep(n: nat, k: nat)
    requires k > 0 && Whole(n, k) && n > 0
    ensures n - k * CHUNK < n && n >= k * CHUNK && Whole(n - k * CHUNK, k)
  {
  }

  lemma ChunkNext(stripe: seq<Byte>, i: nat, k: nat)
    requires i < k && |stripe| == k * CHUNK
    ensures (i + 1) * CHUNK <= k * CHUNK && i * CHUNK + CHUNK == (i + 1) * CHUNK
    ensures stripe[..(i + 1) * CHUNK] == stripe[..i * CHUNK] + Chunk(stripe, i)
  {
  }

  /** test.c:595-600: with all data fragments alive a stripe is put together from them. */
  method PlainStep(k: nat, ptr: array<Ptr>, frags: seq<seq<Byte>>, out: array<Byte>, outSize0: nat,
                   ghost off: nat, ghost stripe: seq<Byte>) returns (outSize: nat)
    requires k <= ptr.Length && k <= |frags| && |stripe| == k * CHUNK && outSize0 + k * CHUNK <= out.Length
    requires forall x :: 0 <= x < k ==> ptr[x] == Frag(x, off)
    requires forall x :: 0 <= x < k ==> ReadChunk(Frag(x, off), frags, []) == Chunk(stripe, x)
    modifies ptr, out
    ensures forall x :: 0 <= x < k ==> ptr[x] == Frag(x, off + CHUNK)
    ensures outSize == outSize0 + k * CHUNK && out[..outSize] == old(out[..outSize0]) + stripe
  {
    hide ReadChunk;
    hide Chunk;
    outSize := outSize0;
    var i := 0;
    while i < k
      invariant 0 <= i <= k && outSize == outSize0 + i * CHUNK
      invariant out[..outSize] == old(out[..outSize0]) + stripe[..i * CHUNK]
      invariant forall x :: 0 <= x < k ==> ptr[x] == Frag(x, if x < i then off + CHUNK else off)
    {
      ChunkNext(stripe, i, k);
      Memcpy(out, outSize, ReadChunk(ptr[i], frags, []));
      outSize := outSize + CHUNK;
      ptr[i] := Advanced(ptr[i], 1);
      i := i + 1;
    }
    assert stripe[..k * CHUNK] == stripe;
  }

  /** The loop at test.c:594-601. */
  method PlainLoop(e: Mat, err: seq<bool>, m: nat, k: nat, ptr: array<Ptr>, frags: seq<seq<Byte>>, size: nat,
                   out: array<Byte>, ghost data: seq<Byte>)
    requires 0 < k <= m == |err| == |frags| == ptr.Length && IsMat(e, m, k)
    requires forall x :: 0 <= x < k ==> e[x] == Unit(k, x) && !err[x] && ptr[x] == Frag(x, 0)
    requires Survive(e, err, k, frags, 0, data)
    requires |data| == size * k <= out.Length && Whole(|data|, k)
    modifies ptr, out
    ensures out[..size * k] == data
  {
    hide *;
    var outSize: nat := 0;
    ghost var rest, off: nat := data, 0;
    while outSize < size * k
      invariant outSize <= size * k && Whole(|rest|, k)
      invariant Survive(e, err, k, frags, off, rest) && forall x :: 0 <= x < k ==> ptr[x] == Frag(x, off)
      invariant |rest| == size * k - outSize && data == out[..outSize] + rest
      decreases |rest|
    {
      WholeStep(|rest|, k);
      SurviveStripe(e, err, k, frags, off, rest);
      ghost var stripe, before := rest[..k * CHUNK], out[..outSize];
      DataChunks(e, err, k, frags, off, stripe);
      outSize := PlainStep(k, ptr, frags, out, outSize, off, stripe);
      rest, off := rest[k * CHUNK..], off + CHUNK;
      assert data == (before + stripe) + rest;
    }
  }

  lemma DataChunks(e: Mat, err: seq<bool>, k: nat, frags: seq<seq<Byte>>, off: nat, stripe: seq<Byte>)
    requires 0 < k <= |err| == |frags| && IsMat(e, |err|, k) && |stripe| == k * CHUNK
    requires ReadsStripe(e, err, k, frags, off, stripe) && forall x :: 0 <= x < k ==> !err[x] && e[x] == Unit(k, x)
    ensures forall x :: 0 <= x < k ==> ReadChunk(Frag(x, off), frags, []) == Chunk(stripe, x)
  {
    hide *;
    forall x | 0 <= x < k ensures ReadChunk(Frag(x, off), frags, []) == Chunk(stripe, x) {
      DataChunk(e, err, k, frags, off, stripe, x);
    }
  }

  lemma DataChunk(e: Mat, err: seq<bool>, k: nat, frags: seq<seq<Byte>>, off: nat, stripe: seq<Byte>, x: nat)
    requires k > 0 && IsMat(e, |err|, k) && |frags| == |err| && |stripe| == k * CHUNK
    requires ReadsStripe(e, err, k, frags, off, stripe) && x < k && x < |err| && !err[x] && e[x] == Unit(k, x)
    ensures ReadChunk(Frag(x, off), frags, []) == Chunk(stripe, x)
  {
    UnitCopies(stripe, k, x);
  }

  /** Without erased data rows every data row is alive. */
  lemma NoDataErrors(errs: seq<nat>, err: seq<bool>, k: nat, x: nat)
    requires Names(errs, err, k) && DataErrors(errs, k) == 0 && x < k && x < |err|
    ensures !err[x]
  {
    if err[x] {
      var p :| 0 <= p < |errs| && errs[p] == x;
      SomeDataError(errs, k, p);
    }
  }

  lemma {:induction false} SomeDataError(errs: seq<nat>, k: nat, p: nat)
    requires p < |errs| && errs[p] < k
    ensures DataErrors(errs, k) > 0
  {
    if p < |errs| - 1 { SomeDataError(errs[..|errs| - 1], k, p); }
  }

  /** ec_dot_prod_method_decode, test.c:562-669.  `inv` is what gf_invert_matrix makes of the first k
      surviving rows.  The loss of any fragments that leaves it invertible is repaired, if the numbers of
      the first k survivors fit a byte; in any case the first stripe that comes out is `FirstStripe`. */
  method Decode(e: Mat, size: nat, m: int, k: int, err: seq<bool>, errs: seq<nat>, nerrs: int, nsrcerrs: int,
                frags: seq<seq<Byte>>, inv: Option<Mat>, out: array<Byte>, ghost data: seq<Byte>) returns (ret: int)
    requires m >= 0 && k >= 0 && nerrs >= 0 && nsrcerrs >= 0 ==>
               && Systematic(e, m, k) && |err| == |frags| == m
               && Names(errs, err, k) && nerrs == |errs| && k <= |Alive(err, 0)| && nsrcerrs == DataErrors(errs, k)
               && Survive(e, err, k, frags, 0, data) && |data| == size * k <= out.Length && Whole(|data|, k)
               && (inv.Some? ==> LeftInverse(inv.value, Survivors(e, err, k), k))
    modifies out
    ensures ret == if m < 0 || k < 0 || nerrs < 0 || nsrcerrs < 0 then -EINVAL
                   else if nsrcerrs > 0 && inv.None? then -EIO
                   else 0
    ensures ret == 0 && (nsrcerrs == 0 || Straight(err, k)) ==> out[..size * k] == data
    ensures ret == 0 && nsrcerrs > 0 && size > 0 ==>
              k * CHUNK <= size * k && out[..k * CHUNK] == FirstStripe(inv.value, err, frags, k)
    ensures ret != 0 ==> out[..] == old(out[..])
  {
    if m < 0 || k < 0 || nerrs < 0 || nsrcerrs < 0 {
      return -EINVAL;
    }
    var ptr := new Ptr[m](i => Frag(i, 0));
    if nsrcerrs == 0 {
      forall x | 0 <= x < k ensures !err[x] { NoDataErrors(errs, err, k, x); }
      PlainLoop(e, err, m, k, ptr, frags, size, out, data);
      return 0;
    }
    var index := new nat[m];
    var e1, decode := DotGenDecodeMatrix(e, err, m, k, inv, index);
    if e1 < 0 {
      return -EIO;
    }
    hide Straight;
    hide FirstStripe;
    hide CutIndex;
    hide Survive;
    DecodeLoop(e, err, errs, m, k, decode, index[..k], ptr, frags, size, out, data);
    ret := 0;
  }

  /** One fragment of whole stripes, in a buffer of its own. */
  method EncodeOne(e: Mat, data: seq<Byte>, m: nat, k: nat, idx: nat) returns (frag: seq<Byte>)
    requires Systematic(e, m, k) && idx < m && Whole(|data|, k)
    ensures frag == Fragment(e[idx], data, k)
  {
    FragmentLength(e[idx], data, k);
    DivExact(|Fragment(e[idx], data, k)|, |data|, k);
    var encoded := new Byte[|data| / k];
    if idx < k { CopiedFragment(data, k, idx); }
    hide Fragment;
    hide Copied;
    var err := Encode(e, data, m, k, idx, encoded);
    frag := encoded[..];
    assert frag == encoded[..|Fragment(e[idx], data, k)|];
  }

  /** What arrives: the survivors, and what the lost fragments are replaced by. */
  function Received(e: Mat, data: seq<Byte>, k: nat, err: seq<bool>, lost: seq<seq<Byte>>): (frags: seq<seq<Byte>>)
    requires k > 0 && IsMat(e, |err|, k) && |lost| == |err|
    ensures |frags| == |err|
  {
    seq(|err|, r requires 0 <= r < |err| => if err[r] then lost[r] else Fragment(e[r], data, k))
  }

  lemma ReceivedSurvive(e: Mat, data: seq<Byte>, k: nat, err: seq<bool>, lost: seq<seq<Byte>>)
    requires k > 0 && IsMat(e, |err|, k) && |lost| == |err|
    ensures Survive(e, err, k, Received(e, data, k, err, lost), 0, data)
  {
    hide Fragment;
    var frags := Received(e, data, k, err, lost);
    assert forall r :: 0 <= r < |err| ==> frags[r][0..] == frags[r];
  }

  /** The fragments that survive are encoded, the others replaced. */
  method EncodeSurvivors(e: Mat, data: seq<Byte>, m: nat, k: nat, err: seq<bool>, lost: seq<seq<Byte>>)
      returns (frags: seq<seq<Byte>>)
    requires Systematic(e, m, k) && |err| == |lost| == m && Whole(|data|, k)
    ensures IsMat(e, m, k) && frags == Received(e, data, k, err, lost)
  {
    hide Fragment;
    hide Whole;
    frags := lost;
    var i := 0;
    while i < m
      invariant 0 <= i <= m == |frags|
      invariant forall r :: 0 <= r < i ==> frags[r] == if err[r] then lost[r] else Fragment(e[r], data, k)
      invariant forall r :: i <= r < m ==> frags[r] == lost[r]
    {
      var frag := EncodeOne(e, data, m, k, i);
      if !err[i] { frags := frags[i := frag]; }
      i := i + 1;
    }
  }

  /** test.c:760-798: encode all fragments, lose some, decode.  The data come back, whichever fragments
      are lost and whatever they are replaced by, if k are left, the rows of the first k of them can be
      inverted, and their numbers fit a byte; with no data fragment lost not even that is needed. */
  method EncodeLoseDecode(e: Mat, data: seq<Byte>, m: nat, k: nat, err: seq<bool>, errs: seq<nat>, inv: Option<Mat>,
                          lost: seq<seq<Byte>>) returns (ret: int, data2: seq<Byte>)
    requires Systematic(e, m, k) && |err| == |lost| == m && Whole(|data|, k)
    requires k <= |Alive(err, 0)| && Names(errs, err, k)
    requires inv.Some? ==> LeftInverse(inv.value, Survivors(e, err, k), k)
    ensures DataErrors(errs, k) == 0 || (inv.Some? && Straight(err, k)) ==> ret == 0 && data2 == data
    ensures DataErrors(errs, k) > 0 && inv.None? ==> ret == -EIO
    ensures DataErrors(errs, k) > 0 && inv.Some? && data != [] ==>
              ret == 0 && |data2| == |data| >= k * CHUNK && IsMat(e, m, k)
              && data2[..k * CHUNK] == FirstStripe(inv.value, err, Received(e, data, k, err, lost), k)
  {
    hide Fragment;
    hide Survive;
    hide Survivors;
    hide DataErrors;
    hide Straight;
    hide FirstStripe;
    hide Received;
    hide Names;
    var frags := EncodeSurvivors(e, data, m, k, err, lost);
    ReceivedSurvive(e, data, k, err, lost);
    var size := |data| / k;
    FragmentLength(e[0], data, k);
    DivExact(|Fragment(e[0], data, k)|, |data|, k);
    var out := new Byte[size * k];
    ret := Decode(e, size, m, k, err, errs, |errs|, DataErrors(errs, k), frags, inv, out, data);
    data2 := out[..];
  }
}
