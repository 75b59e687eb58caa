/** ec_dot_prod_method_encode and ec_dot_prod_method_decode (gf_vect_dot_prod/test.c:432-669). */
module StripeCodec {
  import opened Arith
  import opened Gf256
  import opened Matrix
  import opened StripeCode
  import opened Wrappers

  /** memcpy of one chunk. */
  method Memcpy(out: array<Byte>, at: nat, chunk: seq<Byte>)
    requires at + |chunk| <= out.Length
    modifies out
    ensures out[..at + |chunk|] == old(out[..at]) + chunk
  {
    var i := 0;
    while i < |chunk|
      invariant 0 <= i <= |chunk|
      invariant out[..at] == old(out[..at])
      invariant out[at..at + i] == chunk[..i]
    {
      out[at + i] := chunk[i];
      i := i + 1;
    }
    assert out[..at + |chunk|] == out[..at] + out[at..at + |chunk|];
  }

  /** What is still to be copied before chunk `i`, the j-th of its stripe. */
  ghost function Pending(data: seq<Byte>, k: nat, idx: nat, i: nat, j: nat): seq<Byte>
    requires idx < k && j <= i && (i - j) * CHUNK <= |data|
  {
    var rest := data[(i - j) * CHUNK..];
    if j <= idx then Copied(rest, k, idx) else CopiedLater(rest, k, idx)
  }

  lemma PendingStep(data: seq<Byte>, k: nat, idx: nat, i: nat, j: nat)
    requires idx < k && j < k && j <= i && (i + 1) * CHUNK <= |data|
    ensures Pending(data, k, idx, i, j)
         == (if j == idx then data[i * CHUNK..(i + 1) * CHUNK] else [])
            + Pending(data, k, idx, i + 1, if j + 1 == k then 0 else j + 1)
  {
    var rest := data[(i - j) * CHUNK..];
    if j + 1 == k {
      assert rest[k * CHUNK..] == data[(i + 1) * CHUNK..];
    }
    if j == idx {
      assert data[i * CHUNK..(i + 1) * CHUNK] == Chunk(rest, idx);
      assert Copied(rest, k, idx) == Chunk(rest, idx) + CopiedLater(rest, k, idx);
    }
  }

  lemma Regroup(whole: seq<Byte>, done: seq<Byte>, chunk: seq<Byte>, later: seq<Byte>)
    requires whole == done + (chunk + later)
    ensures whole == (done + chunk) + later && |done| + |chunk| <= |whole|
  {
  }

  /** test.c:453-463: a data fragment collects every k-th chunk. */
  method EncodeData(data: seq<Byte>, k: nat, idx: nat, out: array<Byte>)
    requires idx < k && out.Length >= |Copied(data, k, idx)|
    modifies out
    ensures out[..|Copied(data, k, idx)|] == Copied(data, k, idx)
  {
    ghost var whole := Copied(data, k, idx);
    var count := |data| / CHUNK;
    var i: nat, outSize: nat := 0, 0;
    ghost var j := 0;
    ghost var pending := Pending(data, k, idx, 0, 0);
    assert data[0..] == data;
    assert out[..0] + pending == whole;
    while i < count
      invariant 0 <= i <= count && i % k == j && j <= i
      invariant outSize <= out.Length && pending == Pending(data, k, idx, i, j)
      invariant whole == out[..outSize] + pending
    {
      NextMod(i, k);
      PendingStep(data, k, idx, i, j);
      hide *;
      if i % k == idx {
        var chunk := data[i * CHUNK..(i + 1) * CHUNK];
        ghost var later := Pending(data, k, idx, i + 1, if j + 1 == k then 0 else j + 1);
        Regroup(whole, out[..outSize], chunk, later);
        pending := later;
        Memcpy(out, outSize, chunk);
        outSize := outSize + CHUNK;
      }
      i := i + 1;
      j := if j + 1 == k then 0 else j + 1;
    }
    assert pending == [];
    assert whole == out[..outSize];
  }

  /** test.c:473-497: a parity fragment takes one dot product a stripe.  The pass that finds the k
      pointers set steps `i` back, so that the next stripe starts where this one ended. */
  method EncodeParity(e: Mat, data: seq<Byte>, m: nat, k: nat, idx: nat, out: array<Byte>)
    requires 0 < k <= idx < m && IsMat(e, m, k) && out.Length >= |Fragment(e[idx], data, k)|
    modifies out
    ensures out[..|Fragment(e[idx], data, k)|] == Fragment(e[idx], data, k)
  {
    hide Fragment;
    hide DotChunks;
    hide CodeStripe;
    ghost var row, whole, rest := e[idx], Fragment(e[idx], data, k), data;
    var count := |data| / CHUNK;
    var dataPtr := seq(k, _ => 0);
    var i: nat, j: nat, outSize: nat := 0, 0, 0;
    assert data[0..] == data && out[..0] + whole == whole;
    while i < count + 1
      invariant 0 <= j <= k && j <= i <= count + 1 && i - j <= count
      invariant |dataPtr| == k && forall x :: 0 <= x < j ==> dataPtr[x] == (i - j + x) * CHUNK
      invariant rest == data[(i - j) * CHUNK..]
      invariant outSize <= out.Length && whole == out[..outSize] + Fragment(row, rest, k)
      decreases 2 * (count + 1 - i) + if j == k then 1 else 0
    {
      if j < k {
        dataPtr, j := dataPtr[j := i * CHUNK], j + 1;
      } else {
        i := i - 1;
        outSize := ParityStep(e, data, dataPtr, m, k, idx, out, outSize, i + 1 - k, whole);
        rest := data[(i + 1) * CHUNK..];
        j := 0;
      }
      i := i + 1;
    }
    FragmentNone(row, rest, k);
    assert whole == out[..outSize];
  }

  /** test.c:476-495: k pointers are there, the stripe is coded. */
  method ParityStep(e: Mat, data: seq<Byte>, dataPtr: seq<nat>, m: nat, k: nat, idx: nat, out: array<Byte>, outSize0: nat,
                    ghost base: nat, ghost whole: seq<Byte>) returns (outSize: nat)
    requires 0 < k <= idx < m && IsMat(e, m, k) && |dataPtr| == k && (base + k) * CHUNK <= |data|
    requires forall x :: 0 <= x < k ==> dataPtr[x] == (base + x) * CHUNK
    requires outSize0 <= out.Length && |whole| <= out.Length
    requires whole == out[..outSize0] + Fragment(e[idx], data[base * CHUNK..], k)
    modifies out
    ensures outSize <= out.Length && whole == out[..outSize] + Fragment(e[idx], data[(base + k) * CHUNK..], k)
  {
    hide Fragment;
    hide DotChunks;
    hide CodeStripe;
    var chunks := Chunks(data, dataPtr, k, base);
    ghost var stripe := data[base * CHUNK..][..k * CHUNK];
    ghost var before, later := out[..outSize0], Fragment(e[idx], data[(base + k) * CHUNK..], k);
    DotChunksStripe(e[idx], chunks, stripe, k);
    FragmentStep(e[idx], data, base, k);
    Regroup(whole, before, CodeStripe(e[idx], stripe, k), later);
    outSize := EncodeStripe(e, chunks, stripe, m, k, idx, out, outSize0);
  }

  /** The chunks that the pointers stand at. */
  method Chunks(data: seq<Byte>, dataPtr: seq<nat>, k: nat, ghost base: nat) returns (chunks: seq<seq<Byte>>)
    requires |dataPtr| == k && (base + k) * CHUNK <= |data|
    requires forall x :: 0 <= x < k ==> dataPtr[x] == (base + x) * CHUNK
    ensures |chunks| == k
    ensures forall x :: 0 <= x < k ==> |chunks[x]| == CHUNK && chunks[x] == Chunk(data[base * CHUNK..][..k * CHUNK], x)
  {
    chunks := seq(k, x requires 0 <= x < k => data[dataPtr[x]..dataPtr[x] + CHUNK]);
  }

  lemma FragmentStep(row: Vec, data: seq<Byte>, base: nat, k: nat)
    requires |row| == k && k > 0 && (base + k) * CHUNK <= |data|
    ensures Fragment(row, data[base * CHUNK..], k)
         == CodeStripe(row, data[base * CHUNK..][..k * CHUNK], k) + Fragment(row, data[(base + k) * CHUNK..], k)
  {
    var rest := data[base * CHUNK..];
    assert rest[k * CHUNK..] == data[(base + k) * CHUNK..];
    hide CodeStripe;
  }

  lemma FragmentNone(row: Vec, rest: seq<Byte>, k: nat)
    requires |row| == k && k > 0 && |rest| < k * CHUNK
    ensures Fragment(row, rest, k) == []
  {
  }

  /** test.c:479-493: of the rows k..m only row `idx` gives output. */
  method EncodeStripe(e: Mat, chunks: seq<seq<Byte>>, ghost stripe: seq<Byte>, m: nat, k: nat, idx: nat,
                      out: array<Byte>, outSize0: nat) returns (outSize: nat)
    requires 0 < k <= idx < m && IsMat(e, m, k) && outSize0 + CHUNK <= out.Length && |stripe| == k * CHUNK
    requires |chunks| == k && forall x :: 0 <= x < k ==> |chunks[x]| == CHUNK
    requires DotChunks(e[idx], chunks, k) == CodeStripe(e[idx], stripe, k)
    modifies out
    ensures outSize == outSize0 + CHUNK
    ensures out[..outSize] == old(out[..outSize0]) + CodeStripe(e[idx], stripe, k)
  {
    outSize := outSize0;
    var j := k;
    while j < m
      invariant k <= j <= m && outSize == if j <= idx then outSize0 else outSize0 + CHUNK
      invariant out[..outSize] == old(out[..outSize0]) + if j <= idx then [] else CodeStripe(e[idx], stripe, k)
    {
      ModOf(0, j, m);
      if j % m == idx {
        Memcpy(out, outSize, DotChunks(e[j], chunks, k));
        outSize := outSize + CHUNK;
      }
      j := j + 1;
    }
  }

  /** ec_dot_prod_method_encode, test.c:432-504. */
  method Encode(e: Mat, data: seq<Byte>, m: int, k: int, idx: int, out: array<Byte>) returns (err: int)
    requires k != 0 && (m >= 0 && k > 0 ==> IsMat(e, m, k))
    requires 0 <= idx < k ==> out.Length >= |Copied(data, k, idx)|
    requires 0 < k <= idx < m ==> out.Length >= |Fragment(e[idx], data, k)|
    modifies out
    ensures err == if m < 0 || k < 0 || idx < 0 then -EINVAL else 0
    ensures m >= 0 && 0 <= idx < k ==> out[..|Copied(data, k, idx)|] == Copied(data, k, idx)
    ensures 0 < k <= idx < m ==> out[..|Fragment(e[idx], data, k)|] == Fragment(e[idx], data, k)
    ensures err != 0 || (idx >= k && idx >= m) ==> out[..] == old(out[..])
  {
    err := 0;
    if m < 0 || k < 0 || idx < 0 {
      err := -EINVAL;
    } else if idx < k {
      EncodeData(data, k, idx, out);
    } else if idx < m {
      EncodeParity(e, data, m, k, idx, out);
    }
  }
}
