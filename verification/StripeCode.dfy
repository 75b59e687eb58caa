/** The striped code of mytest/intel-ec-code/gf_vect_dot_prod/test.c:426-669 as functions on bytes. */
module StripeCode {
  import opened Gf256
  import opened Matrix
  import opened DecodeMatrix

  const CHUNK: nat := 512

  /** Byte `b` of each of the k chunks of a stripe. */
  function Column(stripe: seq<Byte>, k: nat, b: nat): (v: Vec)
    requires |stripe| == k * CHUNK && b < CHUNK
    ensures |v| == k
  {
    seq(k, j requires 0 <= j < k => stripe[j * CHUNK + b])
  }

  /** gf_vect_dot_prod on chunks: byte by byte the dot product with `row`. */
  function DotChunks(row: Vec, chunks: seq<seq<Byte>>, k: nat): (v: seq<Byte>)
    requires |row| == k && |chunks| == k && forall j :: 0 <= j < k ==> |chunks[j]| == CHUNK
    ensures |v| == CHUNK
  {
    seq(CHUNK, b requires 0 <= b < CHUNK => Dot(row, seq(k, j requires 0 <= j < k => chunks[j][b]), k))
  }

  /** What one stripe contributes to the fragment of an encode-matrix row. */
  function CodeStripe(row: Vec, stripe: seq<Byte>, k: nat): (v: seq<Byte>)
    requires |row| == k && |stripe| == k * CHUNK
    ensures |v| == CHUNK
  {
    seq(CHUNK, b requires 0 <= b < CHUNK => Dot(row, Column(stripe, k, b), k))
  }

  /** `n` bytes are whole stripes. */
  predicate Whole(n: int, k: nat)
    requires k > 0
    decreases n
  {
    n == 0 || (n >= k * CHUNK && Whole(n - k * CHUNK, k))
  }

  /** The fragment that an encode-matrix row makes of the data. */
  function Fragment(row: Vec, data: seq<Byte>, k: nat): seq<Byte>
    requires |row| == k && k > 0
    decreases |data|
  {
    if |data| < k * CHUNK then [] else CodeStripe(row, data[..k * CHUNK], k) + Fragment(row, data[k * CHUNK..], k)
  }

  function Chunk(data: seq<Byte>, i: nat): (v: seq<Byte>)
    requires (i + 1) * CHUNK <= |data|
    ensures |v| == CHUNK
  {
    data[i * CHUNK..(i + 1) * CHUNK]
  }

  /** A unit row copies its chunk: the code is systematic. */
  lemma UnitCopies(stripe: seq<Byte>, k: nat, e: nat)
    requires |stripe| == k * CHUNK && e < k
    ensures CodeStripe(Unit(k, e), stripe, k) == Chunk(stripe, e)
  {
    hide Dot;
    forall b | 0 <= b < CHUNK ensures CodeStripe(Unit(k, e), stripe, k)[b] == Chunk(stripe, e)[b] {
      DotUnit(k, e, Column(stripe, k, b), k);
    }
  }

  /** What a data fragment holds: chunk `idx` of every stripe, the incomplete last stripe included. */
  function Copied(data: seq<Byte>, k: nat, idx: nat): seq<Byte>
    requires idx < k
    decreases |data|, 1
  {
    if |data| < (idx + 1) * CHUNK then [] else Chunk(data, idx) + CopiedLater(data, k, idx)
  }

  function CopiedLater(data: seq<Byte>, k: nat, idx: nat): seq<Byte>
    requires idx < k
    decreases |data|, 0
  {
    if |data| < k * CHUNK then [] else Copied(data[k * CHUNK..], k, idx)
  }

  /** Place by place: chunk `q` of a data fragment is chunk `idx` of stripe `q`, and it is there just if the
      data reach so far; `first` is the first chunk of that stripe. */
  lemma {:induction false} CopiedAt(data: seq<Byte>, k: nat, idx: nat, q: nat, first: nat)
    requires idx < k && first == q * k
    ensures (first + idx + 1) * CHUNK <= |data| <==> (q + 1) * CHUNK <= |Copied(data, k, idx)|
    ensures (first + idx + 1) * CHUNK <= |data| ==> Chunk(Copied(data, k, idx), q) == Chunk(data, first + idx)
    decreases |data|
  {
    hide Chunk;
    hide Copied;
    if q == 0 {
      assert first == 0;
      CopiedFirst(data, k, idx);
    } else {
      Before(q, k);
      if |data| >= k * CHUNK { CopiedAt(data[k * CHUNK..], k, idx, q - 1, first - k); }
      CopiedNext(data, k, idx, q, first);
    }
  }

  lemma CopiedFirst(data: seq<Byte>, k: nat, idx: nat)
    requires idx < k
    ensures (idx + 1) * CHUNK <= |data| <==> CHUNK <= |Copied(data, k, idx)|
    ensures (idx + 1) * CHUNK <= |data| ==> Chunk(Copied(data, k, idx), 0) == Chunk(data, idx)
  {
  }

  lemma CopiedNext(data: seq<Byte>, k: nat, idx: nat, q: nat, first: nat)
    requires idx < k <= first && q > 0
    requires |data| >= k * CHUNK ==>
               var rest := data[k * CHUNK..];
               && ((first - k + idx + 1) * CHUNK <= |rest| <==> q * CHUNK <= |Copied(rest, k, idx)|)
               && ((first - k + idx + 1) * CHUNK <= |rest| ==>
                     Chunk(Copied(rest, k, idx), q - 1) == Chunk(rest, first - k + idx))
    ensures (first + idx + 1) * CHUNK <= |data| <==> (q + 1) * CHUNK <= |Copied(data, k, idx)|
    ensures (first + idx + 1) * CHUNK <= |data| ==> Chunk(Copied(data, k, idx), q) == Chunk(data, first + idx)
  {
    CopiedCases(data, k, idx);
    hide Chunk;
    hide Copied;
    if (first + idx + 1) * CHUNK <= |data| {
      ChunkLater(Chunk(data, idx), Copied(data[k * CHUNK..], k, idx), q);
      ChunkRest(data, k, first - k + idx);
    }
  }

  /** Both kinds of fragments are whole chunks. */
  lemma {:induction false} WholeChunks(row: Vec, data: seq<Byte>, k: nat, idx: nat)
    requires idx < k == |row|
    ensures |Copied(data, k, idx)| % CHUNK == 0 && |Fragment(row, data, k)| % CHUNK == 0
    decreases |data|
  {
    CopiedCases(data, k, idx);
    hide Copied;
    if |data| >= k * CHUNK { WholeChunks(row, data[k * CHUNK..], k, idx); }
  }

  lemma CopiedCases(data: seq<Byte>, k: nat, idx: nat)
    requires idx < k
    ensures |data| < (idx + 1) * CHUNK ==> Copied(data, k, idx) == []
    ensures (idx + 1) * CHUNK <= |data| < k * CHUNK ==> Copied(data, k, idx) == Chunk(data, idx) + []
    ensures |data| >= k * CHUNK ==> Copied(data, k, idx) == Chunk(data, idx) + Copied(data[k * CHUNK..], k, idx)
  {
  }

  lemma ChunkRest(data: seq<Byte>, k: nat, i: nat)
    requires (k + i + 1) * CHUNK <= |data|
    ensures Chunk(data[k * CHUNK..], i) == Chunk(data, k + i)
  {
  }

  lemma Before(q: nat, k: nat)
    requires q > 0
    ensures q * k == (q - 1) * k + k >= k
  {
  }

  lemma ChunkLater(first: seq<Byte>, later: seq<Byte>, q: nat)
    requires |first| == CHUNK && q > 0 && q * CHUNK <= |later|
    ensures Chunk(first + later, q) == Chunk(later, q - 1)
  {
  }

  /** Any number of stripes is whole. */
  lemma {:induction false} WholeStripes(q: nat, k: nat)
    requires k > 0
    ensures Whole(q * (k * CHUNK), k)
  {
    if q > 0 {
      Before(q, k * CHUNK);
      WholeStripes(q - 1, k);
    }
  }

  /** Chunk `q` of a parity fragment is what stripe `q`, which starts at `base`, gives, and it is there just
      if that stripe is whole. */
  lemma {:induction false} FragmentAt(row: Vec, data: seq<Byte>, k: nat, q: nat, base: nat)
    requires |row| == k && k > 0 && base == q * (k * CHUNK)
    ensures base + k * CHUNK <= |data| <==> (q + 1) * CHUNK <= |Fragment(row, data, k)|
    ensures base + k * CHUNK <= |data| ==>
              Chunk(Fragment(row, data, k), q) == CodeStripe(row, data[base..base + k * CHUNK], k)
    decreases |data|
  {
    hide CodeStripe;
    if q > 0 { Before(q, k * CHUNK); }
    if |data| >= k * CHUNK {
      var rest := data[k * CHUNK..];
      FragmentAt(row, rest, k, if q == 0 then 0 else q - 1, if q == 0 then 0 else base - k * CHUNK);
      if q > 0 && base + k * CHUNK <= |data| {
        ChunkLater(CodeStripe(row, data[..k * CHUNK], k), Fragment(row, rest, k), q);
        Further(data, k * CHUNK, base - k * CHUNK, k * CHUNK);
      }
    }
  }

  lemma Further(data: seq<Byte>, n: nat, at: nat, size: nat)
    requires n + at + size <= |data|
    ensures data[n..][at..at + size] == data[n + at..n + at + size]
  {
  }

  lemma ChunkByte(s: seq<Byte>, q: nat, b: nat)
    requires (q + 1) * CHUNK <= |s| && b < CHUNK
    ensures q * CHUNK + b < |s| && Chunk(s, q)[b] == s[q * CHUNK + b]
  {
  }

  lemma CodeByte(row: Vec, stripe: seq<Byte>, k: nat, b: nat, bytes: Vec)
    requires |row| == k == |bytes| && |stripe| == k * CHUNK && b < CHUNK
    requires forall j :: 0 <= j < k ==> bytes[j] == stripe[j * CHUNK + b]
    ensures CodeStripe(row, stripe, k)[b] == Dot(row, bytes, k)
  {
    hide Dot;
    assert Column(stripe, k, b) == bytes;
  }

  /** Byte by byte: the row times that byte of the chunks of the stripe. */
  lemma FragmentByte(row: Vec, data: seq<Byte>, k: nat, q: nat, b: nat, base: nat, bytes: Vec)
    requires |row| == k == |bytes| && k > 0 && b < CHUNK && base == q * (k * CHUNK) && base + k * CHUNK <= |data|
    requires forall j :: 0 <= j < k ==> bytes[j] == data[base + (j * CHUNK + b)]
    ensures q * CHUNK + b < |Fragment(row, data, k)| && Fragment(row, data, k)[q * CHUNK + b] == Dot(row, bytes, k)
  {
    hide Dot;
    hide Fragment;
    hide CodeStripe;
    hide Chunk;
    hide Column;
    FragmentAt(row, data, k, q, base);
    ChunkByte(Fragment(row, data, k), q, b);
    CodeByte(row, data[base..base + k * CHUNK], k, b, bytes);
  }

  /** Of whole stripes, a data fragment is what the unit row makes. */
  lemma {:induction false} CopiedFragment(data: seq<Byte>, k: nat, idx: nat)
    requires idx < k && Whole(|data|, k)
    ensures Copied(data, k, idx) == Fragment(Unit(k, idx), data, k)
    decreases |data|
  {
    if |data| > 0 {
      UnitCopies(data[..k * CHUNK], k, idx);
      CopiedFragment(data[k * CHUNK..], k, idx);
    }
  }

  /** Coding chunk by chunk is coding the stripe. */
  lemma DotChunksStripe(row: Vec, chunks: seq<seq<Byte>>, stripe: seq<Byte>, k: nat)
    requires |row| == k && |chunks| == k && |stripe| == k * CHUNK
    requires forall j :: 0 <= j < k ==> |chunks[j]| == CHUNK && chunks[j] == Chunk(stripe, j)
    ensures DotChunks(row, chunks, k) == CodeStripe(row, stripe, k)
  {
    hide Dot;
    forall b | 0 <= b < CHUNK ensures DotChunks(row, chunks, k)[b] == CodeStripe(row, stripe, k)[b] {
      assert seq(k, j requires 0 <= j < k => chunks[j][b]) == Column(stripe, k, b);
    }
  }

  /** Decoding one stripe: an inverse row over the surviving chunks gives the erased chunk. */
  lemma DecodeStripe(e: Mat, err: seq<bool>, m: nat, k: nat, inv: Mat, chunks: seq<seq<Byte>>, stripe: seq<Byte>, x: nat)
    requires IsMat(e, m, k) && |err| == m && k <= |Alive(err, 0)|
    requires LeftInverse(inv, Survivors(e, err, k), k) && x < k && |stripe| == k * CHUNK && |chunks| == k
    requires forall i :: 0 <= i < k ==> |chunks[i]| == CHUNK && chunks[i] == CodeStripe(e[Alive(err, 0)[i]], stripe, k)
    ensures DotChunks(inv[x], chunks, k) == Chunk(stripe, x)
  {
    hide Dot;
    var b := Survivors(e, err, k);
    forall y | 0 <= y < CHUNK ensures DotChunks(inv[x], chunks, k)[y] == Chunk(stripe, x)[y] {
      var col := Column(stripe, k, y);
      assert seq(k, j requires 0 <= j < k => chunks[j][y]) == Times(b, col);
      InverseDecodes(inv, b, k, x, col);
    }
  }

  /** An alive data row is among the first k survivors. */
  lemma AliveData(err: seq<bool>, k: nat, x: nat) returns (p: nat)
    requires k <= |Alive(err, 0)| && x < k && x < |err| && !err[x]
    ensures p < k && Alive(err, 0)[p] == x
  {
    var s := Alive(err, 0);
    p :| 0 <= p < |s| && s[p] == x;
    AtLeastIndex(s, p);
  }

  lemma {:induction false} AtLeastIndex(s: seq<nat>, p: nat)
    requires p < |s| && forall i, j :: 0 <= i < j < |s| ==> s[i] < s[j]
    ensures p <= s[p]
  {
    if p > 0 { AtLeastIndex(s, p - 1); }
  }

  /** All fragments are equally long, and k of them are as long as the data. */
  lemma {:induction false} FragmentLength(row: Vec, data: seq<Byte>, k: nat)
    requires |row| == k && k > 0 && Whole(|data|, k)
    ensures |Fragment(row, data, k)| * k == |data|
    decreases |data|
  {
    if |data| > 0 {
      FragmentLength(row, data[k * CHUNK..], k);
    }
  }
}
