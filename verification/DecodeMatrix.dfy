/** Building a decode matrix: gf_gen_decode_matrix of ec_encode_data/decode_list.c and the row
    selection shared with gf_vect_dot_prod/test.c. */
module DecodeMatrix {
  import opened Gf256
  import opened Matrix
  import opened Wrappers

  /** The rows that are not erased, from `r` on, in increasing order. */
  function Alive(err: seq<bool>, r: nat): (s: seq<nat>)
    requires r <= |err|
    ensures forall i :: 0 <= i < |s| ==> r <= s[i] < |err| && !err[s[i]]
    ensures forall i, j :: 0 <= i < j < |s| ==> s[i] < s[j]
    ensures forall x :: r <= x < |err| && !err[x] ==> x in s
    decreases |err| - r
  {
    if r == |err| then [] else if err[r] then Alive(err, r + 1) else [r] + Alive(err, r + 1)
  }

  /** The erased rows, from `r` on, in increasing order. */
  function Erased(err: seq<bool>, r: nat): (s: seq<nat>)
    requires r <= |err|
    ensures forall i :: 0 <= i < |s| ==> r <= s[i] < |err| && err[s[i]]
    ensures forall i, j :: 0 <= i < j < |s| ==> s[i] < s[j]
    ensures forall x :: r <= x < |err| && err[x] ==> x in s
    ensures |s| + |Alive(err, r)| == |err| - r
    decreases |err| - r
  {
    if r == |err| then [] else if err[r] then [r] + Erased(err, r + 1) else Erased(err, r + 1)
  }

  /** How many erased rows are data rows. */
  function DataErrors(errs: seq<nat>, k: nat): (n: nat)
    ensures n <= |errs|
  {
    if errs == [] then 0 else DataErrors(errs[..|errs| - 1], k) + if errs[|errs| - 1] < k then 1 else 0
  }

  /** In an increasing list the data rows come first. */
  lemma {:induction false} DataFirst(errs: seq<nat>, k: nat, p: nat)
    requires forall i, j :: 0 <= i < j < |errs| ==> errs[i] < errs[j]
    requires p < |errs|
    ensures p < DataErrors(errs, k) <==> errs[p] < k
  {
    var n := |errs| - 1;
    if p < n {
      DataFirst(errs[..n], k, p);
    } else if n > 0 {
      DataFirst(errs[..n], k, n - 1);
      if errs[n] < k { AllData(errs[..n], k); }
    }
  }

  lemma {:induction false} AllData(errs: seq<nat>, k: nat)
    requires forall i :: 0 <= i < |errs| ==> errs[i] < k
    ensures DataErrors(errs, k) == |errs|
  {
    if errs != [] {
      AllData(errs[..|errs| - 1], k);
    }
  }

  /** The encode matrix: m rows of k entries, the first k of them the identity. */
  predicate Systematic(e: Mat, m: nat, k: nat) {
    0 < k <= m && IsMat(e, m, k) && forall i :: 0 <= i < k ==> e[i] == Unit(k, i)
  }

  /** The first `k` surviving rows of the encode matrix. */
  function Survivors(e: Mat, err: seq<bool>, k: nat): (b: Mat)
    requires |err| == |e| && k <= |Alive(err, 0)|
    ensures |b| == k
  {
    seq(k, i requires 0 <= i < k => e[Alive(err, 0)[i]])
  }

  /** decode_list.c:153-154 and test.c:533-536: skip the erased rows. */
  method SkipErased(err: seq<bool>, r0: nat) returns (r: nat)
    requires r0 <= |err| && Alive(err, r0) != []
    ensures r0 <= r < |err| && !err[r] && Alive(err, r0) == [r] + Alive(err, r + 1)
  {
    r := r0;
    while err[r]
      invariant r0 <= r < |err| && Alive(err, r) == Alive(err, r0)
      decreases |err| - r
    {
      r := r + 1;
    }
  }

  /** A matrix held in a two-dimensional array, row by row. */
  function RowOf(a: array2<Byte>, i: nat): (v: Vec)
    requires i < a.Length0
    reads a
    ensures |v| == a.Length1
  {
    seq(a.Length1, j requires 0 <= j < a.Length1 reads a => a[i, j])
  }

  /** decode_list.c:155-158, 195-197 and test.c:537-539: one row is copied. */
  method CopyRow(row: Vec, a: array2<Byte>, i: nat)
    requires i < a.Length0 && |row| == a.Length1
    modifies a
    ensures RowOf(a, i) == row
    ensures forall x :: 0 <= x < a.Length0 && x != i ==> RowOf(a, x) == old(RowOf(a, x))
  {
    var j := 0;
    while j < |row|
      invariant 0 <= j <= |row|
      invariant forall y :: 0 <= y < j ==> a[i, y] == row[y]
      invariant forall x, y :: 0 <= x < a.Length0 && x != i && 0 <= y < |row| ==> a[x, y] == old(a[x, y])
    {
      a[i, j] := row[j];
      j := j + 1;
    }
  }

  /** The first `n` survivors have been collected. */
  ghost predicate Collected(e: Mat, s: seq<nat>, n: nat, k: nat, b: array2<Byte>, index: array<nat>)
    requires n <= |s| && n <= b.Length0 && n <= index.Length && b.Length1 == k
    reads b, index
  {
    forall x :: 0 <= x < n ==> index[x] == s[x] < |e| && RowOf(b, x) == e[s[x]]
  }

  /** One pass of the loops at decode_list.c:152-160 and test.c:532-541: the i-th survivor. */
  method CollectRow(e: Mat, err: seq<bool>, k: nat, r0: nat, i: nat, b: array2<Byte>, index: array<nat>, ghost s: seq<nat>)
      returns (r: nat)
    requires IsMat(e, |err|, k) && r0 <= |err| && i < |s| && s[i..] == Alive(err, r0)
    requires i < b.Length0 && b.Length1 == k && i < index.Length && Collected(e, s, i, k, b, index)
    modifies b, index
    ensures r < |err| && s[i] == r && s[i + 1..] == Alive(err, r + 1)
    ensures Collected(e, s, i + 1, k, b, index)
  {
    r := SkipErased(err, r0);
    TailStep(s, i, r, Alive(err, r + 1));
    hide RowOf;
    hide Alive;
    CopyRow(e[r], b, i);
    index[i] := r;
  }

  lemma TailStep(s: seq<nat>, i: nat, r: nat, rest: seq<nat>)
    requires i < |s| && s[i..] == [r] + rest
    ensures s[i] == r && s[i + 1..] == rest
  {
    assert s[i] == s[i..][0] && s[i + 1..] == s[i..][1..];
  }

  /** Copy the first k surviving rows, note their numbers. */
  method CollectRows(e: Mat, err: seq<bool>, m: nat, k: nat, b: array2<Byte>, index: array<nat>)
    requires IsMat(e, m, k) && |err| == m && k <= |Alive(err, 0)|
    requires b.Length0 >= k && b.Length1 == k && index.Length >= k
    modifies b, index
    ensures forall i :: 0 <= i < k ==> index[i] == Alive(err, 0)[i]
    ensures forall i :: 0 <= i < k ==> RowOf(b, i) == Survivors(e, err, k)[i]
  {
    var i: nat, r: nat := 0, 0;
    ghost var s := Alive(err, 0);
    SurvivorRows(e, err, m, k);
    hide Survivors;
    hide Alive;
    hide RowOf;
    hide IsMat;
    while i < k
      invariant 0 <= i <= k && r <= m && s[i..] == Alive(err, r) && Collected(e, s, i, k, b, index)
    {
      r := CollectRow(e, err, k, r, i, b, index, s);
      i, r := i + 1, r + 1;
    }
  }

  lemma SurvivorRows(e: Mat, err: seq<bool>, m: nat, k: nat)
    requires IsMat(e, m, k) && |err| == m && k <= |Alive(err, 0)|
    ensures forall x :: 0 <= x < k ==> Survivors(e, err, k)[x] == e[Alive(err, 0)[x]]
  {
  }

  const NO_INVERT_MATRIX := -2

  /** Row q, times the surviving rows, is the encode-matrix row of the fragment errs[q]. */
  ghost predicate MakesErased(e: Mat, err: seq<bool>, errs: seq<nat>, m: nat, k: nat, decode: Mat)
    requires IsMat(e, m, k) && |err| == m && k <= |Alive(err, 0)| && |errs| <= |decode|
  {
    forall q :: 0 <= q < |errs| ==>
      errs[q] < m && |decode[q]| == k && RowTimes(decode[q], Survivors(e, err, k), k, k) == e[errs[q]]
  }

  /** The array as a value. */
  function MatOf(a: array2<Byte>): (d: Mat)
    reads a
    ensures IsMat(d, a.Length0, a.Length1)
  {
    seq(a.Length0, i requires 0 <= i < a.Length0 reads a => RowOf(a, i))
  }

  /** gf_gen_decode_matrix, decode_list.c:122-218, for the case that the first attempt at inversion
      decides.  `inv` is what gf_invert_matrix makes of the surviving rows.
      Every row of the decode matrix, times the surviving rows, is the encode-matrix row of an
      erased fragment, be it a data row or a parity row. */
  method GenDecodeMatrix(e: Mat, err: seq<bool>, errs: seq<nat>, nsrcerrs: nat, m: nat, k: nat,
                         inv: Option<Mat>, index: array<nat>, decode: array2<Byte>) returns (ret: int)
    requires Systematic(e, m, k) && |err| == m
    requires errs == Erased(err, 0) && |errs| <= m - k && nsrcerrs == DataErrors(errs, k)
    requires inv.Some? ==> LeftInverse(inv.value, Survivors(e, err, k), k)
    requires inv.None? ==> |errs| == m - k
    requires index.Length == m && decode.Length0 == m && decode.Length1 == k
    modifies index, decode
    ensures inv.None? ==> ret == NO_INVERT_MATRIX
    ensures inv.Some? ==> ret == 0
    ensures forall i :: 0 <= i < k ==> index[i] == Alive(err, 0)[i]
    ensures inv.Some? ==> forall p :: 0 <= p < |errs| ==>
              RowTimes(RowOf(decode, p), Survivors(e, err, k), k, k) == e[errs[p]]
  {
    var b := new Byte[k, k]((x, y) => ZERO);
    CollectRows(e, err, m, k, b, index);
    if inv.None? {
      return NO_INVERT_MATRIX;
    }
    FillDecode(e, errs, nsrcerrs, k, inv.value, decode);
    ghost var rows := Survivors(e, err, k);
    forall q | 0 <= q < |errs| ensures RowTimes(RowOf(decode, q), rows, k, k) == e[errs[q]] {
      if q >= nsrcerrs {
        RowThroughInverse(e[errs[q]], inv.value, rows, k);
      } else {
        DataFirst(errs, k, q);
      }
    }
    ret := 0;
  }

  /** decode_list.c:194-210: inverse rows for erased data, carried-over rows for erased parity. */
  method FillDecode(e: Mat, errs: seq<nat>, nsrcerrs: nat, k: nat, d: Mat, decode: array2<Byte>)
    requires IsMat(e, |e|, k) && IsMat(d, k, k) && decode.Length0 >= |errs| && decode.Length1 == k
    requires forall i, j :: 0 <= i < j < |errs| ==> errs[i] < errs[j]
    requires forall i :: 0 <= i < |errs| ==> errs[i] < |e|
    requires nsrcerrs == DataErrors(errs, k)
    modifies decode
    ensures forall q :: 0 <= q < nsrcerrs ==> errs[q] < k && RowOf(decode, q) == d[errs[q]]
    ensures forall q :: nsrcerrs <= q < |errs| ==> RowOf(decode, q) == RowTimes(e[errs[q]], d, k, k)
  {
    hide RowTimes;
    var i := 0;
    while i < nsrcerrs
      invariant 0 <= i <= nsrcerrs
      invariant forall q :: 0 <= q < i ==> errs[q] < k && RowOf(decode, q) == d[errs[q]]
    {
      DataFirst(errs, k, i);
      CopyRow(d[errs[i]], decode, i);
      i := i + 1;
    }
    var p := nsrcerrs;
    while p < |errs|
      invariant nsrcerrs <= p <= |errs|
      invariant forall q :: 0 <= q < nsrcerrs ==> errs[q] < k && RowOf(decode, q) == d[errs[q]]
      invariant forall q :: nsrcerrs <= q < p ==> RowOf(decode, q) == RowTimes(e[errs[q]], d, k, k)
    {
      ParityRow(e[errs[p]], d, k, decode, p);
      p := p + 1;
    }
  }

  /** decode_list.c:202-209: the encode-matrix row times the inverse, the factors the other way round. */
  method ParityRow(row: Vec, d: Mat, k: nat, decode: array2<Byte>, p: nat)
    requires |row| == k && IsMat(d, k, k) && p < decode.Length0 && decode.Length1 == k
    modifies decode
    ensures RowOf(decode, p) == RowTimes(row, d, k, k)
    ensures forall x :: 0 <= x < decode.Length0 && x != p ==> RowOf(decode, x) == old(RowOf(decode, x))
  {
    var i := 0;
    hide Dot;
    while i < k
      invariant 0 <= i <= k
      invariant forall y :: 0 <= y < i ==> decode[p, y] == RowTimes(row, d, k, k)[y]
      invariant forall x, y :: 0 <= x < decode.Length0 && x != p && 0 <= y < k ==> decode[x, y] == old(decode[x, y])
    {
      var s := ParityEntry(row, d, k, i);
      decode[p, i] := s;
      i := i + 1;
    }
  }

  method ParityEntry(row: Vec, d: Mat, k: nat, i: nat) returns (s: Byte)
    requires |row| == k && IsMat(d, k, k) && i < k
    ensures s == Dot(row, Col(d, i), k)
  {
    var j := 0;
    s := ZERO;
    hide Xor;
    hide GfMul;
    while j < k
      invariant 0 <= j <= k && s == Dot(Col(d, i), row, j)
    {
      s := Xor(s, GfMul(d[j][i], row[j]));
      j := j + 1;
    }
    DotComm(Col(d, i), row, k);
  }

  /** What such a decode matrix is for: applied to the surviving fragments of any column of data it
      gives the erased fragments. */
  lemma DecodesErased(e: Mat, err: seq<bool>, m: nat, k: nat, row: Vec, q: nat, data: Vec)
    requires IsMat(e, m, k) && |err| == m && k <= |Alive(err, 0)| && |data| == k && q < m && |row| == k
    requires RowTimes(row, Survivors(e, err, k), k, k) == e[q]
    ensures Dot(row, Times(Survivors(e, err, k), data), k) == Dot(e[q], data, k)
    ensures forall i :: 0 <= i < k ==> Times(Survivors(e, err, k), data)[i] == Dot(e[Alive(err, 0)[i]], data, k)
  {
    RowTimesAssoc(row, Survivors(e, err, k), data, k);
  }
}
