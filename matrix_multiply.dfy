/** The sequential integer matrix multiplication of
    cpp/practice/parallel_programming/matrix_multiply.cpp, and the division of
    the result's elements into contiguous chunks, one per thread, that the
    parallel version computes before it starts its threads.

    A matrix is a sequence of rows; its number of columns is the length of
    its first row. Entries are mathematical integers: overflow of int
    products is not modelled. */
module MatrixMultiply {

  datatype Option<T> = None | Some(v: T)

  /** What the source relies on when it reads a matrix: it has a first row
      (front() is read), and no row is shorter than the first. */
  predicate Shaped(m: seq<seq<int>>) {
    m != [] && forall i | 0 <= i < |m| :: |m[i]| >= |m[0]|
  }

  function Rows(m: seq<seq<int>>): nat {
    |m|
  }

  function Cols(m: seq<seq<int>>): nat
    requires m != []
  {
    |m[0]|
  }

  /** check_multiply_applicability: the program goes on only when the rows
      of each matrix match the columns of the other. */
  predicate Applicable(m1: seq<seq<int>>, m2: seq<seq<int>>)
    requires m1 != [] && m2 != []
  {
    Rows(m1) == Cols(m2) && Rows(m2) == Cols(m1)
  }

  /** The product needs only the columns of the first to match the rows of
      the second; the check above also asks the rows of the first to match
      the columns of the second, so it refuses shapes whose product is
      defined, such as a 1 by 2 matrix times a 2 by 3 matrix. */
  lemma ApplicabilityIsSquareShaped()
    ensures var m1 := [[1, 2]];
      var m2 := [[1, 2, 3], [4, 5, 6]];
      Shaped(m1) && Shaped(m2) && Cols(m1) == Rows(m2) && !Applicable(m1, m2)
  {
  }

  /** The sum of m1[i][k] * m2[k][j] over k < n. */
  function Dot(m1: seq<seq<int>>, m2: seq<seq<int>>, i: nat, j: nat, n: nat): int
    requires i < |m1| && n <= |m1[i]| && n <= |m2|
    requires forall k | 0 <= k < n :: j < |m2[k]|
  {
    if n == 0 then 0
    else Dot(m1, m2, i, j, n - 1) + m1[i][n - 1] * m2[n - 1][j]
  }

  /** The product as the mathematics defines it: Rows(m1) rows of Cols(m2)
      entries, entry (i, j) the dot product of row i of m1 and column j of
      m2 over Cols(m1) terms. */
  function Product(m1: seq<seq<int>>, m2: seq<seq<int>>): (p: seq<seq<int>>)
    requires Shaped(m1) && Shaped(m2) && Cols(m1) <= Rows(m2)
    ensures |p| == Rows(m1)
    ensures forall i | 0 <= i < |p| :: |p[i]| == Cols(m2)
    ensures forall i, j | 0 <= i < |p| && 0 <= j < Cols(m2) :: p[i][j] == Dot(m1, m2, i, j, Cols(m1))
  {
    seq(Rows(m1), i requires 0 <= i < Rows(m1) =>
      seq(Cols(m2), j requires 0 <= j < Cols(m2) => Dot(m1, m2, i, j, Cols(m1))))
  }

  /** The n by n identity matrix. */
  function Identity(n: nat): (e: seq<seq<int>>)
    ensures |e| == n && forall i | 0 <= i < n :: |e[i]| == n
    ensures forall i, j | 0 <= i < n && 0 <= j < n :: e[i][j] == if i == j then 1 else 0
  {
    seq(n, i requires 0 <= i < n => seq(n, j requires 0 <= j < n => if i == j then 1 else 0))
  }

  /** A dot product with column j of the identity picks out entry j. */
  lemma {:induction false} DotIdentity(m: seq<seq<int>>, i: nat, j: nat, n: nat)
    requires i < |m| && n <= |m[i]| && j < |m[i]|
    ensures var e := Identity(|m[i]|);
      Dot(m, e, i, j, n) == if j < n then m[i][j] else 0
  {
    if n > 0 {
      DotIdentity(m, i, j, n - 1);
    }
  }

  /** Multiplying by the identity on the right gives the matrix back. */
  lemma IdentityIsNeutral(m: seq<seq<int>>)
    requires Shaped(m) && Cols(m) > 0 && forall i | 0 <= i < |m| :: |m[i]| == Cols(m)
    ensures Product(m, Identity(Cols(m))) == m
  {
    var e := Identity(Cols(m));
    var p := Product(m, e);
    forall i | 0 <= i < |m|
      ensures p[i] == m[i]
    {
      forall j | 0 <= j < Cols(m)
        ensures p[i][j] == m[i][j]
      {
        DotIdentity(m, i, j, Cols(m));
      }
    }
  }

  /** sequential_matrixes_multiplication: after the check, a zero matrix of
      Rows(m1) by Cols(m2) accumulates, entry by entry, the products of row i
      of m1 and column j of m2. A failed check ends the program, which is the
      None result here. */
  method SequentialMultiply(m1: seq<seq<int>>, m2: seq<seq<int>>) returns (r: Option<array2<int>>)
    requires Shaped(m1) && Shaped(m2)
    ensures r.None? <==> !Applicable(m1, m2)
    ensures r.Some? ==> fresh(r.v) && r.v.Length0 == Rows(m1) && r.v.Length1 == Cols(m2)
    ensures r.Some? ==> forall i, j | 0 <= i < Rows(m1) && 0 <= j < Cols(m2) ::
      r.v[i, j] == Product(m1, m2)[i][j]
  {
    if !Applicable(m1, m2) {
      return None;
    }
    var rows := |m1|;
    var cols := |m2[0]|;
    var inner := |m1[0]|;
    var res := new int[rows, cols]((i, j) => 0);
    for i := 0 to rows
      invariant forall a, b | 0 <= a < i && 0 <= b < cols :: res[a, b] == Dot(m1, m2, a, b, inner)
      invariant forall a, b | i <= a < rows && 0 <= b < cols :: res[a, b] == 0
    {
      for j := 0 to cols
        invariant forall a, b | 0 <= a < i && 0 <= b < cols :: res[a, b] == Dot(m1, m2, a, b, inner)
        invariant forall b | 0 <= b < j :: res[i, b] == Dot(m1, m2, i, b, inner)
        invariant forall a, b | i <= a < rows && 0 <= b < cols && (a != i || b >= j) :: res[a, b] == 0
      {
        for k := 0 to inner
          invariant forall a, b | 0 <= a < i && 0 <= b < cols :: res[a, b] == Dot(m1, m2, a, b, inner)
          invariant forall b | 0 <= b < j :: res[i, b] == Dot(m1, m2, i, b, inner)
          invariant forall a, b | i <= a < rows && 0 <= b < cols && (a != i || b > j) :: res[a, b] == 0
          invariant res[i, j] == Dot(m1, m2, i, j, k)
        {
          res[i, j] := res[i, j] + m1[i][k] * m2[k][j];
        }
      }
    }
    return Some(res);
  }

  /** The program's own matrices: a 3 by 4 times a 4 by 3 matrix. */
  lemma ProductExample()
    ensures var m1 := [[1, 2, 3, 4], [2, 5, 6, 1], [3, 1, 7, 9]];
      var m2 := [[1, 5, 2], [3, 7, 1], [4, 6, 9], [1, 2, 3]];
      Shaped(m1) && Shaped(m2) && Applicable(m1, m2) &&
      Product(m1, m2) == [[23, 45, 43], [42, 83, 66], [43, 82, 97]]
  {
    var m1 := [[1, 2, 3, 4], [2, 5, 6, 1], [3, 1, 7, 9]];
    var m2 := [[1, 5, 2], [3, 7, 1], [4, 6, 9], [1, 2, 3]];
    var p := Product(m1, m2);
    assert p[0] == [23, 45, 43] by {
      assert Dot(m1, m2, 0, 0, 4) == 23 && Dot(m1, m2, 0, 1, 4) == 45 && Dot(m1, m2, 0, 2, 4) == 43;
    }
    assert p[1] == [42, 83, 66] by {
      assert Dot(m1, m2, 1, 0, 4) == 42 && Dot(m1, m2, 1, 1, 4) == 83 && Dot(m1, m2, 1, 2, 4) == 66;
    }
    assert p[2] == [43, 82, 97] by {
      assert Dot(m1, m2, 2, 0, 4) == 43 && Dot(m1, m2, 2, 1, 4) == 82 && Dot(m1, m2, 2, 2, 4) == 97;
    }
  }

  // ---------------------------------------------------------------------------
  // The chunks of parallel_matrixes_multiplication

  /** Where chunk c starts when elements are dealt to threads: every chunk
      gets the quotient, and the first `elements % threads` chunks one more. */
  function ChunkStart(elements: nat, threads: nat, c: nat): nat
    requires threads >= 1
  {
    c * (elements / threads) + if c < elements % threads then c else elements % threads
  }

  /** The chunks loop: chunks[0] is 0 and each later bound adds the quotient
      to the previous one, plus one while the remainder lasts. The number of
      threads must not be 0, since the source divides by it. */
  method Chunks(elements: nat, threads: nat) returns (chunks: array<nat>)
    requires threads >= 1
    ensures fresh(chunks) && chunks.Length == threads + 1
    ensures forall c | 0 <= c <= threads :: chunks[c] == ChunkStart(elements, threads, c)
  {
    chunks := new nat[threads + 1];
    var chunkSize := elements / threads;
    var remainder := elements % threads;
    ghost var extra := remainder;
    chunks[0] := 0;
    for c := 1 to threads + 1
      invariant forall d {:trigger chunks[d]} | 0 <= d < c :: chunks[d] == Dealt(chunkSize, extra, d)
      invariant remainder == if c - 1 < extra then extra - (c - 1) else 0
    {
      chunks[c] := chunks[c - 1] + chunkSize;
      if remainder > 0 {
        remainder := remainder - 1;
        chunks[c] := chunks[c] + 1;
      }
    }
    forall c | 0 <= c <= threads
      ensures chunks[c] == ChunkStart(elements, threads, c)
    {
      DealtIsChunkStart(elements, threads, c);
    }
  }

  /** The bounds the chunks loop computes, one step at a time: each chunk adds
      `size`, and the first `extra` chunks one more. */
  function Dealt(size: nat, extra: nat, c: nat): nat {
    if c == 0 then 0 else Dealt(size, extra, c - 1) + size + if c - 1 < extra then 1 else 0
  }

  lemma {:induction false} DealtIsChunkStart(elements: nat, threads: nat, c: nat)
    requires threads >= 1
    ensures Dealt(elements / threads, elements % threads, c) == ChunkStart(elements, threads, c)
  {
    if c > 0 {
      DealtIsChunkStart(elements, threads, c - 1);
      NextChunkStart(elements, threads, c - 1);
    }
  }

  /** Each chunk holds the quotient, plus one for exactly the first
      `elements % threads` chunks. */
  lemma NextChunkStart(elements: nat, threads: nat, c: nat)
    requires threads >= 1
    ensures ChunkStart(elements, threads, c + 1) ==
      ChunkStart(elements, threads, c) + elements / threads + if c < elements % threads then 1 else 0
  {
    assert (c + 1) * (elements / threads) == c * (elements / threads) + elements / threads;
  }

  /** The chunks start at 0 and end at the number of elements. */
  lemma ChunkEnds(elements: nat, threads: nat)
    requires threads >= 1
    ensures ChunkStart(elements, threads, 0) == 0
    ensures ChunkStart(elements, threads, threads) == elements
  {
  }

  /** The bounds never decrease. */
  lemma {:induction false} ChunksAscend(elements: nat, threads: nat, c: nat, d: nat)
    requires threads >= 1 && c <= d
    ensures ChunkStart(elements, threads, c) <= ChunkStart(elements, threads, d)
    decreases d - c
  {
    if c < d {
      NextChunkStart(elements, threads, c);
      ChunksAscend(elements, threads, c + 1, d);
    }
  }

  /** Element e falls in chunk c. */
  predicate InChunk(elements: nat, threads: nat, e: nat, c: nat)
    requires threads >= 1
  {
    ChunkStart(elements, threads, c) <= e < ChunkStart(elements, threads, c + 1)
  }

  /** Every element below the bound of chunk n lies in one of the chunks
      before it. */
  lemma {:induction false} ChunkCovers(elements: nat, threads: nat, e: nat, n: nat)
    requires threads >= 1 && e < ChunkStart(elements, threads, n)
    ensures exists c | 0 <= c < n :: InChunk(elements, threads, e, c)
  {
    if n > 0 && e >= ChunkStart(elements, threads, n - 1) {
      assert InChunk(elements, threads, e, n - 1);
    } else if n > 0 {
      ChunkCovers(elements, threads, e, n - 1);
    }
  }

  /** No element falls in two chunks. */
  lemma ChunkUnique(elements: nat, threads: nat, e: nat, c: nat, d: nat)
    requires threads >= 1 && InChunk(elements, threads, e, c) && InChunk(elements, threads, e, d)
    ensures c == d
  {
    if c < d {
      ChunksAscend(elements, threads, c + 1, d);
    } else if d < c {
      ChunksAscend(elements, threads, d + 1, c);
    }
  }

  /** The chunks partition the elements: each element index below
      elements_num falls in one chunk, and in no other. */
  lemma ChunksPartition(elements: nat, threads: nat, e: nat)
    requires threads >= 1 && e < elements
    ensures exists c | 0 <= c < threads :: InChunk(elements, threads, e, c)
    ensures forall c, d | InChunk(elements, threads, e, c) && InChunk(elements, threads, e, d) :: c == d
  {
    ChunkEnds(elements, threads);
    ChunkCovers(elements, threads, e, threads);
    forall c, d | InChunk(elements, threads, e, c) && InChunk(elements, threads, e, d)
      ensures c == d
    {
      ChunkUnique(elements, threads, e, c, d);
    }
  }

  /** Ten elements over four threads: chunks of 3, 3, 2 and 2. */
  method ChunksExample() returns (bounds: seq<nat>)
    ensures bounds == [0, 3, 6, 8, 10]
  {
    var chunks := Chunks(10, 4);
    bounds := chunks[..];
    assert bounds == [chunks[0], chunks[1], chunks[2], chunks[3], chunks[4]];
  }
}
