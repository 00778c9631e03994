/** The matrix transposes of trans.c.  A has N rows and M columns, B has M rows and N columns;
    only B is ever written. */
module Trans {
  import opened Arithmetic

  type Matrix = array2<int>

  ghost predicate Shapes(A: Matrix, B: Matrix) {
    A != B && B.Length0 == A.Length1 && B.Length1 == A.Length0
  }

  /** The elements of A in rows before i, and those of the next h rows in columns before j, are in place. */
  ghost predicate Done(A: Matrix, B: Matrix, i: int, h: int, j: int)
    requires Shapes(A, B)
    reads A, B
  {
    forall r, c :: 0 <= r < A.Length0 && 0 <= c < A.Length1 && (r < i || (r < i + h && c < j)) ==> B[c, r] == A[r, c]
  }

  /** The elements of A in the given rows and columns are in place. */
  ghost predicate Placed(A: Matrix, B: Matrix, r0: int, r1: int, c0: int, c1: int)
    requires Shapes(A, B) && 0 <= r0 && r1 <= A.Length0 && 0 <= c0 && c1 <= A.Length1
    reads A, B
  {
    forall r, c :: r0 <= r < r1 && c0 <= c < c1 ==> B[c, r] == A[r, c]
  }

  /** is_transpose. */
  method IsTranspose(A: Matrix, B: Matrix) returns (ok: bool)
    requires Shapes(A, B)
    ensures ok <==> forall r, c :: 0 <= r < A.Length0 && 0 <= c < A.Length1 ==> B[c, r] == A[r, c]
  {
    for i := 0 to A.Length0
      invariant Done(A, B, i, 0, 0)
    {
      for j := 0 to A.Length1
        invariant Done(A, B, i, 1, j)
      {
        if A[i, j] != B[j, i] {
          return false;
        }
      }
    }
    return true;
  }

  /** trans: row by row. */
  method Trans(A: Matrix, B: Matrix)
    requires Shapes(A, B)
    modifies B
    ensures forall r, c :: 0 <= r < A.Length0 && 0 <= c < A.Length1 ==> B[c, r] == A[r, c]
  {
    for i := 0 to A.Length0
      invariant Done(A, B, i, 0, 0)
    {
      for j := 0 to A.Length1
        invariant Done(A, B, i, 1, j)
      {
        var tmp := A[i, j];
        B[j, i] := tmp;
      }
    }
  }

  // ---------- trans_32x32 ----------

  /** trans_32x32, for any dimensions that are multiples of the block size: off-diagonal elements
      in the inner loop, the diagonal one after it. */
  method Trans32x32(A: Matrix, B: Matrix)
    requires Shapes(A, B) && A.Length0 % 8 == 0 && A.Length1 % 8 == 0
    modifies B
    ensures forall r, c :: 0 <= r < A.Length0 && 0 <= c < A.Length1 ==> B[c, r] == A[r, c]
  {
    var row := 0;
    while row < A.Length0
      invariant 0 <= row <= A.Length0 && row % 8 == 0
      invariant Done(A, B, row, 0, 0)
    {
      var col := 0;
      while col < A.Length1
        invariant 0 <= col <= A.Length1 && col % 8 == 0
        invariant Done(A, B, row, 8, col)
      {
        Block32x32(A, B, row, col);
        col := col + 8;
      }
      row := row + 8;
    }
  }

  method Block32x32(A: Matrix, B: Matrix, row: int, col: int)
    requires Shapes(A, B) && row % 8 == 0 && col % 8 == 0
    requires 0 <= row && row + 8 <= A.Length0 && 0 <= col && col + 8 <= A.Length1
    requires Done(A, B, row, 8, col)
    modifies B
    ensures Done(A, B, row, 8, col + 8)
  {
    for i := row to row + 8
      invariant Done(A, B, row, 8, col)
      invariant Placed(A, B, row, i, col, col + 8)
    {
      for j := col to col + 8
        invariant Done(A, B, row, 8, col)
        invariant Placed(A, B, row, i, col, col + 8)
        invariant forall c :: col <= c < j && c != i ==> B[c, i] == A[i, c]
      {
        if i != j {
          B[j, i] := A[i, j];
        }
      }
      if row == col {
        B[i, i] := A[i, i];
      }
    }
  }

  // ---------- trans_64x64 ----------

  /** The loops of trans_64x64, with the matrix dimensions for its two constants 64. */
  method TransByEights(A: Matrix, B: Matrix)
    requires Shapes(A, B) && A.Length0 % 8 == 0 && A.Length1 % 8 == 0
    modifies B
    ensures forall r, c :: 0 <= r < A.Length0 && 0 <= c < A.Length1 ==> B[c, r] == A[r, c]
  {
    var i := 0;
    while i < A.Length0
      invariant 0 <= i <= A.Length0 && i % 8 == 0
      invariant Done(A, B, i, 0, 0)
    {
      var j := 0;
      while j < A.Length1
        invariant 0 <= j <= A.Length1 && j % 8 == 0
        invariant Done(A, B, i, 8, j)
      {
        UpperRows(A, B, i, j);
        MiddleSwap(A, B, i, j);
        LowerRight(A, B, i, j);
        j := j + 8;
      }
      i := i + 8;
    }
  }

  ghost predicate BlockAt(A: Matrix, B: Matrix, i: int, j: int) {
    Shapes(A, B) && 0 <= i && i + 8 <= A.Length0 && 0 <= j && j + 8 <= A.Length1
  }

  /** Elements of A are parked in B: four rows above and four columns beyond where they belong. */
  ghost predicate Parked(A: Matrix, B: Matrix, r0: int, r1: int, c0: int, c1: int)
    requires Shapes(A, B) && 0 <= r0 && r1 + 4 <= A.Length0 && 0 <= c0 && c1 + 4 <= A.Length1
    reads A, B
  {
    forall r, c :: r0 + 4 <= r < r1 + 4 && c0 <= c < c1 ==> B[c, r] == A[r - 4, c + 4]
  }

  /** First inner loop. */
  method UpperRows(A: Matrix, B: Matrix, i: int, j: int)
    requires BlockAt(A, B, i, j) && Done(A, B, i, 8, j)
    modifies B
    ensures Done(A, B, i, 8, j)
    ensures Placed(A, B, i, i + 4, j, j + 4) && Parked(A, B, i, i + 4, j, j + 4)
  {
    for k := i to i + 4
      invariant Done(A, B, i, 8, j)
      invariant Placed(A, B, i, k, j, j + 4) && Parked(A, B, i, k, j, j + 4)
    {
      UpperRow(A, B, i, j, k);
    }
  }

  /** Its body: one row of A, half in place, half parked. */
  method UpperRow(A: Matrix, B: Matrix, i: int, j: int, k: int)
    requires BlockAt(A, B, i, j) && i <= k < i + 4
    modifies B
    ensures forall c :: j <= c < j + 4 ==> B[c, k] == A[k, c]
    ensures forall c, r :: r == k + 4 && j <= c < j + 4 ==> B[c, r] == A[k, c + 4]
    ensures forall c, r :: 0 <= c < B.Length0 && 0 <= r < B.Length1 && !(j <= c < j + 4 && (r == k || r == k + 4)) ==>
                             B[c, r] == old(B[c, r])
  {
    var a0, a1, a2, a3 := A[k, j + 0], A[k, j + 1], A[k, j + 2], A[k, j + 3];
    var a4, a5, a6, a7 := A[k, j + 4], A[k, j + 5], A[k, j + 6], A[k, j + 7];
    B[j + 0, k] := a0;
    B[j + 1, k] := a1;
    B[j + 2, k] := a2;
    B[j + 3, k] := a3;
    B[j + 0, k + 4] := a4;
    B[j + 1, k + 4] := a5;
    B[j + 2, k + 4] := a6;
    B[j + 3, k + 4] := a7;
  }

  /** Second inner loop: the parked half moves to the rows of B where it belongs, and A's lower
      left quarter takes its place. */
  method MiddleSwap(A: Matrix, B: Matrix, i: int, j: int)
    requires BlockAt(A, B, i, j) && Done(A, B, i, 8, j)
    requires Placed(A, B, i, i + 4, j, j + 4) && Parked(A, B, i, i + 4, j, j + 4)
    modifies B
    ensures Done(A, B, i, 8, j)
    ensures Placed(A, B, i, i + 8, j, j + 4) && Placed(A, B, i, i + 4, j + 4, j + 8)
  {
    for k := j to j + 4
      invariant Done(A, B, i, 8, j)
      invariant Placed(A, B, i, i + 4, j, j + 4) && Parked(A, B, i, i + 4, k, j + 4)
      invariant Placed(A, B, i + 4, i + 8, j, k) && Placed(A, B, i, i + 4, j + 4, k + 4)
    {
      MiddleRow(A, B, i, j, k);
    }
  }

  /** Its body: one row of B. */
  method MiddleRow(A: Matrix, B: Matrix, i: int, j: int, k: int)
    requires BlockAt(A, B, i, j) && j <= k < j + 4
    modifies B
    ensures forall r :: i + 4 <= r < i + 8 ==> B[k, r] == A[r, k]
    ensures forall c, r :: c == k + 4 && i <= r < i + 4 ==> B[c, r] == old(B[k, r + 4])
    ensures forall c, r :: 0 <= c < B.Length0 && 0 <= r < B.Length1
                           && !(c == k && i + 4 <= r < i + 8) && !(c == k + 4 && i <= r < i + 4) ==>
                             B[c, r] == old(B[c, r])
  {
    var a0, a1, a2, a3 := B[k, i + 4], B[k, i + 5], B[k, i + 6], B[k, i + 7];
    var a4, a5, a6, a7 := A[i + 4, k], A[i + 5, k], A[i + 6, k], A[i + 7, k];
    B[k, i + 4] := a4;
    B[k, i + 5] := a5;
    B[k, i + 6] := a6;
    B[k, i + 7] := a7;
    B[k + 4, i + 0] := a0;
    B[k + 4, i + 1] := a1;
    B[k + 4, i + 2] := a2;
    B[k + 4, i + 3] := a3;
  }

  /** Third inner loop. */
  method LowerRight(A: Matrix, B: Matrix, i: int, j: int)
    requires BlockAt(A, B, i, j) && Done(A, B, i, 8, j)
    requires Placed(A, B, i, i + 8, j, j + 4) && Placed(A, B, i, i + 4, j + 4, j + 8)
    modifies B
    ensures Done(A, B, i, 8, j + 8)
  {
    for k := i + 4 to i + 8
      invariant Done(A, B, i, 8, j)
      invariant Placed(A, B, i, i + 8, j, j + 4) && Placed(A, B, i, i + 4, j + 4, j + 8)
      invariant Placed(A, B, i + 4, k, j + 4, j + 8)
    {
      var a4, a5, a6, a7 := A[k, j + 4], A[k, j + 5], A[k, j + 6], A[k, j + 7];
      B[j + 4, k] := a4;
      B[j + 5, k] := a5;
      B[j + 6, k] := a6;
      B[j + 7, k] := a7;
    }
  }

  // ---------- trans_61x67 ----------

  /** trans_61x67, for any dimensions: blocks of 16, the inner loop unrolled four times. */
  method Trans61x67(A: Matrix, B: Matrix)
    requires Shapes(A, B)
    modifies B
    ensures forall r, c :: 0 <= r < A.Length0 && 0 <= c < A.Length1 ==> B[c, r] == A[r, c]
  {
    var row := 0;
    while row < A.Length0
      invariant 0 <= row
      invariant Done(A, B, row, 0, 0)
    {
      var col := 0;
      while col < A.Length1
        invariant 0 <= col
        invariant Done(A, B, row, 16, col)
      {
        Block61x67(A, B, row, col);
        col := col + 16;
      }
      row := row + 16;
    }
  }

  method Block61x67(A: Matrix, B: Matrix, row: int, col: int)
    requires Shapes(A, B) && 0 <= row < A.Length0 && 0 <= col < A.Length1
    requires Done(A, B, row, 16, col)
    modifies B
    ensures Done(A, B, row, 16, col + 16)
  {
    var i := row;
    while i < row + 16 && i < A.Length0
      invariant row <= i <= Min(row + 16, A.Length0)
      invariant Done(A, B, row, 16, col)
      invariant Placed(A, B, row, i, col, Min(col + 16, A.Length1))
    {
      var j := col;
      while j < col + 16 && j < A.Length1
        invariant col <= j <= col + 16 && (j - col) % 4 == 0
        invariant Done(A, B, row, 16, col)
        invariant Placed(A, B, row, i, col, Min(col + 16, A.Length1))
        invariant Placed(A, B, i, i + 1, col, Min(j, A.Length1))
      {
        FourColumns(A, B, i, j, col);
        j := j + 4;
      }
      i := i + 1;
    }
  }

  /** The unrolled body: up to four columns of row i. */
  method FourColumns(A: Matrix, B: Matrix, i: int, j: int, col: int)
    requires Shapes(A, B) && 0 <= i < A.Length0 && 0 <= col <= j < A.Length1 && j + 4 <= col + 16
    modifies B
    ensures forall c :: j <= c < Min(j + 4, A.Length1) ==> B[c, i] == A[i, c]
    ensures forall c, r :: 0 <= c < B.Length0 && 0 <= r < B.Length1 && !(r == i && j <= c < j + 4) ==>
                             B[c, r] == old(B[c, r])
  {
    B[j, i] := A[i, j];
    if j + 1 < col + 16 && j + 1 < A.Length1 {
      B[j + 1, i] := A[i, j + 1];
    }
    if j + 2 < col + 16 && j + 2 < A.Length1 {
      B[j + 2, i] := A[i, j + 2];
    }
    if j + 3 < col + 16 && j + 3 < A.Length1 {
      B[j + 3, i] := A[i, j + 3];
    }
  }

  // ---------- transpose_submit ----------

  datatype Routine = Use32x32 | Use61x67 | Use64x64 | UseTrans

  /** The switch of transpose_submit, in which a case that does not return falls into the next. */
  function Dispatch(M: nat, N: nat): (r: Routine)
  {
    if M == 32 && N == 32 then Use32x32
    else if (M == 32 || M == 61) && N == 67 then Use61x67
    else if (M == 32 || M == 61 || M == 64) && N == 64 then Use64x64
    else UseTrans
  }

  /** Does every element that the routine reads and writes exist?  trans_64x64 ignores M and N and
      goes through 64 rows and columns. */
  ghost predicate Fits(routine: Routine, M: nat, N: nat) {
    match routine
    case Use64x64 => forall i, j :: 0 <= i < 64 && 0 <= j < 64 ==> InMatrix(i, j, M, N)
    case Use32x32 => M % 8 == 0 && N % 8 == 0
    case Use61x67 => true
    case UseTrans => true
  }

  ghost predicate InMatrix(i: int, j: int, M: nat, N: nat) {
    0 <= i < N && 0 <= j < M
  }

  /** transpose_submit stays inside its matrices except for two shapes, which fall through to
      trans_64x64. */
  lemma SubmitFits(M: nat, N: nat)
    ensures Fits(Dispatch(M, N), M, N) <==> !(N == 64 && (M == 32 || M == 61))
  {
    if N == 64 && (M == 32 || M == 61) {
      assert !InMatrix(0, 63, M, N);
    }
  }

  method TransposeSubmit(A: Matrix, B: Matrix)
    requires Shapes(A, B) && !(A.Length0 == 64 && (A.Length1 == 32 || A.Length1 == 61))
    modifies B
    ensures forall r, c :: 0 <= r < A.Length0 && 0 <= c < A.Length1 ==> B[c, r] == A[r, c]
  {
    var M, N := A.Length1, A.Length0;
    match Dispatch(M, N)
    case Use32x32 => Trans32x32(A, B);
    case Use61x67 => Trans61x67(A, B);
    case Use64x64 => TransByEights(A, B);
    case UseTrans => Trans(A, B);
  }
}
