/** The 3x3 linear algebra of src/intersection.cpp (cofactors, transpose, inverse,
    matrix-vector product) and the triangle/segment intersection built on it. */
module Intersection {
  import opened Wrappers
  import opened Geometry
  import opened Primitives
  import Tolerance

  /** `std::array<glm::vec3, 3>`: three columns. */
  datatype Mat3 = Mat3(c0: Vec3, c1: Vec3, c2: Vec3) {
    /** `columns.Col(j)`. */
    function Col(j: nat): Vec3
      requires j < 3
    {
      if j == 0 then c0 else if j == 1 then c1 else c2
    }
  }

  /** The entry in row `i` and column `j`, `columns.Col(j)[i]`. */
  function Entry(m: Mat3, i: nat, j: nat): real
    requires i < 3 && j < 3
  {
    m.Col(j).Get(i)
  }

  /** `sign_table`. */
  const SignTable: seq<seq<real>> := [[1.0, -1.0, 1.0], [-1.0, 1.0, -1.0], [1.0, -1.0, 1.0]]

  /** The sign table is the checkerboard `(-1)^(r + c)`. */
  lemma SignTableIsCheckerboard(r: nat, c: nat)
    requires r < 3 && c < 3
    ensures SignTable[r][c] == if (r + c) % 2 == 0 then 1.0 else -1.0
  {
  }

  /** The `a`-th (0 or 1) index of `{0, 1, 2}` other than `k`, in increasing order. */
  function Skip(k: nat, a: nat): (r: nat)
    requires k < 3 && a < 2
    ensures r < 3 && r != k
    ensures a == 1 ==> Skip(k, 0) < r
  {
    if a < k then a else a + 1
  }

  /** The cofactor of row `r`, column `c`: the signed determinant of the 2x2 minor that
      leaves out row `r` and column `c`. */
  function Cofactor(m: Mat3, r: nat, c: nat): real
    requires r < 3 && c < 3
  {
    var r0, r1, c0, c1 := Skip(r, 0), Skip(r, 1), Skip(c, 0), Skip(c, 1);
    SignTable[r][c] * (Entry(m, r0, c0) * Entry(m, r1, c1) - Entry(m, r0, c1) * Entry(m, r1, c0))
  }

  /** `calc_cofactor(columns, row, column)`: fills the 2x2 minor row by row with the
      `minor_row`/`minor_column` counters, then applies the sign. */
  method CalcCofactor(columns: Mat3, row: nat, column: nat) returns (r: real)
    requires row < 3 && column < 3
    ensures r == Cofactor(columns, row, column)
  {
    var minorRow := 0;
    var minorColumn := 0;
    var minor := new real[2, 2];
    for i := 0 to 3
      invariant minorRow == if i <= row then i else i - 1
      invariant minorColumn == 0
      invariant forall a, b :: 0 <= a < minorRow && 0 <= b < 2 ==>
                  minor[a, b] == Entry(columns, Skip(row, a), Skip(column, b))
    {
      if i == row {
        continue;
      }
      for j := 0 to 3
        invariant minorColumn == if j <= column then j else j - 1
        invariant forall a, b :: 0 <= a < minorRow && 0 <= b < 2 ==>
                    minor[a, b] == Entry(columns, Skip(row, a), Skip(column, b))
        invariant forall b :: 0 <= b < minorColumn ==>
                    minor[minorRow, b] == Entry(columns, i, Skip(column, b))
      {
        if j == column {
          continue;
        }
        minor[minorRow, minorColumn] := columns.Col(j).Get(i);
        minorColumn := minorColumn + 1;
      }
      minorColumn := 0;
      minorRow := minorRow + 1;
    }
    r := SignTable[row][column] * (minor[0, 0] * minor[1, 1] - minor[0, 1] * minor[1, 0]);
  }

  /** Column `c` of the cofactor matrix. */
  function CofactorColumn(m: Mat3, c: nat): Vec3
    requires c < 3
  {
    Vec3(Cofactor(m, 0, c), Cofactor(m, 1, c), Cofactor(m, 2, c))
  }

  /** `calc_cofactor_column(columns, column)`. */
  method CalcCofactorColumn(columns: Mat3, column: nat) returns (v: Vec3)
    requires column < 3
    ensures v == CofactorColumn(columns, column)
  {
    var c0 := CalcCofactor(columns, 0, column);
    var c1 := CalcCofactor(columns, 1, column);
    var c2 := CalcCofactor(columns, 2, column);
    v := Vec3(c0, c1, c2);
  }

  /** The transposed matrix. */
  function TransposeOf(m: Mat3): (t: Mat3)
    ensures forall i, j :: 0 <= i < 3 && 0 <= j < 3 ==> Entry(t, i, j) == Entry(m, j, i)
  {
    Mat3(Vec3(m.c0.x, m.c1.x, m.c2.x), Vec3(m.c0.y, m.c1.y, m.c2.y), Vec3(m.c0.z, m.c1.z, m.c2.z))
  }

  /** Transposing twice gives the matrix back. */
  lemma TransposeInvolution(m: Mat3)
    ensures TransposeOf(TransposeOf(m)) == m
  {
    var t := TransposeOf(TransposeOf(m));
    forall j | 0 <= j < 3
      ensures t.Col(j) == m.Col(j)
    {
      assert Entry(t, 0, j) == Entry(m, 0, j);
      assert Entry(t, 1, j) == Entry(m, 1, j);
      assert Entry(t, 2, j) == Entry(m, 2, j);
    }
  }

  /** `transpose(matrix)`: copies the matrix and swaps `[i][j]` with `[j][i]` for
      `i < j`, in place on the copy. */
  method Transpose(matrix: Mat3) returns (t: Mat3)
    ensures t == TransposeOf(matrix)
  {
    // result[i][j] is component j of column i
    var result := new real[3, 3];
    for i := 0 to 3
      invariant forall p, q :: 0 <= p < i && 0 <= q < 3 ==> result[p, q] == Entry(matrix, q, p)
    {
      for j := 0 to 3
        invariant forall p, q :: 0 <= p < i && 0 <= q < 3 ==> result[p, q] == Entry(matrix, q, p)
        invariant forall q :: 0 <= q < j ==> result[i, q] == Entry(matrix, q, i)
      {
        result[i, j] := matrix.Col(i).Get(j);
      }
    }
    for i := 0 to 2
      invariant forall p, q :: 0 <= p < 3 && 0 <= q < 3 ==>
                  result[p, q] == if p < i || q < i then Entry(matrix, p, q) else Entry(matrix, q, p)
    {
      for j := i + 1 to 3
        invariant forall p, q :: 0 <= p < 3 && 0 <= q < 3 ==>
                    result[p, q] == if p < i || q < i || (p == i && i < q < j) || (q == i && i < p < j)
                                    then Entry(matrix, p, q) else Entry(matrix, q, p)
      {
        result[i, j], result[j, i] := result[j, i], result[i, j];
      }
    }
    t := Mat3(Vec3(result[0, 0], result[0, 1], result[0, 2]),
              Vec3(result[1, 0], result[1, 1], result[1, 2]),
              Vec3(result[2, 0], result[2, 1], result[2, 2]));
    assert forall p, q :: 0 <= p < 3 && 0 <= q < 3 ==> Entry(t, q, p) == result[p, q];
  }

  /** The determinant, as the triple product of the columns. */
  function Det(m: Mat3): real {
    Dot(m.c0, Cross(m.c1, m.c2))
  }

  /** The nine cofactors as polynomials in the entries. */
  lemma CofactorsExplicit(m: Mat3)
    ensures
      && Cofactor(m, 0, 0) == m.c1.y * m.c2.z - m.c2.y * m.c1.z
      && Cofactor(m, 0, 1) == -(m.c0.y * m.c2.z - m.c2.y * m.c0.z)
      && Cofactor(m, 0, 2) == m.c0.y * m.c1.z - m.c1.y * m.c0.z
      && Cofactor(m, 1, 0) == -(m.c1.x * m.c2.z - m.c2.x * m.c1.z)
      && Cofactor(m, 1, 1) == m.c0.x * m.c2.z - m.c2.x * m.c0.z
      && Cofactor(m, 1, 2) == -(m.c0.x * m.c1.z - m.c1.x * m.c0.z)
      && Cofactor(m, 2, 0) == m.c1.x * m.c2.y - m.c2.x * m.c1.y
      && Cofactor(m, 2, 1) == -(m.c0.x * m.c2.y - m.c2.x * m.c0.y)
      && Cofactor(m, 2, 2) == m.c0.x * m.c1.y - m.c1.x * m.c0.y
  {
  }

  lemma ScalarAdjugateRight0(m00: real, m01: real, m02: real, m10: real, m11: real, m12: real, m20: real, m21: real, m22: real,
                            c00: real, c01: real, c02: real, c10: real, c11: real, c12: real, c20: real, c21: real, c22: real, d: real)
    requires c00 == m11 * m22 - m12 * m21
    requires c01 == -(m10 * m22 - m12 * m20)
    requires c02 == m10 * m21 - m11 * m20
    requires c10 == -(m01 * m22 - m02 * m21)
    requires c11 == m00 * m22 - m02 * m20
    requires c12 == -(m00 * m21 - m01 * m20)
    requires c20 == m01 * m12 - m02 * m11
    requires c21 == -(m00 * m12 - m02 * m10)
    requires c22 == m00 * m11 - m01 * m10
    requires d == m00 * c00 + m10 * c10 + m20 * c20
    ensures m00 * c00 + m01 * c01 + m02 * c02 == d
    ensures m00 * c10 + m01 * c11 + m02 * c12 == 0.0
    ensures m00 * c20 + m01 * c21 + m02 * c22 == 0.0
  {
  }

  lemma ScalarAdjugateRight1(m00: real, m01: real, m02: real, m10: real, m11: real, m12: real, m20: real, m21: real, m22: real,
                            c00: real, c01: real, c02: real, c10: real, c11: real, c12: real, c20: real, c21: real, c22: real, d: real)
    requires c00 == m11 * m22 - m12 * m21
    requires c01 == -(m10 * m22 - m12 * m20)
    requires c02 == m10 * m21 - m11 * m20
    requires c10 == -(m01 * m22 - m02 * m21)
    requires c11 == m00 * m22 - m02 * m20
    requires c12 == -(m00 * m21 - m01 * m20)
    requires c20 == m01 * m12 - m02 * m11
    requires c21 == -(m00 * m12 - m02 * m10)
    requires c22 == m00 * m11 - m01 * m10
    requires d == m00 * c00 + m10 * c10 + m20 * c20
    ensures m10 * c00 + m11 * c01 + m12 * c02 == 0.0
    ensures m10 * c10 + m11 * c11 + m12 * c12 == d
    ensures m10 * c20 + m11 * c21 + m12 * c22 == 0.0
  {
  }

  lemma ScalarAdjugateRight2(m00: real, m01: real, m02: real, m10: real, m11: real, m12: real, m20: real, m21: real, m22: real,
                            c00: real, c01: real, c02: real, c10: real, c11: real, c12: real, c20: real, c21: real, c22: real, d: real)
    requires c00 == m11 * m22 - m12 * m21
    requires c01 == -(m10 * m22 - m12 * m20)
    requires c02 == m10 * m21 - m11 * m20
    requires c10 == -(m01 * m22 - m02 * m21)
    requires c11 == m00 * m22 - m02 * m20
    requires c12 == -(m00 * m21 - m01 * m20)
    requires c20 == m01 * m12 - m02 * m11
    requires c21 == -(m00 * m12 - m02 * m10)
    requires c22 == m00 * m11 - m01 * m10
    requires d == m00 * c00 + m10 * c10 + m20 * c20
    ensures m20 * c00 + m21 * c01 + m22 * c02 == 0.0
    ensures m20 * c10 + m21 * c11 + m22 * c12 == 0.0
    ensures m20 * c20 + m21 * c21 + m22 * c22 == d
  {
  }

  /** Row `k` of the matrix against row `j` of the cofactors: `det` when `k == j`, else 0,
      i.e. the matrix times its adjugate is `det * I`. */
  lemma ScalarAdjugateRight(m00: real, m01: real, m02: real, m10: real, m11: real, m12: real, m20: real, m21: real, m22: real,
                            c00: real, c01: real, c02: real, c10: real, c11: real, c12: real, c20: real, c21: real, c22: real, d: real)
    requires c00 == m11 * m22 - m12 * m21
    requires c01 == -(m10 * m22 - m12 * m20)
    requires c02 == m10 * m21 - m11 * m20
    requires c10 == -(m01 * m22 - m02 * m21)
    requires c11 == m00 * m22 - m02 * m20
    requires c12 == -(m00 * m21 - m01 * m20)
    requires c20 == m01 * m12 - m02 * m11
    requires c21 == -(m00 * m12 - m02 * m10)
    requires c22 == m00 * m11 - m01 * m10
    requires d == m00 * c00 + m10 * c10 + m20 * c20
    ensures m00 * c00 + m01 * c01 + m02 * c02 == d
    ensures m00 * c10 + m01 * c11 + m02 * c12 == 0.0
    ensures m00 * c20 + m01 * c21 + m02 * c22 == 0.0
    ensures m10 * c00 + m11 * c01 + m12 * c02 == 0.0
    ensures m10 * c10 + m11 * c11 + m12 * c12 == d
    ensures m10 * c20 + m11 * c21 + m12 * c22 == 0.0
    ensures m20 * c00 + m21 * c01 + m22 * c02 == 0.0
    ensures m20 * c10 + m21 * c11 + m22 * c12 == 0.0
    ensures m20 * c20 + m21 * c21 + m22 * c22 == d
  {
    ScalarAdjugateRight0(m00, m01, m02, m10, m11, m12, m20, m21, m22, c00, c01, c02, c10, c11, c12, c20, c21, c22, d);
    ScalarAdjugateRight1(m00, m01, m02, m10, m11, m12, m20, m21, m22, c00, c01, c02, c10, c11, c12, c20, c21, c22, d);
    ScalarAdjugateRight2(m00, m01, m02, m10, m11, m12, m20, m21, m22, c00, c01, c02, c10, c11, c12, c20, c21, c22, d);
  }

  lemma ScalarAdjugateLeft0(m00: real, m01: real, m02: real, m10: real, m11: real, m12: real, m20: real, m21: real, m22: real,
                            c00: real, c01: real, c02: real, c10: real, c11: real, c12: real, c20: real, c21: real, c22: real, d: real)
    requires c00 == m11 * m22 - m12 * m21
    requires c01 == -(m10 * m22 - m12 * m20)
    requires c02 == m10 * m21 - m11 * m20
    requires c10 == -(m01 * m22 - m02 * m21)
    requires c11 == m00 * m22 - m02 * m20
    requires c12 == -(m00 * m21 - m01 * m20)
    requires c20 == m01 * m12 - m02 * m11
    requires c21 == -(m00 * m12 - m02 * m10)
    requires c22 == m00 * m11 - m01 * m10
    requires d == m00 * c00 + m10 * c10 + m20 * c20
    ensures c00 * m00 + c10 * m10 + c20 * m20 == d
    ensures c00 * m01 + c10 * m11 + c20 * m21 == 0.0
    ensures c00 * m02 + c10 * m12 + c20 * m22 == 0.0
  {
  }

  lemma ScalarAdjugateLeft1(m00: real, m01: real, m02: real, m10: real, m11: real, m12: real, m20: real, m21: real, m22: real,
                            c00: real, c01: real, c02: real, c10: real, c11: real, c12: real, c20: real, c21: real, c22: real, d: real)
    requires c00 == m11 * m22 - m12 * m21
    requires c01 == -(m10 * m22 - m12 * m20)
    requires c02 == m10 * m21 - m11 * m20
    requires c10 == -(m01 * m22 - m02 * m21)
    requires c11 == m00 * m22 - m02 * m20
    requires c12 == -(m00 * m21 - m01 * m20)
    requires c20 == m01 * m12 - m02 * m11
    requires c21 == -(m00 * m12 - m02 * m10)
    requires c22 == m00 * m11 - m01 * m10
    requires d == m00 * c00 + m10 * c10 + m20 * c20
    ensures c01 * m00 + c11 * m10 + c21 * m20 == 0.0
    ensures c01 * m01 + c11 * m11 + c21 * m21 == d
    ensures c01 * m02 + c11 * m12 + c21 * m22 == 0.0
  {
  }

  lemma ScalarAdjugateLeft2(m00: real, m01: real, m02: real, m10: real, m11: real, m12: real, m20: real, m21: real, m22: real,
                            c00: real, c01: real, c02: real, c10: real, c11: real, c12: real, c20: real, c21: real, c22: real, d: real)
    requires c00 == m11 * m22 - m12 * m21
    requires c01 == -(m10 * m22 - m12 * m20)
    requires c02 == m10 * m21 - m11 * m20
    requires c10 == -(m01 * m22 - m02 * m21)
    requires c11 == m00 * m22 - m02 * m20
    requires c12 == -(m00 * m21 - m01 * m20)
    requires c20 == m01 * m12 - m02 * m11
    requires c21 == -(m00 * m12 - m02 * m10)
    requires c22 == m00 * m11 - m01 * m10
    requires d == m00 * c00 + m10 * c10 + m20 * c20
    ensures c02 * m00 + c12 * m10 + c22 * m20 == 0.0
    ensures c02 * m01 + c12 * m11 + c22 * m21 == 0.0
    ensures c02 * m02 + c12 * m12 + c22 * m22 == d
  {
  }

  /** Column `k` of the cofactors against column `j` of the matrix: the adjugate times
      the matrix is `det * I`. */
  lemma ScalarAdjugateLeft(m00: real, m01: real, m02: real, m10: real, m11: real, m12: real, m20: real, m21: real, m22: real,
                            c00: real, c01: real, c02: real, c10: real, c11: real, c12: real, c20: real, c21: real, c22: real, d: real)
    requires c00 == m11 * m22 - m12 * m21
    requires c01 == -(m10 * m22 - m12 * m20)
    requires c02 == m10 * m21 - m11 * m20
    requires c10 == -(m01 * m22 - m02 * m21)
    requires c11 == m00 * m22 - m02 * m20
    requires c12 == -(m00 * m21 - m01 * m20)
    requires c20 == m01 * m12 - m02 * m11
    requires c21 == -(m00 * m12 - m02 * m10)
    requires c22 == m00 * m11 - m01 * m10
    requires d == m00 * c00 + m10 * c10 + m20 * c20
    ensures c00 * m00 + c10 * m10 + c20 * m20 == d
    ensures c00 * m01 + c10 * m11 + c20 * m21 == 0.0
    ensures c00 * m02 + c10 * m12 + c20 * m22 == 0.0
    ensures c01 * m00 + c11 * m10 + c21 * m20 == 0.0
    ensures c01 * m01 + c11 * m11 + c21 * m21 == d
    ensures c01 * m02 + c11 * m12 + c21 * m22 == 0.0
    ensures c02 * m00 + c12 * m10 + c22 * m20 == 0.0
    ensures c02 * m01 + c12 * m11 + c22 * m21 == 0.0
    ensures c02 * m02 + c12 * m12 + c22 * m22 == d
  {
    ScalarAdjugateLeft0(m00, m01, m02, m10, m11, m12, m20, m21, m22, c00, c01, c02, c10, c11, c12, c20, c21, c22, d);
    ScalarAdjugateLeft1(m00, m01, m02, m10, m11, m12, m20, m21, m22, c00, c01, c02, c10, c11, c12, c20, c21, c22, d);
    ScalarAdjugateLeft2(m00, m01, m02, m10, m11, m12, m20, m21, m22, c00, c01, c02, c10, c11, c12, c20, c21, c22, d);
  }

  /** Expanding along the first column gives the determinant. */
  lemma LaplaceFirstColumn(m: Mat3)
    ensures Dot(m.c0, CofactorColumn(m, 0)) == Det(m)
    ensures Det(m) == m.c0.x * Cofactor(m, 0, 0) + m.c0.y * Cofactor(m, 1, 0) + m.c0.z * Cofactor(m, 2, 0)
  {
    CofactorsExplicit(m);
  }

  /** The adjugate: the transposed matrix of cofactors. */
  function AdjugateOf(m: Mat3): (adj: Mat3)
    ensures forall i, j :: 0 <= i < 3 && 0 <= j < 3 ==> Entry(adj, i, j) == Cofactor(m, j, i)
  {
    TransposeOf(Mat3(CofactorColumn(m, 0), CofactorColumn(m, 1), CofactorColumn(m, 2)))
  }

  /** `v /= d`, componentwise. */
  function DivBy(v: Vec3, d: real): Vec3
    requires d != 0.0
  {
    Vec3(v.x / d, v.y / d, v.z / d)
  }

  /** What `invert` returns: nothing when the determinant (expanded along the first
      column) is close to zero, else the adjugate divided by the determinant. A
      matrix whose determinant is exactly zero is refused whatever the tolerances. */
  function InverseOf(tc: Tolerance.ToleranceContext, m: Mat3): (r: Option<Mat3>)
    ensures Dot(m.c0, CofactorColumn(m, 0)) == 0.0 ==> r.None?
  {
    var det := Dot(m.c0, CofactorColumn(m, 0));
    if Tolerance.IsClose(tc, det, 0.0) then None
    else
      var adj := AdjugateOf(m);
      Some(Mat3(DivBy(adj.c0, det), DivBy(adj.c1, det), DivBy(adj.c2, det)))
  }

  /** `invert(tc, columns)`. */
  method Invert(tc: Tolerance.ToleranceContext, columns: Mat3) returns (r: Option<Mat3>)
    ensures r == InverseOf(tc, columns)
  {
    var cofactorsCol1 := CalcCofactorColumn(columns, 0);
    var det := Dot(columns.c0, cofactorsCol1);
    if Tolerance.IsClose(tc, det, 0.0) {
      return None;
    }
    var cofactorsCol2 := CalcCofactorColumn(columns, 1);
    var cofactorsCol3 := CalcCofactorColumn(columns, 2);
    var adjugateCols := Transpose(Mat3(cofactorsCol1, cofactorsCol2, cofactorsCol3));
    ghost var adj := adjugateCols;
    adjugateCols := adjugateCols.(c0 := DivBy(adjugateCols.c0, det));
    adjugateCols := adjugateCols.(c1 := DivBy(adjugateCols.c1, det));
    adjugateCols := adjugateCols.(c2 := DivBy(adjugateCols.c2, det));
    assert adjugateCols == Mat3(DivBy(adj.c0, det), DivBy(adj.c1, det), DivBy(adj.c2, det));
    return Some(adjugateCols);
  }

  /** The matrix-vector product `sum_j v[j] * columns.Col(j)`. */
  function MatVec(m: Mat3, v: Vec3): Vec3 {
    Add(Add(Scale(v.x, m.c0), Scale(v.y, m.c1)), Scale(v.z, m.c2))
  }

  /** `transform(columns, vector)`: transposes, then takes each row against the vector. */
  method Transform(columns: Mat3, vector: Vec3) returns (r: Vec3)
    ensures r == MatVec(columns, vector)
  {
    var rows := Transpose(columns);
    r := Vec3(Dot(rows.c0, vector), Dot(rows.c1, vector), Dot(rows.c2, vector));
  }

  /** A near-zero determinant, and nothing else, makes `invert` fail. */
  lemma InverseNoneIff(tc: Tolerance.ToleranceContext, m: Mat3)
    ensures InverseOf(tc, m).None? <==> Tolerance.IsClose(tc, Det(m), 0.0)
  {
    LaplaceFirstColumn(m);
  }

  /** With `0 <= rel_tol < 1`, `invert` fails exactly when `|det| <= abs_tol`. */
  lemma InverseNoneIffSmallDet(tc: Tolerance.ToleranceContext, m: Mat3)
    requires 0.0 <= tc.relTol < 1.0 && 0.0 <= tc.absTol
    ensures InverseOf(tc, m).None? <==> Abs(Det(m)) <= tc.absTol
  {
    InverseNoneIff(tc, m);
    Tolerance.IsCloseToZero(tc, Det(m));
  }

  /** A matrix with an inverse has a non-zero determinant. */
  lemma InverseHasNonZeroDet(tc: Tolerance.ToleranceContext, m: Mat3)
    requires InverseOf(tc, m).Some?
    ensures Det(m) != 0.0
  {
    InverseNoneIff(tc, m);
  }

  /** From `M adj(M) = d I`: `M (adj(M) b) = d b`. */
  lemma ScalarAdjugateApplyRight(m00: real, m01: real, m02: real, m10: real, m11: real, m12: real, m20: real, m21: real, m22: real,
                                 c00: real, c01: real, c02: real, c10: real, c11: real, c12: real, c20: real, c21: real, c22: real, d: real,
                                 b0: real, b1: real, b2: real, w0: real, w1: real, w2: real)
    requires m00 * c00 + m01 * c01 + m02 * c02 == d
    requires m00 * c10 + m01 * c11 + m02 * c12 == 0.0
    requires m00 * c20 + m01 * c21 + m02 * c22 == 0.0
    requires m10 * c00 + m11 * c01 + m12 * c02 == 0.0
    requires m10 * c10 + m11 * c11 + m12 * c12 == d
    requires m10 * c20 + m11 * c21 + m12 * c22 == 0.0
    requires m20 * c00 + m21 * c01 + m22 * c02 == 0.0
    requires m20 * c10 + m21 * c11 + m22 * c12 == 0.0
    requires m20 * c20 + m21 * c21 + m22 * c22 == d
    requires w0 == b0 * c00 + b1 * c10 + b2 * c20
    requires w1 == b0 * c01 + b1 * c11 + b2 * c21
    requires w2 == b0 * c02 + b1 * c12 + b2 * c22
    ensures w0 * m00 + w1 * m01 + w2 * m02 == d * b0
    ensures w0 * m10 + w1 * m11 + w2 * m12 == d * b1
    ensures w0 * m20 + w1 * m21 + w2 * m22 == d * b2
  {
    assert w0 * m00 + w1 * m01 + w2 * m02 == b0 * (m00 * c00 + m01 * c01 + m02 * c02) + b1 * (m00 * c10 + m01 * c11 + m02 * c12) + b2 * (m00 * c20 + m01 * c21 + m02 * c22);
    assert w0 * m10 + w1 * m11 + w2 * m12 == b0 * (m10 * c00 + m11 * c01 + m12 * c02) + b1 * (m10 * c10 + m11 * c11 + m12 * c12) + b2 * (m10 * c20 + m11 * c21 + m12 * c22);
    assert w0 * m20 + w1 * m21 + w2 * m22 == b0 * (m20 * c00 + m21 * c01 + m22 * c02) + b1 * (m20 * c10 + m21 * c11 + m22 * c12) + b2 * (m20 * c20 + m21 * c21 + m22 * c22);
  }

  /** From `adj(M) M = d I`: `adj(M) (M b) = d b`. */
  lemma ScalarAdjugateApplyLeft(m00: real, m01: real, m02: real, m10: real, m11: real, m12: real, m20: real, m21: real, m22: real,
                                c00: real, c01: real, c02: real, c10: real, c11: real, c12: real, c20: real, c21: real, c22: real, d: real,
                                b0: real, b1: real, b2: real, z0: real, z1: real, z2: real)
    requires c00 * m00 + c10 * m10 + c20 * m20 == d
    requires c00 * m01 + c10 * m11 + c20 * m21 == 0.0
    requires c00 * m02 + c10 * m12 + c20 * m22 == 0.0
    requires c01 * m00 + c11 * m10 + c21 * m20 == 0.0
    requires c01 * m01 + c11 * m11 + c21 * m21 == d
    requires c01 * m02 + c11 * m12 + c21 * m22 == 0.0
    requires c02 * m00 + c12 * m10 + c22 * m20 == 0.0
    requires c02 * m01 + c12 * m11 + c22 * m21 == 0.0
    requires c02 * m02 + c12 * m12 + c22 * m22 == d
    requires z0 == b0 * m00 + b1 * m01 + b2 * m02
    requires z1 == b0 * m10 + b1 * m11 + b2 * m12
    requires z2 == b0 * m20 + b1 * m21 + b2 * m22
    ensures z0 * c00 + z1 * c10 + z2 * c20 == d * b0
    ensures z0 * c01 + z1 * c11 + z2 * c21 == d * b1
    ensures z0 * c02 + z1 * c12 + z2 * c22 == d * b2
  {
    assert z0 * c00 + z1 * c10 + z2 * c20 == b0 * (c00 * m00 + c10 * m10 + c20 * m20) + b1 * (c00 * m01 + c10 * m11 + c20 * m21) + b2 * (c00 * m02 + c10 * m12 + c20 * m22);
    assert z0 * c01 + z1 * c11 + z2 * c21 == b0 * (c01 * m00 + c11 * m10 + c21 * m20) + b1 * (c01 * m01 + c11 * m11 + c21 * m21) + b2 * (c01 * m02 + c11 * m12 + c21 * m22);
    assert z0 * c02 + z1 * c12 + z2 * c22 == b0 * (c02 * m00 + c12 * m10 + c22 * m20) + b1 * (c02 * m01 + c12 * m11 + c22 * m21) + b2 * (c02 * m02 + c12 * m12 + c22 * m22);
  }

  /** `a` holds the cofactors of `m` written out, column `j` those of row `j`. */
  predicate IsAdjugate(m: Mat3, a: Mat3) {
    var m00, m01, m02 := m.c0.x, m.c1.x, m.c2.x;
    var m10, m11, m12 := m.c0.y, m.c1.y, m.c2.y;
    var m20, m21, m22 := m.c0.z, m.c1.z, m.c2.z;
    && a.c0.x == m11 * m22 - m12 * m21
    && a.c0.y == -(m10 * m22 - m12 * m20)
    && a.c0.z == m10 * m21 - m11 * m20
    && a.c1.x == -(m01 * m22 - m02 * m21)
    && a.c1.y == m00 * m22 - m02 * m20
    && a.c1.z == -(m00 * m21 - m01 * m20)
    && a.c2.x == m01 * m12 - m02 * m11
    && a.c2.y == -(m00 * m12 - m02 * m10)
    && a.c2.z == m00 * m11 - m01 * m10
  }

  /** Column `j` of the adjugate holds the cofactors of row `j`. */
  lemma AdjugateColumns(m: Mat3)
    ensures AdjugateOf(m) == Mat3(Vec3(Cofactor(m, 0, 0), Cofactor(m, 0, 1), Cofactor(m, 0, 2)),
                                  Vec3(Cofactor(m, 1, 0), Cofactor(m, 1, 1), Cofactor(m, 1, 2)),
                                  Vec3(Cofactor(m, 2, 0), Cofactor(m, 2, 1), Cofactor(m, 2, 2)))
  {
  }

  /** The adjugate built from `Cofactor` is the classical adjugate. */
  lemma AdjugateOfIsAdjugate(m: Mat3)
    ensures IsAdjugate(m, AdjugateOf(m))
  {
    AdjugateColumns(m);
    CofactorsExplicit(m);
  }

  lemma ScalarLaplace(m00: real, m01: real, m02: real, m10: real, m11: real, m12: real, m20: real, m21: real, m22: real,
                      c00: real, c10: real, c20: real, d: real)
    requires c00 == m11 * m22 - m12 * m21
    requires c10 == -(m01 * m22 - m02 * m21)
    requires c20 == m01 * m12 - m02 * m11
    requires d == m00 * (m11 * m22 - m21 * m12) + m10 * (m21 * m02 - m01 * m22) + m20 * (m01 * m12 - m11 * m02)
    ensures d == m00 * c00 + m10 * c10 + m20 * c20
  {
  }

  /** The triple product is the expansion along the first column. */
  lemma DetExplicit(m: Mat3, a: Mat3)
    requires IsAdjugate(m, a)
    ensures Det(m) == m.c0.x * a.c0.x + m.c0.y * a.c1.x + m.c0.z * a.c2.x
  {
    ScalarLaplace(m.c0.x, m.c1.x, m.c2.x, m.c0.y, m.c1.y, m.c2.y, m.c0.z, m.c1.z, m.c2.z, a.c0.x, a.c1.x, a.c2.x, Det(m));
  }

  /** `q = c / d` entrywise, so `d (b0 q0 + b1 q1 + b2 q2) = b0 c0 + b1 c1 + b2 c2`. */
  lemma ScalarDivided(d: real, b0: real, b1: real, b2: real, c0: real, c1: real, c2: real, q0: real, q1: real, q2: real, w: real)
    requires d != 0.0
    requires q0 == c0 / d && q1 == c1 / d && q2 == c2 / d
    requires w == b0 * q0 + b1 * q1 + b2 * q2
    ensures d * w == b0 * c0 + b1 * c1 + b2 * c2
  {
    assert d * q0 == c0 && d * q1 == c1 && d * q2 == c2;
    assert d * w == b0 * (d * q0) + b1 * (d * q1) + b2 * (d * q2);
  }

  /** `d x = d y` with `d != 0` gives `x = y`. */
  lemma ScalarCancel(d: real, x: real, y: real)
    requires d != 0.0 && d * x == d * y
    ensures x == y
  {
  }

  /** The inverse on the right, over the entries: `q` is the adjugate `c` divided by `d`
      and `w = q b`; then `M w = b`. */
  lemma ScalarInverseRight(m00: real, m01: real, m02: real, m10: real, m11: real, m12: real, m20: real, m21: real, m22: real,
                           c00: real, c01: real, c02: real, c10: real, c11: real, c12: real, c20: real, c21: real, c22: real, d: real,
                           q00: real, q01: real, q02: real, q10: real, q11: real, q12: real, q20: real, q21: real, q22: real,
                           b0: real, b1: real, b2: real, w0: real, w1: real, w2: real)
    requires c00 == m11 * m22 - m12 * m21
    requires c01 == -(m10 * m22 - m12 * m20)
    requires c02 == m10 * m21 - m11 * m20
    requires c10 == -(m01 * m22 - m02 * m21)
    requires c11 == m00 * m22 - m02 * m20
    requires c12 == -(m00 * m21 - m01 * m20)
    requires c20 == m01 * m12 - m02 * m11
    requires c21 == -(m00 * m12 - m02 * m10)
    requires c22 == m00 * m11 - m01 * m10
    requires d == m00 * c00 + m10 * c10 + m20 * c20 && d != 0.0
    requires q00 == c00 / d && q01 == c01 / d && q02 == c02 / d
    requires q10 == c10 / d && q11 == c11 / d && q12 == c12 / d
    requires q20 == c20 / d && q21 == c21 / d && q22 == c22 / d
    requires w0 == b0 * q00 + b1 * q10 + b2 * q20
    requires w1 == b0 * q01 + b1 * q11 + b2 * q21
    requires w2 == b0 * q02 + b1 * q12 + b2 * q22
    ensures w0 * m00 + w1 * m01 + w2 * m02 == b0
    ensures w0 * m10 + w1 * m11 + w2 * m12 == b1
    ensures w0 * m20 + w1 * m21 + w2 * m22 == b2
  {
    ScalarAdjugateRight(m00, m01, m02, m10, m11, m12, m20, m21, m22, c00, c01, c02, c10, c11, c12, c20, c21, c22, d);
    ScalarDivided(d, b0, b1, b2, c00, c10, c20, q00, q10, q20, w0);
    ScalarDivided(d, b0, b1, b2, c01, c11, c21, q01, q11, q21, w1);
    ScalarDivided(d, b0, b1, b2, c02, c12, c22, q02, q12, q22, w2);
    var v0, v1, v2 := d * w0, d * w1, d * w2;
    ScalarAdjugateApplyRight(m00, m01, m02, m10, m11, m12, m20, m21, m22, c00, c01, c02, c10, c11, c12, c20, c21, c22, d,
                             b0, b1, b2, v0, v1, v2);
    ScalarCancelSum(d, w0, w1, w2, m00, m01, m02, v0, v1, v2, b0);
    ScalarCancelSum(d, w0, w1, w2, m10, m11, m12, v0, v1, v2, b1);
    ScalarCancelSum(d, w0, w1, w2, m20, m21, m22, v0, v1, v2, b2);
  }

  /** `v0 m0 + v1 m1 + v2 m2 = d b` with `v = d w` and `d != 0` gives `w0 m0 + w1 m1 + w2 m2 = b`. */
  lemma ScalarCancelSum(d: real, w0: real, w1: real, w2: real, m0: real, m1: real, m2: real,
                        v0: real, v1: real, v2: real, b: real)
    requires d != 0.0 && v0 == d * w0 && v1 == d * w1 && v2 == d * w2
    requires v0 * m0 + v1 * m1 + v2 * m2 == d * b
    ensures w0 * m0 + w1 * m1 + w2 * m2 == b
  {
    EqualTimes(v0, d * w0, m0);
    EqualTimes(v1, d * w1, m1);
    EqualTimes(v2, d * w2, m2);
    assert d * (w0 * m0 + w1 * m1 + w2 * m2) == d * b;
    ScalarCancel(d, w0 * m0 + w1 * m1 + w2 * m2, b);
  }

  /** The inverse on the left, over the entries: `z = M b` and `q` is the adjugate `c`
      divided by `d`; then `q z = b`. */
  lemma ScalarInverseLeft(m00: real, m01: real, m02: real, m10: real, m11: real, m12: real, m20: real, m21: real, m22: real,
                          c00: real, c01: real, c02: real, c10: real, c11: real, c12: real, c20: real, c21: real, c22: real, d: real,
                          q00: real, q01: real, q02: real, q10: real, q11: real, q12: real, q20: real, q21: real, q22: real,
                          b0: real, b1: real, b2: real, z0: real, z1: real, z2: real)
    requires c00 == m11 * m22 - m12 * m21
    requires c01 == -(m10 * m22 - m12 * m20)
    requires c02 == m10 * m21 - m11 * m20
    requires c10 == -(m01 * m22 - m02 * m21)
    requires c11 == m00 * m22 - m02 * m20
    requires c12 == -(m00 * m21 - m01 * m20)
    requires c20 == m01 * m12 - m02 * m11
    requires c21 == -(m00 * m12 - m02 * m10)
    requires c22 == m00 * m11 - m01 * m10
    requires d == m00 * c00 + m10 * c10 + m20 * c20 && d != 0.0
    requires q00 == c00 / d && q01 == c01 / d && q02 == c02 / d
    requires q10 == c10 / d && q11 == c11 / d && q12 == c12 / d
    requires q20 == c20 / d && q21 == c21 / d && q22 == c22 / d
    requires z0 == b0 * m00 + b1 * m01 + b2 * m02
    requires z1 == b0 * m10 + b1 * m11 + b2 * m12
    requires z2 == b0 * m20 + b1 * m21 + b2 * m22
    ensures z0 * q00 + z1 * q10 + z2 * q20 == b0
    ensures z0 * q01 + z1 * q11 + z2 * q21 == b1
    ensures z0 * q02 + z1 * q12 + z2 * q22 == b2
  {
    ScalarAdjugateLeft(m00, m01, m02, m10, m11, m12, m20, m21, m22, c00, c01, c02, c10, c11, c12, c20, c21, c22, d);
    ScalarAdjugateApplyLeft(m00, m01, m02, m10, m11, m12, m20, m21, m22, c00, c01, c02, c10, c11, c12, c20, c21, c22, d, b0, b1, b2, z0, z1, z2);
    ScalarDivided(d, z0, z1, z2, c00, c10, c20, q00, q10, q20, z0 * q00 + z1 * q10 + z2 * q20);
    ScalarDivided(d, z0, z1, z2, c01, c11, c21, q01, q11, q21, z0 * q01 + z1 * q11 + z2 * q21);
    ScalarDivided(d, z0, z1, z2, c02, c12, c22, q02, q12, q22, z0 * q02 + z1 * q12 + z2 * q22);
    ScalarCancel(d, z0 * q00 + z1 * q10 + z2 * q20, b0);
    ScalarCancel(d, z0 * q01 + z1 * q11 + z2 * q21, b1);
    ScalarCancel(d, z0 * q02 + z1 * q12 + z2 * q22, b2);
  }

  /** What `invert` returns, when it returns something, is the written-out adjugate
      divided by the determinant. */
  lemma InverseIsExplicit(tc: Tolerance.ToleranceContext, m: Mat3)
    requires InverseOf(tc, m).Some?
    ensures Det(m) != 0.0
    ensures var a, d := AdjugateOf(m), Det(m);
            InverseOf(tc, m).value == Mat3(DivBy(a.c0, d), DivBy(a.c1, d), DivBy(a.c2, d))
  {
    InverseHasNonZeroDet(tc, m);
    LaplaceFirstColumn(m);
  }

  /** `ScalarInverseRight` over the columns: `w` is `b` times the adjugate over `d`. */
  lemma AdjugateInverseRight(m: Mat3, a: Mat3, d: real, b: Vec3, w: Vec3)
    requires IsAdjugate(m, a)
    requires d == m.c0.x * a.c0.x + m.c0.y * a.c1.x + m.c0.z * a.c2.x && d != 0.0
    requires w.x == b.x * (a.c0.x / d) + b.y * (a.c1.x / d) + b.z * (a.c2.x / d)
    requires w.y == b.x * (a.c0.y / d) + b.y * (a.c1.y / d) + b.z * (a.c2.y / d)
    requires w.z == b.x * (a.c0.z / d) + b.y * (a.c1.z / d) + b.z * (a.c2.z / d)
    ensures MatVec(m, w) == b
  {
    ScalarInverseRight(m.c0.x, m.c1.x, m.c2.x, m.c0.y, m.c1.y, m.c2.y, m.c0.z, m.c1.z, m.c2.z,
                       a.c0.x, a.c0.y, a.c0.z, a.c1.x, a.c1.y, a.c1.z, a.c2.x, a.c2.y, a.c2.z, d,
                       a.c0.x / d, a.c0.y / d, a.c0.z / d, a.c1.x / d, a.c1.y / d, a.c1.z / d, a.c2.x / d, a.c2.y / d, a.c2.z / d,
                       b.x, b.y, b.z, w.x, w.y, w.z);
  }

  /** `ScalarInverseLeft` over the columns: `z` is `M b`. */
  lemma AdjugateInverseLeft(m: Mat3, a: Mat3, d: real, b: Vec3, z: Vec3)
    requires IsAdjugate(m, a)
    requires d == m.c0.x * a.c0.x + m.c0.y * a.c1.x + m.c0.z * a.c2.x && d != 0.0
    requires z == MatVec(m, b)
    ensures MatVec(Mat3(DivBy(a.c0, d), DivBy(a.c1, d), DivBy(a.c2, d)), z) == b
  {
    ScalarInverseLeft(m.c0.x, m.c1.x, m.c2.x, m.c0.y, m.c1.y, m.c2.y, m.c0.z, m.c1.z, m.c2.z,
                      a.c0.x, a.c0.y, a.c0.z, a.c1.x, a.c1.y, a.c1.z, a.c2.x, a.c2.y, a.c2.z, d,
                      a.c0.x / d, a.c0.y / d, a.c0.z / d, a.c1.x / d, a.c1.y / d, a.c1.z / d, a.c2.x / d, a.c2.y / d, a.c2.z / d,
                      b.x, b.y, b.z, z.x, z.y, z.z);
  }

  /** An adjugate divided by a non-zero determinant is a right inverse. */
  lemma ExplicitInverseRight(m: Mat3, a: Mat3, q: Mat3, b: Vec3)
    requires IsAdjugate(m, a) && Det(m) != 0.0
    requires var d := Det(m);
             q == Mat3(DivBy(a.c0, d), DivBy(a.c1, d), DivBy(a.c2, d))
    ensures MatVec(m, MatVec(q, b)) == b
  {
    DetExplicit(m, a);
    AdjugateInverseRight(m, a, Det(m), b, MatVec(q, b));
  }

  /** An adjugate divided by a non-zero determinant is a left inverse. */
  lemma ExplicitInverseLeft(m: Mat3, a: Mat3, q: Mat3, b: Vec3)
    requires IsAdjugate(m, a) && Det(m) != 0.0
    requires var d := Det(m);
             q == Mat3(DivBy(a.c0, d), DivBy(a.c1, d), DivBy(a.c2, d))
    ensures MatVec(q, MatVec(m, b)) == b
  {
    DetExplicit(m, a);
    AdjugateInverseLeft(m, a, Det(m), b, MatVec(m, b));
  }

  /** What `invert` returns is the two-sided inverse: applying the matrix after it, or
      it after the matrix, gives every vector back. */
  lemma InverseIsTwoSided(tc: Tolerance.ToleranceContext, m: Mat3, b: Vec3)
    requires InverseOf(tc, m).Some?
    ensures MatVec(m, MatVec(InverseOf(tc, m).value, b)) == b
    ensures MatVec(InverseOf(tc, m).value, MatVec(m, b)) == b
  {
    InverseIsExplicit(tc, m);
    AdjugateOfIsAdjugate(m);
    ExplicitInverseRight(m, AdjugateOf(m), InverseOf(tc, m).value, b);
    ExplicitInverseLeft(m, AdjugateOf(m), InverseOf(tc, m).value, b);
  }

  /** The coefficient matrix of `intersect`: columns `s.a - s.b`, `t.a - t.b`, `t.a - t.c`. */
  function Coefficients(t: Triangle, s: Segment): Mat3 {
    Mat3(Sub(s.a, s.b), Sub(t.a, t.b), Sub(t.a, t.c))
  }

  /** What `intersect(tc, t, s)` returns: nothing when the coefficient matrix is singular
      within the tolerance; otherwise, with `(x, u, v)` the inverse applied to
      `t.a - s.b`, the point `x s.a + (1 - x) s.b`. A segment whose ends
      coincide meets nothing. */
  function IntersectOf(tc: Tolerance.ToleranceContext, t: Triangle, s: Segment): (r: Option<Vec3>)
    ensures s.a == s.b ==> r.None?
  {
    match InverseOf(tc, Coefficients(t, s))
    case None => None
    case Some(inverse) =>
      var tuv := MatVec(inverse, Sub(t.a, s.b));
      Some(Add(Scale(tuv.x, s.a), Scale(1.0 - tuv.x, s.b)))
  }

  /** `intersect(tc, t, s)`. */
  method Intersect(tc: Tolerance.ToleranceContext, t: Triangle, s: Segment) returns (r: Option<Vec3>)
    ensures r == IntersectOf(tc, t, s)
  {
    var coefficientMatrixColumns := Mat3(Sub(s.a, s.b), Sub(t.a, t.b), Sub(t.a, t.c));
    var inverse := Invert(tc, coefficientMatrixColumns);
    if inverse.None? {
      return None;
    }
    var constantVector := Sub(t.a, s.b);
    var tuv := Transform(inverse.value, constantVector);
    return Some(Add(Scale(tuv.x, s.a), Scale(1.0 - tuv.x, s.b)));
  }

  /** `intersect` gives up exactly when the coefficient matrix is near-singular. */
  lemma IntersectNoneIff(tc: Tolerance.ToleranceContext, t: Triangle, s: Segment)
    ensures IntersectOf(tc, t, s).None? <==> Tolerance.IsClose(tc, Det(Coefficients(t, s)), 0.0)
  {
    InverseNoneIff(tc, Coefficients(t, s));
  }

    /** One coordinate of a solution `(x, u, v)` of the system, with `ca`, `cb`, `cc` the
      coordinate's entries of the three columns: the line and the plane agree there. */
  lemma ScalarSolutionMeets(x: real, u: real, v: real, sa: real, sb: real, ta: real, tb: real, tc: real,
                            ca: real, cb: real, cc: real, k: real)
    requires ca == sa - sb && cb == ta - tb && cc == ta - tc
    requires k == x * ca + u * cb + v * cc
    requires k == ta - sb
    ensures sb + x * (sa - sb) == ta + (u * (tb - ta) + v * (tc - ta))
  {
    EqualTimes(ca, sa - sb, x);
    EqualTimes(cb, ta - tb, u);
    EqualTimes(cc, ta - tc, v);
  }

  /** One coordinate of a common point of the line and the plane solves the system. */
  lemma ScalarCommonSolves(x: real, u: real, v: real, sa: real, sb: real, ta: real, tb: real, tc: real,
                           ca: real, cb: real, cc: real, k: real)
    requires sb + x * (sa - sb) == ta + (u * (tb - ta) + v * (tc - ta))
    requires ca == sa - sb && cb == ta - tb && cc == ta - tc
    requires k == x * ca + u * cb + v * cc
    ensures k == ta - sb
  {
    EqualTimes(ca, sa - sb, x);
    EqualTimes(cb, ta - tb, u);
    EqualTimes(cc, ta - tc, v);
  }

  /** `x a + (1 - x) b = b + x (a - b)`. */
  lemma ScalarLerp(x: real, sa: real, sb: real, r: real)
    requires r == x * sa + (1.0 - x) * sb
    ensures r == sb + x * (sa - sb)
  {
  }

  /** The point `intersect` builds from `x` is the segment's line at `x`. */
  lemma LerpIsLinePoint(s: Segment, x: real)
    ensures Add(Scale(x, s.a), Scale(1.0 - x, s.b)) == LinePoint(s, x)
  {
    var p := Add(Scale(x, s.a), Scale(1.0 - x, s.b));
    ScalarLerp(x, s.a.x, s.b.x, p.x);
    ScalarLerp(x, s.a.y, s.b.y, p.y);
    ScalarLerp(x, s.a.z, s.b.z, p.z);
  }

  /** A solution `(x, u, v)` of the system is a point of the segment's line (at `x`)
      that is on the triangle's plane (at `u`, `v`). */
  lemma SolutionMeets(t: Triangle, s: Segment, tuv: Vec3)
    requires MatVec(Coefficients(t, s), tuv) == Sub(t.a, s.b)
    ensures LinePoint(s, tuv.x) == PlanePoint(t, tuv.y, tuv.z)
  {
    var m, k := Coefficients(t, s), MatVec(Coefficients(t, s), tuv);
    LinePointExplicit(s, tuv.x);
    PlanePointExplicit(t, tuv.y, tuv.z);
    ScalarSolutionMeets(tuv.x, tuv.y, tuv.z, s.a.x, s.b.x, t.a.x, t.b.x, t.c.x, m.c0.x, m.c1.x, m.c2.x, k.x);
    ScalarSolutionMeets(tuv.x, tuv.y, tuv.z, s.a.y, s.b.y, t.a.y, t.b.y, t.c.y, m.c0.y, m.c1.y, m.c2.y, k.y);
    ScalarSolutionMeets(tuv.x, tuv.y, tuv.z, s.a.z, s.b.z, t.a.z, t.b.z, t.c.z, m.c0.z, m.c1.z, m.c2.z, k.z);
  }

  /** A point on both the segment's line and the triangle's plane solves the system. */
  lemma CommonPointSolves(t: Triangle, s: Segment, x: real, u: real, v: real)
    requires LinePoint(s, x) == PlanePoint(t, u, v)
    ensures MatVec(Coefficients(t, s), Vec3(x, u, v)) == Sub(t.a, s.b)
  {
    var m, k := Coefficients(t, s), MatVec(Coefficients(t, s), Vec3(x, u, v));
    LinePointExplicit(s, x);
    PlanePointExplicit(t, u, v);
    ScalarCommonSolves(x, u, v, s.a.x, s.b.x, t.a.x, t.b.x, t.c.x, m.c0.x, m.c1.x, m.c2.x, k.x);
    ScalarCommonSolves(x, u, v, s.a.y, s.b.y, t.a.y, t.b.y, t.c.y, m.c0.y, m.c1.y, m.c2.y, k.y);
    ScalarCommonSolves(x, u, v, s.a.z, s.b.z, t.a.z, t.b.z, t.c.z, m.c0.z, m.c1.z, m.c2.z, k.z);
  }

  /** When `intersect` returns a point, the point lies on the segment's line and on the
      triangle's plane, at the parameters the system was solved for. */
  lemma IntersectOnLineAndPlane(tc: Tolerance.ToleranceContext, t: Triangle, s: Segment)
    requires IntersectOf(tc, t, s).Some?
    ensures var tuv := MatVec(InverseOf(tc, Coefficients(t, s)).value, Sub(t.a, s.b));
            var p := IntersectOf(tc, t, s).value;
            p == LinePoint(s, tuv.x) && p == PlanePoint(t, tuv.y, tuv.z)
  {
    var m := Coefficients(t, s);
    var tuv := MatVec(InverseOf(tc, m).value, Sub(t.a, s.b));
    InverseIsTwoSided(tc, m, Sub(t.a, s.b));
    SolutionMeets(t, s, tuv);
    LerpIsLinePoint(s, tuv.x);
  }

  /** When `intersect` returns a point, that point is the only one the segment's line
      and the triangle's plane have in common. */
  lemma IntersectIsTheCommonPoint(tc: Tolerance.ToleranceContext, t: Triangle, s: Segment, x: real, u: real, v: real)
    requires IntersectOf(tc, t, s).Some?
    requires LinePoint(s, x) == PlanePoint(t, u, v)
    ensures IntersectOf(tc, t, s) == Some(LinePoint(s, x))
  {
    var m := Coefficients(t, s);
    CommonPointSolves(t, s, x, u, v);
    InverseIsTwoSided(tc, m, Vec3(x, u, v));
    LerpIsLinePoint(s, x);
  }

  // The values checked by the test driver at the end of src/intersection.cpp.

  /** The rows 1..9, used as columns by the tests. */
  const OneToNine := Mat3(Vec3(1.0, 2.0, 3.0), Vec3(4.0, 5.0, 6.0), Vec3(7.0, 8.0, 9.0))

  /** Transposing the rows 1..9 gives the columns 1..9. */
  lemma TransposeExample()
    ensures TransposeOf(OneToNine) == Mat3(Vec3(1.0, 4.0, 7.0), Vec3(2.0, 5.0, 8.0), Vec3(3.0, 6.0, 9.0))
  {
  }

  /** The cofactors of the 1..9 matrix. */
  lemma CofactorExample()
    ensures Cofactor(OneToNine, 0, 0) == -3.0 && Cofactor(OneToNine, 0, 1) == 6.0 && Cofactor(OneToNine, 0, 2) == -3.0
    ensures Cofactor(OneToNine, 1, 0) == 6.0 && Cofactor(OneToNine, 1, 1) == -12.0 && Cofactor(OneToNine, 1, 2) == 6.0
    ensures Cofactor(OneToNine, 2, 0) == -3.0 && Cofactor(OneToNine, 2, 1) == 6.0 && Cofactor(OneToNine, 2, 2) == -3.0
  {
    CofactorsExplicit(OneToNine);
  }

  /** The 1..9 matrix has no inverse, whatever the tolerances. */
  lemma SingularExample(tc: Tolerance.ToleranceContext)
    ensures InverseOf(tc, TransposeOf(OneToNine)).None?
  {
    var m := TransposeOf(OneToNine);
    assert Det(m) == 0.0;
    InverseNoneIff(tc, m);
  }

  /** The tested inverse: columns `(-5, 3, 4) / 12`, `(7, 3, -8) / 12`, `(1, -3, 4) / 12`. */
  lemma InverseExample()
    ensures InverseOf(Tolerance.DefaultContext(), Mat3(Vec3(1.0, 2.0, 3.0), Vec3(3.0, 2.0, 1.0), Vec3(2.0, 1.0, 3.0)))
         == Some(Mat3(Vec3(-5.0 / 12.0, 3.0 / 12.0, 4.0 / 12.0),
                      Vec3(7.0 / 12.0, 3.0 / 12.0, -8.0 / 12.0),
                      Vec3(1.0 / 12.0, -3.0 / 12.0, 4.0 / 12.0)))
  {
    var m := Mat3(Vec3(1.0, 2.0, 3.0), Vec3(3.0, 2.0, 1.0), Vec3(2.0, 1.0, 3.0));
    LaplaceFirstColumn(m);
    assert Det(m) == -12.0;
    Tolerance.DefaultIsCloseToZero(Det(m));
    AdjugateOfIsAdjugate(m);
  }

  /** The tested transform: columns 1..9 applied to `(2, 1, 3)`, which also
      passes the vector closeness test the driver applies. */
  lemma TransformExample()
    ensures MatVec(TransposeOf(OneToNine), Vec3(2.0, 1.0, 3.0)) == Vec3(13.0, 31.0, 49.0)
    ensures Tolerance.IsCloseVec(Tolerance.DefaultContext(), MatVec(TransposeOf(OneToNine), Vec3(2.0, 1.0, 3.0)), Vec3(13.0, 31.0, 49.0))
  {
  }
}
