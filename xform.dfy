/**
 * The index work of `XForm3x3` / `XForm4x4` (Geometry.h): the zero
 * constructor, `Identity`, `transpose`, the rows and columns a cofactor is
 * taken from, and the sign and transposed placement of the 4x4 inverse.
 * Entries are `real`; no arithmetic on them is modelled beyond negation.
 */
module XForm {

  /** `coords[i][j]`, row-major. */
  type Matrix = seq<seq<real>>

  predicate IsSquare(m: Matrix, n: nat)
  {
    |m| == n && forall i :: 0 <= i < n ==> |m[i]| == n
  }

  /** The constructor: every entry is 0. */
  function Zero(n: nat): (z: Matrix)
    ensures IsSquare(z, n)
    ensures forall i, j :: 0 <= i < n && 0 <= j < n ==> z[i][j] == 0.0
  {
    seq(n, i => seq(n, j => 0.0))
  }

  /** `xForm(i, j) = x`. */
  function Set(m: Matrix, n: nat, i: nat, j: nat, x: real): (r: Matrix)
    requires IsSquare(m, n) && i < n && j < n
    ensures IsSquare(r, n)
    ensures forall a, b :: 0 <= a < n && 0 <= b < n ==>
      r[a][b] == if a == i && b == j then x else m[a][b]
  {
    m[i := m[i][j := x]]
  }

  /** `XForm3x3::Identity`: 1 on the diagonal, 0 elsewhere. */
  function Identity3(): (r: Matrix)
    ensures IsSquare(r, 3)
    ensures forall i, j :: 0 <= i < 3 && 0 <= j < 3 ==> r[i][j] == if i == j then 1.0 else 0.0
  {
    Set(Set(Set(Zero(3), 3, 0, 0, 1.0), 3, 1, 1, 1.0), 3, 2, 2, 1.0)
  }

  /** `XForm4x4::Identity`: 1 on the diagonal, 0 elsewhere. */
  function Identity4(): (r: Matrix)
    ensures IsSquare(r, 4)
    ensures forall i, j :: 0 <= i < 4 && 0 <= j < 4 ==> r[i][j] == if i == j then 1.0 else 0.0
  {
    Set(Set(Set(Set(Zero(4), 4, 0, 0, 1.0), 4, 1, 1, 1.0), 4, 2, 2, 1.0), 4, 3, 3, 1.0)
  }

  /** Entry `(i, j)` of the result is entry `(j, i)` of `m`. */
  function Transpose(m: Matrix, n: nat): (r: Matrix)
    requires IsSquare(m, n)
    ensures IsSquare(r, n)
    ensures forall i, j :: 0 <= i < n && 0 <= j < n ==> r[i][j] == m[j][i]
  {
    seq(n, i requires 0 <= i < n => seq(n, j requires 0 <= j < n => m[j][i]))
  }

  function Transpose3(m: Matrix): (r: Matrix)
    requires IsSquare(m, 3)
    ensures IsSquare(r, 3)
    ensures forall i, j :: 0 <= i < 3 && 0 <= j < 3 ==> r[i][j] == m[j][i]
  {
    Transpose(m, 3)
  }

  function Transpose4(m: Matrix): (r: Matrix)
    requires IsSquare(m, 4)
    ensures IsSquare(r, 4)
    ensures forall i, j :: 0 <= i < 4 && 0 <= j < 4 ==> r[i][j] == m[j][i]
  {
    Transpose(m, 4)
  }

  /** Two square matrices with the same entries are equal. */
  lemma SquareExt(a: Matrix, b: Matrix, n: nat)
    requires IsSquare(a, n) && IsSquare(b, n)
    requires forall i, j :: 0 <= i < n && 0 <= j < n ==> a[i][j] == b[i][j]
    ensures a == b
  {
    forall i | 0 <= i < n
      ensures a[i] == b[i]
    {
      assert forall j :: 0 <= j < n ==> a[i][j] == b[i][j];
    }
  }

  /** Transposing twice gives back the original matrix. */
  lemma TransposeInvolutive(m: Matrix, n: nat)
    requires IsSquare(m, n)
    ensures Transpose(Transpose(m, n), n) == m
  {
    SquareExt(Transpose(Transpose(m, n), n), m, n);
  }

  /** The identities are symmetric. */
  lemma TransposeIdentity()
    ensures Transpose3(Identity3()) == Identity3()
    ensures Transpose4(Identity4()) == Identity4()
  {
    SquareExt(Transpose3(Identity3()), Identity3(), 3);
    SquareExt(Transpose4(Identity4()), Identity4(), 4);
  }

  /** `subDeterminant(i, j)` of `XForm3x3` uses rows `(i+1)%3, (i+2)%3`
      (and the same for columns): the two indices other than `i`. */
  function CofactorIndices3(i: int): (r: (int, int))
    requires 0 <= i < 3
    ensures 0 <= r.0 < 3 && 0 <= r.1 < 3
    ensures r.0 != i && r.1 != i && r.0 != r.1
  {
    ((i + 1) % 3, (i + 2) % 3)
  }

  /** The 2x2 block whose determinant `subDeterminant(i, j)` is. */
  function Minor3(m: Matrix, i: int, j: int): (r: Matrix)
    requires IsSquare(m, 3) && 0 <= i < 3 && 0 <= j < 3
    ensures IsSquare(r, 2)
    ensures var (i1, i2) := CofactorIndices3(i); var (j1, j2) := CofactorIndices3(j);
      && r[0][0] == m[i1][j1] && r[0][1] == m[i1][j2]
      && r[1][0] == m[i2][j1] && r[1][1] == m[i2][j2]
  {
    var (i1, i2) := CofactorIndices3(i);
    var (j1, j2) := CofactorIndices3(j);
    [[m[i1][j1], m[i1][j2]], [m[i2][j1], m[i2][j2]]]
  }

  /** `subDeterminant(i, j)` of `XForm4x4` uses rows `ii` and columns `jj`:
      in cyclic order, the three indices other than `i`. */
  function CofactorIndices4(i: int): (r: seq<int>)
    requires 0 <= i < 4
    ensures |r| == 3
    ensures forall a :: 0 <= a < 3 ==> 0 <= r[a] < 4 && r[a] != i
    ensures forall a, b :: 0 <= a < b < 3 ==> r[a] != r[b]
  {
    [(i + 1) % 4, (i + 2) % 4, (i + 3) % 4]
  }

  /** The 3x3 block `xForm(_i, _j) = coords[ii[_i]][jj[_j]]`. */
  function Minor4(m: Matrix, i: int, j: int): (r: Matrix)
    requires IsSquare(m, 4) && 0 <= i < 4 && 0 <= j < 4
    ensures IsSquare(r, 3)
    ensures forall a, b :: 0 <= a < 3 && 0 <= b < 3 ==>
      r[a][b] == m[CofactorIndices4(i)[a]][CofactorIndices4(j)[b]]
  {
    var ii := CofactorIndices4(i);
    var jj := CofactorIndices4(j);
    seq(3, a requires 0 <= a < 3 => seq(3, b requires 0 <= b < 3 => m[ii[a]][jj[b]]))
  }

  /** Every index other than `i` is used exactly once by the 4x4 cofactor. */
  lemma CofactorIndices4Complete(i: int, x: int)
    requires 0 <= i < 4 && 0 <= x < 4 && x != i
    ensures exists a :: 0 <= a < 3 && CofactorIndices4(i)[a] == x
  {
    var a := if x > i then x - i - 1 else x - i + 3;
    assert CofactorIndices4(i)[a] == x;
  }

  /** The cofactor blocks follow transposition: the block of the transpose
      at `(i, j)` is the transpose of the block at `(j, i)`. */
  lemma Minor3Transpose(m: Matrix, i: int, j: int)
    requires IsSquare(m, 3) && 0 <= i < 3 && 0 <= j < 3
    ensures Minor3(Transpose3(m), i, j) == Transpose(Minor3(m, j, i), 2)
  {
    SquareExt(Minor3(Transpose3(m), i, j), Transpose(Minor3(m, j, i), 2), 2);
  }

  lemma Minor4Transpose(m: Matrix, i: int, j: int)
    requires IsSquare(m, 4) && 0 <= i < 4 && 0 <= j < 4
    ensures Minor4(Transpose4(m), i, j) == Transpose3(Minor4(m, j, i))
  {
    SquareExt(Minor4(Transpose4(m), i, j), Transpose3(Minor4(m, j, i)), 3);
  }

  /** The diagonal cofactor blocks of the identity are identities. */
  lemma MinorIdentity(i: int)
    requires 0 <= i < 4
    ensures i < 3 ==> Minor3(Identity3(), i, i) == [[1.0, 0.0], [0.0, 1.0]]
    ensures Minor4(Identity4(), i, i) == Identity3()
  {
    SquareExt(Minor4(Identity4(), i, i), Identity3(), 3);
  }

  /** The sign `XForm4x4::inverse` gives entry `(i, j)`'s cofactor. */
  function CofactorSign(i: int, j: int): (s: int)
    requires 0 <= i < 4 && 0 <= j < 4
    ensures s == 1 || s == -1
    ensures s == 1 <==> (i + j) % 2 == 0
  {
    if (i + j) % 2 == 0 then 1 else -1
  }

  /** The signs form a symmetric checkerboard. */
  lemma CofactorSignCheckerboard(i: int, j: int)
    requires 0 <= i < 4 && 0 <= j < 4
    ensures CofactorSign(i, j) == CofactorSign(j, i)
    ensures i + 1 < 4 ==> CofactorSign(i + 1, j) == -CofactorSign(i, j)
    ensures j + 1 < 4 ==> CofactorSign(i, j + 1) == -CofactorSign(i, j)
    ensures CofactorSign(i, i) == 1
  {
  }

  /** The placement of `XForm4x4::inverse`: given `q[i][j]`, the value of
      `subDeterminant(i, j) / d`, entry `(j, i)` of the result is `q[i][j]`
      with the cofactor sign of `(i, j)`. */
  function InverseLayout4(q: Matrix): (r: Matrix)
    requires IsSquare(q, 4)
    ensures IsSquare(r, 4)
    ensures forall i, j :: 0 <= i < 4 && 0 <= j < 4 ==> r[j][i] == (CofactorSign(i, j) as real) * q[i][j]
  {
    seq(4, a requires 0 <= a < 4 => seq(4, b requires 0 <= b < 4 =>
      if (b + a) % 2 == 0 then q[b][a] else -q[b][a]))
  }

  /** Laying out the quotients of a transposed matrix gives the transposed layout. */
  lemma InverseLayout4Transpose(q: Matrix)
    requires IsSquare(q, 4)
    ensures InverseLayout4(Transpose4(q)) == Transpose4(InverseLayout4(q))
  {
    SquareExt(InverseLayout4(Transpose4(q)), Transpose4(InverseLayout4(q)), 4);
  }
}
