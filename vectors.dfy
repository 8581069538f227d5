/** Three-component vectors as used by every part of the gas model
    (model/Vector.hpp, and the struct Vector of model/Model.h / model/Model.cpp).
    Components are reals: double rounding is not modelled.  The square root
    behind `length()` is a parameter `sqrt`, about which nothing is assumed. */
module Vectors {

  datatype Vector = Vector(x: real, y: real, z: real)

  const Zero: Vector := Vector(0.0, 0.0, 0.0)

  /** std::numeric_limits<double>::epsilon(), that is 2^-52, written out exactly. */
  const DoubleEpsilon: real := 1.0 / 4503599627370496.0

  /** Below this length `setLength` does not divide by the current length. */
  const DegenerateLength: real := 10.0 * DoubleEpsilon

  /** operator+ */
  function Add(a: Vector, b: Vector): Vector
  {
    Vector(a.x + b.x, a.y + b.y, a.z + b.z)
  }

  /** operator- */
  function Sub(a: Vector, b: Vector): Vector
  {
    Vector(a.x - b.x, a.y - b.y, a.z - b.z)
  }

  /** operator*(k): `{k*x, k*y, k*z}` */
  function Scale(a: Vector, k: real): Vector
  {
    Vector(k * a.x, k * a.y, k * a.z)
  }

  /** operator/(k) of Vector.hpp: multiplication by 1/k.  Division by zero
      (an IEEE infinity) is not modelled, hence the precondition. */
  function Div(a: Vector, k: real): (r: Vector)
    requires k != 0.0
    ensures Scale(r, k) == a
  {
    Scale(a, 1.0 / k)
  }

  /** lenSqr() */
  function LenSqr(a: Vector): (r: real)
    ensures r >= 0.0
  {
    assert a.x * a.x >= 0.0 && a.y * a.y >= 0.0 && a.z * a.z >= 0.0;
    a.x * a.x + a.y * a.y + a.z * a.z
  }

  /** length(): the square root of lenSqr(), with the square root a parameter. */
  function Length(a: Vector, sqrt: real -> real): real
  {
    sqrt(LenSqr(a))
  }

  /** a.scalar(v): `v.x*x + v.y*y + v.z*z` */
  function Scalar(a: Vector, v: Vector): real
  {
    v.x * a.x + v.y * a.y + v.z * a.z
  }

  function Abs(r: real): (a: real)
    ensures a >= 0.0 && (a == r || a == -r)
  {
    if r < 0.0 then -r else r
  }

  /** isInBox(box) of Vector.hpp: every component strictly inside (-box, box). */
  function IsInBox(a: Vector, box: Vector): (r: bool)
    ensures r <==> (-box.x < a.x < box.x && -box.y < a.y < box.y && -box.z < a.z < box.z)
  {
    Abs(a.x) < box.x && Abs(a.y) < box.y && Abs(a.z) < box.z
  }

  /** The two definitions of setLength differ only in their degenerate branch:
      Model.cpp and Model.hpp leave the vector as it is, Vector.hpp replaces it
      by (curLen, 0, 0). */
  datatype SetLengthVariant = KeepOnDegenerate | AxisOnDegenerate

  predicate IsDegenerate(a: Vector, sqrt: real -> real)
  {
    Abs(Length(a, sqrt)) < DegenerateLength
  }

  /** setLength(newLen): scale by newLen / curLen unless curLen is below
      10 * epsilon, where the variant decides. */
  function SetLength(a: Vector, newLen: real, sqrt: real -> real, variant: SetLengthVariant): (r: Vector)
    ensures !IsDegenerate(a, sqrt) ==> r == Scale(a, newLen / Length(a, sqrt))
    ensures IsDegenerate(a, sqrt) && variant == KeepOnDegenerate ==> r == a
    ensures IsDegenerate(a, sqrt) && variant == AxisOnDegenerate ==>
              r == Vector(Length(a, sqrt), 0.0, 0.0) && Abs(r.x) < DegenerateLength
  {
    var curLen := Length(a, sqrt);
    if Abs(curLen) < DegenerateLength then
      match variant
      case KeepOnDegenerate => a
      case AxisOnDegenerate => Vector(curLen, 0.0, 0.0)
    else
      Scale(a, newLen / curLen)
  }

  /** `sqrt` returns the true, non-negative square root at x. */
  predicate SqrtExactAt(sqrt: real -> real, x: real)
  {
    sqrt(x) >= 0.0 && sqrt(x) * sqrt(x) == x
  }

  /** Total of a sequence of vectors (the momentum of a particle set when the
      vectors are unit-mass speeds). */
  function Sum(s: seq<Vector>): Vector
  {
    if s == [] then Zero else Add(Sum(s[..|s| - 1]), s[|s| - 1])
  }

  // ---------------------------------------------------------------- lemmas

  lemma ScalarSymmetric(a: Vector, b: Vector)
    ensures Scalar(a, b) == Scalar(b, a)
  {
  }

  lemma LenSqrIsScalar(a: Vector)
    ensures LenSqr(a) == Scalar(a, a)
  {
  }

  lemma ScalarScaleLeft(a: Vector, b: Vector, k: real)
    ensures Scalar(Scale(a, k), b) == k * Scalar(a, b)
  {
    calc {
      Scalar(Scale(a, k), b);
      b.x * (k * a.x) + b.y * (k * a.y) + b.z * (k * a.z);
      k * (b.x * a.x) + k * (b.y * a.y) + k * (b.z * a.z);
      k * Scalar(a, b);
    }
  }

  /** Vectors whose components have equal squares have equal squared length. */
  lemma LenSqrOfSquares(a: Vector, b: Vector)
    requires a.x * a.x == b.x * b.x && a.y * a.y == b.y * b.y && a.z * a.z == b.z * b.z
    ensures LenSqr(a) == LenSqr(b)
  {
  }

  lemma LenSqrScale(a: Vector, k: real)
    ensures LenSqr(Scale(a, k)) == k * k * LenSqr(a)
  {
    calc {
      LenSqr(Scale(a, k));
      (k * a.x) * (k * a.x) + (k * a.y) * (k * a.y) + (k * a.z) * (k * a.z);
      (k * k) * (a.x * a.x) + (k * k) * (a.y * a.y) + (k * k) * (a.z * a.z);
      k * k * LenSqr(a);
    }
  }

  /** |a - b|^2 = |a|^2 - 2 a.b + |b|^2 */
  lemma LenSqrSub(a: Vector, b: Vector)
    ensures LenSqr(Sub(a, b)) == LenSqr(a) - 2.0 * Scalar(a, b) + LenSqr(b)
  {
    var d := Sub(a, b);
    assert d.x * d.x == a.x * a.x - 2.0 * (b.x * a.x) + b.x * b.x;
    assert d.y * d.y == a.y * a.y - 2.0 * (b.y * a.y) + b.y * b.y;
    assert d.z * d.z == a.z * a.z - 2.0 * (b.z * a.z) + b.z * b.z;
  }

  /** |a + b|^2 = |a|^2 + 2 a.b + |b|^2 */
  lemma LenSqrAdd(a: Vector, b: Vector)
    ensures LenSqr(Add(a, b)) == LenSqr(a) + 2.0 * Scalar(a, b) + LenSqr(b)
  {
    var d := Add(a, b);
    assert d.x * d.x == a.x * a.x + 2.0 * (b.x * a.x) + b.x * b.x;
    assert d.y * d.y == a.y * a.y + 2.0 * (b.y * a.y) + b.y * b.y;
    assert d.z * d.z == a.z * a.z + 2.0 * (b.z * a.z) + b.z * b.z;
  }

  /** Scaling the zero vector, in particular by setLength, leaves it zero. */
  lemma SetLengthOfZero(newLen: real, sqrt: real -> real)
    ensures SetLength(Zero, newLen, sqrt, KeepOnDegenerate) == Zero
  {
    if !IsDegenerate(Zero, sqrt) {
      var k := newLen / Length(Zero, sqrt);
      assert Scale(Zero, k) == Vector(k * 0.0, k * 0.0, k * 0.0);
    }
  }

  /** Outside the degenerate branch, setLength keeps the direction: the result
      is the input times a factor, positive when the new length and the
      computed length are. */
  lemma SetLengthParallel(a: Vector, newLen: real, sqrt: real -> real, variant: SetLengthVariant)
    requires !IsDegenerate(a, sqrt)
    requires newLen > 0.0 && Length(a, sqrt) > 0.0
    ensures exists k: real :: k > 0.0 && SetLength(a, newLen, sqrt, variant) == Scale(a, k)
  {
    var k := newLen / Length(a, sqrt);
    assert k > 0.0;
    assert SetLength(a, newLen, sqrt, variant) == Scale(a, k);
  }

  /** Where sqrt is exact, setLength really produces a vector of the requested
      squared length. */
  lemma SetLengthExact(a: Vector, newLen: real, sqrt: real -> real, variant: SetLengthVariant)
    requires SqrtExactAt(sqrt, LenSqr(a))
    requires !IsDegenerate(a, sqrt)
    ensures LenSqr(SetLength(a, newLen, sqrt, variant)) == newLen * newLen
  {
    var c := Length(a, sqrt);
    var k := newLen / c;
    assert c != 0.0;
    LenSqrScale(a, k);
    assert k * c == newLen;
    calc {
      LenSqr(SetLength(a, newLen, sqrt, variant));
      k * k * LenSqr(a);
      k * k * (c * c);
      (k * c) * (k * c);
      newLen * newLen;
    }
  }

  /** Replacing one element of a sequence changes its total by the difference. */
  lemma {:induction false} SumUpdate(s: seq<Vector>, i: nat, v: Vector)
    requires i < |s|
    ensures Sum(s[i := v]) == Add(Sub(Sum(s), s[i]), v)
    decreases |s|
  {
    var t := s[i := v];
    var n := |s| - 1;
    assert t[..n] == if i < n then s[..n][i := v] else s[..n];
    if i < n {
      SumUpdate(s[..n], i, v);
    }
  }

  /** Taking p from one element and giving it to another (or the same) keeps
      the total: the momentum identity behind every pairwise collision. */
  lemma TransferKeepsSum(s: seq<Vector>, i: nat, j: nat, p: Vector)
    requires i < |s| && j < |s|
    ensures var t := s[i := Sub(s[i], p)]; Sum(t[j := Add(t[j], p)]) == Sum(s)
  {
    var t := s[i := Sub(s[i], p)];
    SumUpdate(s, i, Sub(s[i], p));
    SumUpdate(t, j, Add(t[j], p));
  }

  /** Writing entry i below n changes the first n entries only at i: the
      prefix of the updated sequence is the updated prefix. */
  lemma SumPrefixUpdate(s: seq<Vector>, n: nat, i: nat, v: Vector)
    requires i < n <= |s|
    ensures s[i := v][..n] == s[..n][i := v]
  {
  }
}
