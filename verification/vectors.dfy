/**
 * Integer lattice vectors (`Vector3I` in Utilities.cs) and the two integer
 * divisions the source mixes: the C# `(int)` cast of a quotient truncates
 * toward zero, while `Mathf.Floor` rounds toward minus infinity.  Dafny's own
 * `/` is Euclidean, so both are written out here.
 */
module Vectors {

  datatype V3 = V3(x: int, y: int, z: int)

  /** `Vector3I.Add`: a fresh vector, componentwise sum. */
  function Add(a: V3, b: V3): (r: V3)
    ensures r.x - a.x == b.x && r.y - a.y == b.y && r.z - a.z == b.z
  {
    V3(a.x + b.x, a.y + b.y, a.z + b.z)
  }

  /** `Vector3I.Subtract`: a fresh vector, componentwise difference. */
  function Subtract(a: V3, b: V3): (r: V3)
    ensures r.x + b.x == a.x && r.y + b.y == a.y && r.z + b.z == a.z
  {
    V3(a.x - b.x, a.y - b.y, a.z - b.z)
  }

  /** `Vector3I.Equals` on another boxed `Vector3I`: all three components match. */
  function Equals(a: V3, b: V3): (r: bool)
    ensures r <==> a == b
  {
    a.x == b.x && a.y == b.y && a.z == b.z
  }

  /** `Add` followed by `Subtract` of the same vector gives back the original. */
  lemma AddSubtract(a: V3, b: V3)
    ensures Subtract(Add(a, b), b) == a
  {
  }

  /** `Subtract` followed by `Add` of the same vector gives back the original. */
  lemma SubtractAdd(a: V3, b: V3)
    ensures Add(Subtract(a, b), b) == a
  {
  }

  /** Scaling by an integer factor. */
  function Scale(a: V3, k: int): V3
  {
    V3(a.x * k, a.y * k, a.z * k)
  }

  /** C# `(int)(a / b)` for a positive divisor: the quotient truncated toward zero. */
  function TruncDiv(a: int, b: int): (q: int)
    requires b > 0
    ensures a >= 0 ==> q >= 0 && q * b <= a < q * b + b
    ensures a < 0 ==> q <= 0 && q * b - b < a <= q * b
  {
    if a >= 0 then a / b else -((-a) / b)
  }

  /** `(int)Mathf.Floor(a / b)` for a positive divisor: the quotient rounded down. */
  function FloorDiv(a: int, b: int): (q: int)
    requires b > 0
    ensures q * b <= a < q * b + b
  {
    a / b
  }

  function TruncDivV(a: V3, b: int): V3
    requires b > 0
  {
    V3(TruncDiv(a.x, b), TruncDiv(a.y, b), TruncDiv(a.z, b))
  }

  function FloorDivV(a: V3, b: int): V3
    requires b > 0
  {
    V3(FloorDiv(a.x, b), FloorDiv(a.y, b), FloorDiv(a.z, b))
  }
}
