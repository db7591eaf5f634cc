/// The immutable grid coordinate of Cell.cs: two integers with structural
/// equality, a hash code consistent with that equality, and the lexicographic
/// order (x first, then y) that keeps a generation's sorted set in order.
module Cells {

  /** A live coordinate. Being a datatype value, it is fixed once built:
      the fields correspond to the readonly X and Y set by the constructor. */
  datatype Cell = Cell(x: int, y: int)

  /** Int32.CompareTo: -1, 0 or 1 as a is below, equal to or above b. */
  function IntCompareTo(a: int, b: int): (r: int)
    ensures -1 <= r <= 1
    ensures r < 0 <==> a < b
    ensures r == 0 <==> a == b
    ensures r > 0 <==> a > b
  {
    if a < b then -1 else if a > b then 1 else 0
  }

  /** Cell.Equals(Cell): both coordinates agree. */
  function Equals(a: Cell, b: Cell): (r: bool)
    ensures r <==> a == b
  {
    a.x == b.x && a.y == b.y
  }

  /** operator ==, which delegates to Equals. */
  function EqualsOperator(left: Cell, right: Cell): (r: bool)
    ensures r <==> left == right
  {
    Equals(left, right)
  }

  /** operator !=, the negation of Equals. */
  function NotEqualsOperator(left: Cell, right: Cell): (r: bool)
    ensures r <==> !EqualsOperator(left, right)
    ensures r <==> left != right
  {
    !Equals(left, right)
  }

  /** The two's-complement reading of a 32-bit pattern. */
  function SignedOf(b: bv32): int
  {
    if b < 0x8000_0000 then b as int else b as int - 0x1_0000_0000
  }

  /** The low 32 bits of an unbounded integer, as C#'s unchecked arithmetic keeps them. */
  function Low32(n: int): bv32
  {
    (n % 0x1_0000_0000) as bv32
  }

  /** Cell.GetHashCode: unchecked (X * 397) ^ Y on 32-bit integers. */
  function GetHashCode(c: Cell): int
  {
    SignedOf(Low32(c.x * 397) ^ Low32(c.y))
  }

  /** Cells that are Equals have the same hash code, so hashed containers agree with Equals. */
  lemma HashConsistentWithEquals(a: Cell, b: Cell)
    requires Equals(a, b)
    ensures GetHashCode(a) == GetHashCode(b)
  {
  }

  /** The hash code does not identify a cell: (1, 0) and (0, 397) collide. */
  lemma HashCollision()
    ensures Cell(1, 0) != Cell(0, 397)
    ensures GetHashCode(Cell(1, 0)) == GetHashCode(Cell(0, 397)) == 397
  {
    assert Low32(397) == 397;
    assert Low32(0) == 0;
  }

  /** Cell.CompareTo: compare X, and only when X is equal compare Y. */
  function CompareTo(a: Cell, other: Cell): (r: int)
    ensures -1 <= r <= 1
    ensures r < 0 <==> a.x < other.x || (a.x == other.x && a.y < other.y)
    ensures r > 0 <==> a.x > other.x || (a.x == other.x && a.y > other.y)
    ensures a.x != other.x ==> r == IntCompareTo(a.x, other.x)
  {
    var xCompareResult := IntCompareTo(a.x, other.x);
    if xCompareResult == 0 then IntCompareTo(a.y, other.y) else xCompareResult
  }

  /** CompareTo reports 0 exactly for cells that are Equals. */
  lemma CompareToZeroIffEquals(a: Cell, b: Cell)
    ensures CompareTo(a, b) == 0 <==> Equals(a, b)
  {
  }

  /** Swapping the arguments flips the sign of CompareTo. */
  lemma CompareToAntisymmetric(a: Cell, b: Cell)
    ensures CompareTo(a, b) == -CompareTo(b, a)
  {
  }

  /** "At most" under CompareTo is transitive. */
  lemma CompareToTransitive(a: Cell, b: Cell, c: Cell)
    requires CompareTo(a, b) <= 0 && CompareTo(b, c) <= 0
    ensures CompareTo(a, c) <= 0
    ensures CompareTo(a, b) < 0 || CompareTo(b, c) < 0 ==> CompareTo(a, c) < 0
  {
  }

  /** Any two cells are comparable: one is below the other, or they are the same cell. */
  lemma CompareToTotal(a: Cell, b: Cell)
    ensures CompareTo(a, b) < 0 || a == b || CompareTo(b, a) < 0
  {
  }
}
