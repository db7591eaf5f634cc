/// The order in which an ImmutableSortedSet<Cell> hands out its cells: by
/// Cell.CompareTo, smallest first. Generation.Next expands a generation's cells
/// in this order; the lemmas here show that CompareTo is enough to define it.
module CellOrder {
  import opened Cells

  /** c is the smallest cell of g under CompareTo. */
  ghost predicate IsLeast(c: Cell, g: set<Cell>)
  {
    c in g && forall d :: d in g ==> CompareTo(c, d) <= 0
  }

  /** Every non-empty finite set of cells has a smallest cell. */
  lemma {:induction false} LeastExists(g: set<Cell>)
    requires g != {}
    ensures exists c :: IsLeast(c, g)
  {
    var a :| a in g;
    if g == {a} {
      assert IsLeast(a, g);
    } else {
      LeastExists(g - {a});
      var b :| IsLeast(b, g - {a});
      if CompareTo(a, b) <= 0 {
        forall d | d in g ensures CompareTo(a, d) <= 0 {
          if d != a { CompareToTransitive(a, b, d); }
        }
        assert IsLeast(a, g);
      } else {
        CompareToTotal(a, b);
        assert IsLeast(b, g);
      }
    }
  }

  /** The smallest cell is unique. */
  lemma LeastUnique(c: Cell, d: Cell, g: set<Cell>)
    requires IsLeast(c, g) && IsLeast(d, g)
    ensures c == d
  {
    assert CompareTo(c, d) <= 0 && CompareTo(d, c) <= 0;
  }

  /** The cells of g strictly increasing under CompareTo. */
  ghost predicate StrictlySorted(s: seq<Cell>)
  {
    forall i, j :: 0 <= i < j < |s| ==> CompareTo(s[i], s[j]) < 0
  }

  /** The enumeration of a sorted set: each of its cells once, in ascending order. */
  ghost function SortedCells(g: set<Cell>): (s: seq<Cell>)
    ensures |s| == |g|
    ensures forall c :: c in s <==> c in g
    ensures StrictlySorted(s)
    decreases |g|
  {
    if g == {} then []
    else
      LeastExists(g);
      var c :| IsLeast(c, g);
      var rest := SortedCells(g - {c});
      PrependLeast(c, g, rest);
      [c] + rest
  }

  /** Putting the smallest cell in front of a sorted enumeration of the others enumerates g. */
  lemma PrependLeast(c: Cell, g: set<Cell>, rest: seq<Cell>)
    requires IsLeast(c, g)
    requires |rest| == |g - {c}| && StrictlySorted(rest)
    requires forall d :: d in rest <==> d in g - {c}
    ensures |[c] + rest| == |g|
    ensures forall d :: d in [c] + rest <==> d in g
    ensures StrictlySorted([c] + rest)
  {
    var s := [c] + rest;
    forall i, j | 0 <= i < j < |s| ensures CompareTo(s[i], s[j]) < 0 {
      if i == 0 {
        assert s[j] == rest[j - 1] && s[j] in rest;
        assert s[j] != c && CompareTo(c, s[j]) <= 0;
      } else {
        assert s[i] == rest[i - 1] && s[j] == rest[j - 1];
      }
    }
  }

  /** A strictly sorted sequence repeats no cell. */
  lemma StrictlySortedDistinct(s: seq<Cell>, i: int, j: int)
    requires StrictlySorted(s)
    requires 0 <= i < |s| && 0 <= j < |s| && i != j
    ensures s[i] != s[j]
  {
    if i < j { assert CompareTo(s[i], s[j]) < 0; } else { assert CompareTo(s[j], s[i]) < 0; }
  }
}
