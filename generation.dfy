/// The static class Generation of Generation.cs: decoding a dense row-major
/// grid into the set of live cells (Init), encoding a set of live cells as a
/// dense 0/1 grid (Convert), and one step of Conway's rule on the unbounded
/// plane computed by grouping neighbour contributions (Next).
module Generation {
  import opened Cells
  import opened CellOrder

  //////////////////////////////////////////////////////////////////////////
  // Arithmetic on row-major offsets
  //////////////////////////////////////////////////////////////////////////

  lemma MulAtLeast(k: int, width: int)
    requires k >= 1 && width >= 0
    ensures k * width >= width
  {
  }

  /** The only multiple of a positive width strictly between -width and width is 0. */
  lemma SmallMultiple(k: int, width: int)
    requires width > 0 && -width < k * width < width
    ensures k == 0
  {
    if k > 0 {
      MulAtLeast(k, width);
    } else if k < 0 {
      MulAtLeast(-k, width);
    }
  }

  /** Row-major offset x + y * width: the inverse of (i % width, i / width) on a row. */
  lemma OffsetDivMod(x: int, y: int, width: int)
    requires 0 <= x < width
    ensures (x + y * width) % width == x
    ensures (x + y * width) / width == y
  {
    var i := x + y * width;
    var q, r := i / width, i % width;
    assert (y - q) * width == r - x;
    SmallMultiple(y - q, width);
  }

  /** Two offsets on the same width agree only for the same column and row,
      as long as the columns are less than width apart. */
  lemma OffsetInjective(x1: int, y1: int, x2: int, y2: int, width: int)
    requires -width < x1 - x2 < width
    requires x1 + y1 * width == x2 + y2 * width
    ensures x1 == x2 && y1 == y2
  {
    assert (y2 - y1) * width == x1 - x2;
    SmallMultiple(y2 - y1, width);
  }

  /** An integer is determined by its quotient and remainder. */
  lemma DivModDetermine(i: int, j: int, width: int)
    requires width != 0 && i % width == j % width && i / width == j / width
    ensures i == j
  {
  }

  /** Index i of a width * height grid has column i % width and row i / width inside the grid. */
  lemma IndexInGrid(i: int, width: int, height: int)
    requires width > 0 && height > 0 && 0 <= i < width * height
    ensures 0 <= i % width < width && 0 <= i / width < height
  {
    if i / width >= height {
      MulMono(height, i / width, width);
    }
  }

  lemma MulMono(a: int, b: int, width: int)
    requires 0 <= a <= b && width >= 0
    ensures a * width <= b * width
  {
  }

  //////////////////////////////////////////////////////////////////////////
  // Init: dense grid to live cells
  //////////////////////////////////////////////////////////////////////////

  /** Enumerable.ElementAtOrDefault on the input: the value at i, or default(int) past the end. */
  function ElementAtOrDefault(cells: seq<int>, i: int): int
  {
    if 0 <= i < |cells| then cells[i] else 0
  }

  /** Generation.Init: every index i of the width * height grid whose value is
      positive becomes the cell (i % width, i / width). Enumerable.Range needs
      a non-negative count. For the non-negative index i, Dafny's % and / give
      the same results as C#'s. */
  function Init(width: int, height: int, cells: seq<int>): (g: set<Cell>)
    requires width * height >= 0
    ensures width > 0 && height > 0 ==>
              forall c :: c in g ==> 0 <= c.x < width && 0 <= c.y < height
    ensures width * height == 0 ==> g == {}
  {
    var g := set i | 0 <= i < width * height && ElementAtOrDefault(cells, i) > 0
                   :: Cell(i % width, i / width);
    assert width > 0 && height > 0 ==> forall c :: c in g ==> 0 <= c.x < width && 0 <= c.y < height by {
      if width > 0 && height > 0 {
        forall i | 0 <= i < width * height ensures 0 <= i % width < width && 0 <= i / width < height {
          IndexInGrid(i, width, height);
        }
      }
    }
    g
  }

  /** Index i of the grid is decoded as cell (i % width, i / width), which is
      live exactly when the input has a positive value at i; indices past the
      end of the input read as dead. */
  lemma InitAt(width: int, height: int, cells: seq<int>, i: int)
    requires width * height >= 0
    requires 0 <= i < width * height
    ensures Cell(i % width, i / width) in Init(width, height, cells)
            <==> i < |cells| && cells[i] > 0
  {
    var g := Init(width, height, cells);
    var c := Cell(i % width, i / width);
    if c in g {
      var j :| 0 <= j < width * height && ElementAtOrDefault(cells, j) > 0
               && c == Cell(j % width, j / width);
      DivModDetermine(i, j, width);
    }
  }

  /** For positive dimensions, a cell is live after Init exactly when it lies
      in the width * height box and the input is positive at its row-major
      offset: there are no other cells. */
  lemma InitCoordinates(width: int, height: int, cells: seq<int>, c: Cell)
    requires width > 0 && height > 0
    ensures c in Init(width, height, cells)
            <==> 0 <= c.x < width && 0 <= c.y < height
                 && ElementAtOrDefault(cells, c.x + c.y * width) > 0
  {
    if 0 <= c.x < width && 0 <= c.y < height {
      var i := c.x + c.y * width;
      OffsetDivMod(c.x, c.y, width);
      assert i < width * height by {
        MulMono(c.y, height - 1, width);
        assert (height - 1) * width == width * height - width;
      }
      InitAt(width, height, cells, i);
    }
  }

  //////////////////////////////////////////////////////////////////////////
  // Convert: live cells to a dense grid
  //////////////////////////////////////////////////////////////////////////

  /** The two coordinates of a cell. */
  datatype Axis = X | Y

  function Coord(c: Cell, axis: Axis): int
  {
    match axis
    case X => c.x
    case Y => c.y
  }

  /** m is the largest (the smallest) coordinate on the axis among the cells of g. */
  ghost predicate IsMax(g: set<Cell>, axis: Axis, m: int)
  {
    (exists c :: c in g && Coord(c, axis) == m) && forall c :: c in g ==> Coord(c, axis) <= m
  }

  ghost predicate IsMin(g: set<Cell>, axis: Axis, m: int)
  {
    (exists c :: c in g && Coord(c, axis) == m) && forall c :: c in g ==> m <= Coord(c, axis)
  }

  /** A non-empty generation has a largest and a smallest coordinate on each axis. */
  lemma {:induction false} ExtremesExist(g: set<Cell>, axis: Axis)
    requires g != {}
    ensures exists m :: IsMax(g, axis, m)
    ensures exists m :: IsMin(g, axis, m)
    decreases |g|
  {
    var c :| c in g;
    if g == {c} {
      assert IsMax(g, axis, Coord(c, axis)) && IsMin(g, axis, Coord(c, axis));
    } else {
      var rest := g - {c};
      ExtremesExist(rest, axis);
      var hi :| IsMax(rest, axis, hi);
      var lo :| IsMin(rest, axis, lo);
      var w :| w in rest && Coord(w, axis) == hi;
      var v :| v in rest && Coord(v, axis) == lo;
      assert forall d :: d in g ==> d == c || d in rest;
      if Coord(c, axis) <= hi {
        assert IsMax(g, axis, hi);
      } else {
        assert IsMax(g, axis, Coord(c, axis));
      }
      if lo <= Coord(c, axis) {
        assert IsMin(g, axis, lo);
      } else {
        assert IsMin(g, axis, Coord(c, axis));
      }
    }
  }

  /** Enumerable.Max and Enumerable.Min of a coordinate over a non-empty generation. */
  ghost function Max(g: set<Cell>, axis: Axis): (m: int)
    requires g != {}
    ensures IsMax(g, axis, m)
  {
    ExtremesExist(g, axis);
    var m :| IsMax(g, axis, m);
    m
  }

  ghost function Min(g: set<Cell>, axis: Axis): (m: int)
    requires g != {}
    ensures IsMin(g, axis, m)
  {
    ExtremesExist(g, axis);
    var m :| IsMin(g, axis, m);
    m
  }

  /** The width Convert chooses: the span of X plus a margin column on each side. */
  ghost function Width(g: set<Cell>): (w: int)
    requires g != {}
    ensures w >= 3
    ensures forall c, d :: c in g && d in g ==> c.x - d.x <= w - 3
  {
    Max(g, X) - Min(g, X) + 3
  }

  /** The height Convert chooses: the span of Y plus a margin row above and below. */
  ghost function Height(g: set<Cell>): (h: int)
    requires g != {}
    ensures h >= 3
    ensures forall c, d :: c in g && d in g ==> c.y - d.y <= h - 3
  {
    Max(g, Y) - Min(g, Y) + 3
  }

  /** Where a cell lands in a row-major grid of the given width. */
  function Offset(c: Cell, width: int): int
  {
    c.x + c.y * width
  }

  /** The dense 0/1 picture of n entries: 1 exactly at the offsets of the cells. */
  ghost function Picture(g: set<Cell>, width: int, n: nat): (p: seq<int>)
    ensures |p| == n
  {
    seq(n, k => if exists c :: c in g && Offset(c, width) == k then 1 else 0)
  }

  /** What Convert needs to avoid IndexOutOfRangeException: every raw
      offset X + Y * width lies inside the width * height array. */
  ghost predicate OffsetsInRange(g: set<Cell>)
    requires g != {}
  {
    forall c :: c in g ==> 0 <= Offset(c, Width(g)) < Width(g) * Height(g)
  }

  /** The offsets of the cells of g. */
  ghost function Offsets(g: set<Cell>, width: int): set<int>
  {
    set c | c in g :: Offset(c, width)
  }

  /** With columns less than width apart, distinct cells have distinct offsets,
      so there are as many offsets as cells. */
  lemma {:induction false} OffsetsCount(g: set<Cell>, width: int)
    requires forall c, d :: c in g && d in g ==> c.x - d.x < width
    ensures |Offsets(g, width)| == |g|
    decreases |g|
  {
    if g != {} {
      var c :| c in g;
      var rest := g - {c};
      OffsetsCount(rest, width);
      assert Offsets(g, width) == Offsets(rest, width) + {Offset(c, width)};
      if Offset(c, width) in Offsets(rest, width) {
        var d :| d in rest && Offset(d, width) == Offset(c, width);
        OffsetInjective(c.x, c.y, d.x, d.y, width);
        assert false;
      }
    }
  }

  /** The positions of the 1s in a dense grid. */
  function Ones(s: seq<int>): set<int>
  {
    set k | 0 <= k < |s| && s[k] == 1
  }

  /** A picture whose cells all land inside it holds only 0s and 1s, and as
      many 1s as there are cells. */
  lemma PictureOnes(g: set<Cell>, width: int, n: nat)
    requires forall c, d :: c in g && d in g ==> c.x - d.x < width
    requires forall c :: c in g ==> 0 <= Offset(c, width) < n
    ensures forall k :: 0 <= k < n ==> Picture(g, width, n)[k] in {0, 1}
    ensures |Ones(Picture(g, width, n))| == |g|
  {
    var p := Picture(g, width, n);
    var ones := Ones(p);
    assert ones == Offsets(g, width) by {
      forall k | k in Offsets(g, width) ensures k in ones {
        var c :| c in g && Offset(c, width) == k;
      }
    }
    OffsetsCount(g, width);
  }

  /** Adding a cell to a picture sets its offset to 1 and leaves the rest alone. */
  lemma PictureAdd(g: set<Cell>, cell: Cell, width: int, n: nat)
    requires 0 <= Offset(cell, width) < n
    ensures Picture(g + {cell}, width, n)
            == Picture(g, width, n)[Offset(cell, width) := 1]
  {
    var before, after := Picture(g, width, n), Picture(g + {cell}, width, n);
    forall k | 0 <= k < n
      ensures after[k] == before[Offset(cell, width) := 1][k]
    {
      if k != Offset(cell, width) {
        assert (exists c :: c in g + {cell} && Offset(c, width) == k)
           <==> (exists c :: c in g && Offset(c, width) == k);
      }
    }
  }

  /** The Min and Max over X and Y that Convert takes of a non-empty generation. */
  method Extent(generation: set<Cell>) returns (minX: int, maxX: int, minY: int, maxY: int)
    requires generation != {}
    ensures minX == Min(generation, X) && maxX == Max(generation, X)
    ensures minY == Min(generation, Y) && maxY == Max(generation, Y)
  {
    var first :| first in generation;
    minX, maxX, minY, maxY := first.x, first.x, first.y, first.y;
    ghost var atMinX, atMaxX, atMinY, atMaxY := first, first, first, first;
    var pending := generation - {first};
    while pending != {}
      invariant pending <= generation
      invariant atMinX in generation && atMinX.x == minX
      invariant atMaxX in generation && atMaxX.x == maxX
      invariant atMinY in generation && atMinY.y == minY
      invariant atMaxY in generation && atMaxY.y == maxY
      invariant forall c :: c in generation && c !in pending ==> minX <= c.x <= maxX && minY <= c.y <= maxY
      decreases |pending|
    {
      var cell :| cell in pending;
      if cell.x < minX { minX, atMinX := cell.x, cell; }
      if cell.x > maxX { maxX, atMaxX := cell.x, cell; }
      if cell.y < minY { minY, atMinY := cell.y, cell; }
      if cell.y > maxY { maxY, atMaxY := cell.y, cell; }
      pending := pending - {cell};
    }
    ExtremeUnique(generation, minX, maxX, minY, maxY);
  }

  lemma ExtremeUnique(g: set<Cell>, minX: int, maxX: int, minY: int, maxY: int)
    requires g != {}
    requires forall c :: c in g ==> minX <= c.x <= maxX && minY <= c.y <= maxY
    requires exists c :: c in g && c.x == minX
    requires exists c :: c in g && c.x == maxX
    requires exists c :: c in g && c.y == minY
    requires exists c :: c in g && c.y == maxY
    ensures minX == Min(g, X) && maxX == Max(g, X) && minY == Min(g, Y) && maxY == Max(g, Y)
  {
    var a :| a in g && a.x == minX;
    var b :| b in g && b.x == maxX;
    var c :| c in g && c.y == minY;
    var d :| d in g && d.y == maxY;
    assert Coord(a, X) == minX && Coord(b, X) == maxX && Coord(c, Y) == minY && Coord(d, Y) == maxY;
    var e :| e in g && Coord(e, X) == Min(g, X);
    var f :| f in g && Coord(f, X) == Max(g, X);
    var h :| h in g && Coord(h, Y) == Min(g, Y);
    var k :| k in g && Coord(k, Y) == Max(g, Y);
  }

  /** The array of Convert: n zeros, then a 1 written at the offset of each
      cell in turn (the ForEach over the generation). */
  method Paint(generation: set<Cell>, width: int, n: nat) returns (result: seq<int>)
    requires forall c :: c in generation ==> 0 <= Offset(c, width) < n
    ensures result == Picture(generation, width, n)
  {
    var a := new int[n](_ => 0);
    assert a[..] == Picture({}, width, n);
    var pending := generation;
    while pending != {}
      invariant pending <= generation
      invariant a[..] == Picture(generation - pending, width, n)
      decreases |pending|
    {
      var cell :| cell in pending;
      PictureAdd(generation - pending, cell, width, n);
      a[cell.x + cell.y * width] := 1;
      assert generation - (pending - {cell}) == (generation - pending) + {cell};
      pending := pending - {cell};
    }
    assert generation - pending == generation;
    result := a[..];
  }

  /** Generation.Convert: a width * height array, with width and height the
      bounding box of the generation plus a one-cell margin, holding a 1 at the
      raw offset X + Y * width of every live cell and 0 elsewhere. The offsets
      are not shifted by the minimum coordinates. */
  method Convert(generation: set<Cell>) returns (result: seq<int>, width: int, height: int)
    requires generation != {}
    requires OffsetsInRange(generation)
    ensures width == Width(generation) && height == Height(generation)
    ensures width >= 3 && height >= 3 && |result| == width * height
    ensures result == Picture(generation, width, width * height)
    ensures forall k :: 0 <= k < |result| ==>
              (result[k] == 1 <==> exists c :: c in generation && c.x + c.y * width == k)
    ensures forall k :: 0 <= k < |result| ==> result[k] in {0, 1}
    ensures |Ones(result)| == |generation|
  {
    var minX, maxX, minY, maxY := Extent(generation);
    width := maxX - minX + 3;
    height := maxY - minY + 3;
    result := Paint(generation, width, width * height);
    PictureOnes(generation, width, width * height);
  }

  /** A picture of cells that all lie in the width * height box decodes back
      to exactly those cells. */
  lemma InitOfPicture(t: set<Cell>, width: int, height: int)
    requires width > 0 && height > 0
    requires forall c :: c in t ==> 0 <= c.x < width && 0 <= c.y < height
    ensures forall c :: c in t ==> 0 <= Offset(c, width) < width * height
    ensures Init(width, height, Picture(t, width, width * height)) == t
  {
    forall c: Cell | 0 <= c.x < width && 0 <= c.y < height
      ensures 0 <= Offset(c, width) < width * height
    {
      MulMono(c.y, height - 1, width);
      assert (height - 1) * width == width * height - width;
    }
    var p := Picture(t, width, width * height);
    forall c ensures c in Init(width, height, p) <==> c in t {
      InitCoordinates(width, height, p, c);
      if 0 <= c.x < width && 0 <= c.y < height && p[Offset(c, width)] == 1 {
        var d :| d in t && Offset(d, width) == Offset(c, width);
        OffsetInjective(d.x, d.y, c.x, c.y, width);
      }
    }
  }

  /** The cells of g moved by (dx, dy). */
  function Translate(g: set<Cell>, dx: int, dy: int): set<Cell>
  {
    set c | c in g :: Cell(c.x + dx, c.y + dy)
  }

  /** The layout the encoding is meant to produce: the generation moved so
      that its bounding box starts at (1, 1), inside the one-cell margin. */
  ghost function Centred(g: set<Cell>): (t: set<Cell>)
    requires g != {}
    ensures forall c :: c in t ==> 1 <= c.x <= Width(g) - 2 && 1 <= c.y <= Height(g) - 2
    ensures |t| == |g|
  {
    var dx, dy := 1 - Min(g, X), 1 - Min(g, Y);
    TranslateCount(g, dx, dy);
    var t := Translate(g, dx, dy);
    assert forall c :: c in t ==> 1 <= c.x <= Width(g) - 2 && 1 <= c.y <= Height(g) - 2 by {
      forall c | c in t ensures 1 <= c.x <= Width(g) - 2 && 1 <= c.y <= Height(g) - 2 {
        var d :| d in g && c == Cell(d.x + dx, d.y + dy);
        assert Coord(d, X) == d.x && Coord(d, Y) == d.y;
      }
    }
    t
  }

  /** Convert with the index shifted by the minimum coordinates:
      (X - minX + 1) + (Y - minY + 1) * width. Defined for every non-empty
      generation, and decoding its output gives back the centred generation. */
  method ConvertCentred(generation: set<Cell>) returns (result: seq<int>, width: int, height: int)
    requires generation != {}
    ensures width == Width(generation) && height == Height(generation)
    ensures result == Picture(Centred(generation), width, width * height)
    ensures |Ones(result)| == |generation|
    ensures Init(width, height, result) == Centred(generation)
  {
    var minX, maxX, minY, maxY := Extent(generation);
    width := maxX - minX + 3;
    height := maxY - minY + 3;
    var shifted := Translate(generation, 1 - minX, 1 - minY);
    assert 1 - minX == 1 - Min(generation, X) && 1 - minY == 1 - Min(generation, Y);
    assert shifted == Translate(generation, 1 - Min(generation, X), 1 - Min(generation, Y)) == Centred(generation);
    assert width == Width(generation) && height == Height(generation);
    CentredPicture(generation);
    CentredOnes(generation);
    result := Paint(shifted, width, width * height);
  }

  /** The centred generation fits the width * height grid with its margin,
      and decoding its picture gives it back. */
  lemma CentredPicture(g: set<Cell>)
    requires g != {}
    ensures forall c :: c in Centred(g) ==> 0 <= Offset(c, Width(g)) < Width(g) * Height(g)
    ensures Init(Width(g), Height(g), Picture(Centred(g), Width(g), Width(g) * Height(g))) == Centred(g)
  {
    InitOfPicture(Centred(g), Width(g), Height(g));
  }

  /** The picture of the centred generation has one 1 per cell. */
  lemma CentredOnes(g: set<Cell>)
    requires g != {}
    ensures |Ones(Picture(Centred(g), Width(g), Width(g) * Height(g)))| == |g|
  {
    var t, width := Centred(g), Width(g);
    CentredPicture(g);
    assert forall c, d :: c in t && d in t ==> c.x - d.x < width;
    PictureOnes(t, width, width * Height(g));
  }

  /** Moving a generation keeps its number of cells. */
  lemma {:induction false} TranslateCount(g: set<Cell>, dx: int, dy: int)
    ensures |Translate(g, dx, dy)| == |g|
    decreases |g|
  {
    if g != {} {
      var c :| c in g;
      TranslateCount(g - {c}, dx, dy);
      assert Translate(g, dx, dy) == Translate(g - {c}, dx, dy) + {Cell(c.x + dx, c.y + dy)};
    }
  }

  /** When the smallest X and Y are both 1, as in the Convert tests of
      GameOfLifeTests.cs:59-114, the raw offsets of Convert are in range and
      its picture is the centred one. */
  lemma ConvertCentredWhenMinIsOne(g: set<Cell>)
    requires g != {} && Min(g, X) == 1 && Min(g, Y) == 1
    ensures OffsetsInRange(g)
    ensures Centred(g) == g
    ensures Init(Width(g), Height(g), Picture(g, Width(g), Width(g) * Height(g))) == g
  {
    assert Translate(g, 0, 0) == g;
    InitOfPicture(g, Width(g), Height(g));
  }

  //////////////////////////////////////////////////////////////////////////
  // Next: one step of Conway's rule
  //////////////////////////////////////////////////////////////////////////

  /** What one live cell says about one position: whether the position is the
      live cell itself, and how much it adds to the position's neighbour count. */
  datatype Contribution = Contribution(alive: bool, x: int, y: int, density: int)

  /** The nine contributions of a live cell, in the order the source lists them:
      each of its eight neighbours gets (not alive, density 1), the cell itself
      gets (alive, density 0). */
  function Contributions(cell: Cell): (r: seq<Contribution>)
  {
    [ Contribution(false, cell.x - 1, cell.y - 1, 1),
      Contribution(false, cell.x + 0, cell.y - 1, 1),
      Contribution(false, cell.x + 1, cell.y - 1, 1),
      Contribution(false, cell.x - 1, cell.y + 0, 1),
      Contribution(true,  cell.x + 0, cell.y + 0, 0),
      Contribution(false, cell.x + 1, cell.y + 0, 1),
      Contribution(false, cell.x - 1, cell.y + 1, 1),
      Contribution(false, cell.x + 0, cell.y + 1, 1),
      Contribution(false, cell.x + 1, cell.y + 1, 1) ]
  }

  /** SelectMany: the contributions of the cells, one cell after another. */
  function Expand(cells: seq<Cell>): (r: seq<Contribution>)
    ensures |r| == 9 * |cells|
  {
    if cells == [] then [] else Contributions(cells[0]) + Expand(cells[1..])
  }

  predicate At(p: Contribution, x: int, y: int)
  {
    p.x == x && p.y == y
  }

  /** Any(each => each.alive) over the group of contributions at (x, y). */
  function GroupAlive(ps: seq<Contribution>, x: int, y: int): bool
  {
    if ps == [] then false
    else (At(ps[0], x, y) && ps[0].alive) || GroupAlive(ps[1..], x, y)
  }

  /** The grouped alive flag is Any: some contribution at (x, y) is alive. */
  lemma {:induction false} GroupAliveIsAny(ps: seq<Contribution>, x: int, y: int)
    ensures GroupAlive(ps, x, y) <==> exists i :: 0 <= i < |ps| && At(ps[i], x, y) && ps[i].alive
  {
    if ps != [] {
      GroupAliveIsAny(ps[1..], x, y);
      if exists i :: 0 <= i < |ps| && At(ps[i], x, y) && ps[i].alive {
        var i :| 0 <= i < |ps| && At(ps[i], x, y) && ps[i].alive;
        if i > 0 { assert ps[1..][i - 1] == ps[i]; }
      }
      if GroupAlive(ps[1..], x, y) {
        var j :| 0 <= j < |ps[1..]| && At(ps[1..][j], x, y) && ps[1..][j].alive;
        assert ps[j + 1] == ps[1..][j];
      }
    }
  }

  /** Sum(each => each.density) over the group of contributions at (x, y). */
  function GroupDensity(ps: seq<Contribution>, x: int, y: int): int
  {
    if ps == [] then 0
    else (if At(ps[0], x, y) then ps[0].density else 0) + GroupDensity(ps[1..], x, y)
  }

  /** The Where of Next: a group is kept with density 3, or alive with density 2. */
  predicate Survives(alive: bool, density: int)
  {
    density == 3 || (alive && density == 2)
  }

  /** Next's pipeline over an enumeration of the live cells: expand, group by
      coordinate, keep the surviving groups and turn each back into a cell. */
  function NextOf(cells: seq<Cell>): set<Cell>
  {
    var ps := Expand(cells);
    set i | 0 <= i < |ps| && Survives(GroupAlive(ps, ps[i].x, ps[i].y), GroupDensity(ps, ps[i].x, ps[i].y))
          :: Cell(ps[i].x, ps[i].y)
  }

  /** Generation.Next: the pipeline over the generation's cells in the order
      the sorted set enumerates them. */
  ghost function Next(generation: set<Cell>): set<Cell>
  {
    NextOf(SortedCells(generation))
  }

  // The reference rule

  /** The eight cells around c. */
  function Neighbours(c: Cell): set<Cell>
  {
    { Cell(c.x - 1, c.y - 1), Cell(c.x, c.y - 1), Cell(c.x + 1, c.y - 1),
      Cell(c.x - 1, c.y),                         Cell(c.x + 1, c.y),
      Cell(c.x - 1, c.y + 1), Cell(c.x, c.y + 1), Cell(c.x + 1, c.y + 1) }
  }

  /** How many of the eight cells around c are live in g. */
  function LiveNeighbours(g: set<Cell>, c: Cell): nat
  {
    |Neighbours(c) * g|
  }

  /** Conway's rule: a dead cell is born with exactly three live neighbours,
      a live cell survives with two or three, and every other cell is dead. */
  predicate ConwayRule(g: set<Cell>, c: Cell)
  {
    if c in g then LiveNeighbours(g, c) == 2 || LiveNeighbours(g, c) == 3
    else LiveNeighbours(g, c) == 3
  }

  /** How many entries of a sequence of cells are among the eight cells around c. */
  function CountNeighbours(cells: seq<Cell>, c: Cell): nat
  {
    if cells == [] then 0
    else (if cells[0] in Neighbours(c) then 1 else 0) + CountNeighbours(cells[1..], c)
  }

  // Proof of the grouping formulation

  /** Grouping distributes over concatenation: Sum adds up and Any ors. */
  lemma {:induction false} GroupAppend(a: seq<Contribution>, b: seq<Contribution>, x: int, y: int)
    ensures GroupDensity(a + b, x, y) == GroupDensity(a, x, y) + GroupDensity(b, x, y)
    ensures GroupAlive(a + b, x, y) == (GroupAlive(a, x, y) || GroupAlive(b, x, y))
  {
    if a == [] {
      assert a + b == b;
    } else {
      assert (a + b)[0] == a[0];
      assert (a + b)[1..] == a[1..] + b;
      GroupAppend(a[1..], b, x, y);
    }
  }

  /** One cell's nine contributions to position (x, y): density 1 exactly when
      the cell is one of the eight around (x, y), alive exactly when it is (x, y). */
  lemma ContributionsAt(d: Cell, x: int, y: int)
    ensures GroupDensity(Contributions(d), x, y) == if d in Neighbours(Cell(x, y)) then 1 else 0
    ensures GroupAlive(Contributions(d), x, y) <==> d == Cell(x, y)
  {
    var s := Contributions(d);
    assert s == [s[0]] + ([s[1]] + ([s[2]] + ([s[3]] + ([s[4]] + ([s[5]] + ([s[6]] + ([s[7]] + [s[8]])))))));
    GroupAppend([s[7]], [s[8]], x, y);
    GroupAppend([s[6]], [s[7]] + [s[8]], x, y);
    GroupAppend([s[5]], [s[6]] + ([s[7]] + [s[8]]), x, y);
    GroupAppend([s[4]], [s[5]] + ([s[6]] + ([s[7]] + [s[8]])), x, y);
    GroupAppend([s[3]], [s[4]] + ([s[5]] + ([s[6]] + ([s[7]] + [s[8]]))), x, y);
    GroupAppend([s[2]], [s[3]] + ([s[4]] + ([s[5]] + ([s[6]] + ([s[7]] + [s[8]])))), x, y);
    GroupAppend([s[1]], [s[2]] + ([s[3]] + ([s[4]] + ([s[5]] + ([s[6]] + ([s[7]] + [s[8]]))))), x, y);
    GroupAppend([s[0]], [s[1]] + ([s[2]] + ([s[3]] + ([s[4]] + ([s[5]] + ([s[6]] + ([s[7]] + [s[8]])))))), x, y);
  }

  /** The grouped density at (x, y) counts the live neighbours of (x, y);
      the grouped alive flag says whether (x, y) itself is live. */
  lemma {:induction false} GroupedCounts(cells: seq<Cell>, x: int, y: int)
    ensures GroupDensity(Expand(cells), x, y) == CountNeighbours(cells, Cell(x, y))
    ensures GroupAlive(Expand(cells), x, y) <==> Cell(x, y) in cells
  {
    if cells != [] {
      GroupedCounts(cells[1..], x, y);
      GroupAppend(Contributions(cells[0]), Expand(cells[1..]), x, y);
      ContributionsAt(cells[0], x, y);
      assert cells == [cells[0]] + cells[1..];
    }
  }

  /** A group with some alive flag or some density has a contribution at its coordinate. */
  lemma {:induction false} GroupHasMember(ps: seq<Contribution>, x: int, y: int)
    requires GroupAlive(ps, x, y) || GroupDensity(ps, x, y) != 0
    ensures exists i :: 0 <= i < |ps| && At(ps[i], x, y)
  {
    if !At(ps[0], x, y) {
      GroupHasMember(ps[1..], x, y);
      var i :| 0 <= i < |ps[1..]| && At(ps[1..][i], x, y);
      assert At(ps[i + 1], x, y);
    }
  }

  /** Whatever the enumeration, the pipeline keeps c exactly when its live
      neighbours number 3, or 2 with c itself live. */
  lemma NextOfMembership(cells: seq<Cell>, c: Cell)
    ensures c in NextOf(cells) <==> Survives(c in cells, CountNeighbours(cells, c))
  {
    var ps := Expand(cells);
    GroupedCounts(cells, c.x, c.y);
    if Survives(c in cells, CountNeighbours(cells, c)) {
      GroupHasMember(ps, c.x, c.y);
      var i :| 0 <= i < |ps| && At(ps[i], c.x, c.y);
      assert Cell(ps[i].x, ps[i].y) == c;
    }
  }

  /** Adding a cell x that r lacks adds one to the cells of r inside n when x is inside n. */
  lemma IntersectAdd(n: set<Cell>, r: set<Cell>, x: Cell)
    requires x !in r
    ensures |n * (r + {x})| == |n * r| + (if x in n then 1 else 0)
  {
    if x in n {
      assert n * (r + {x}) == n * r + {x};
    } else {
      assert n * (r + {x}) == n * r;
    }
  }

  /** On an enumeration of g without repeats, counting entries around c counts
      the live cells of g around c. */
  lemma {:induction false} CountNeighboursOfDistinct(cells: seq<Cell>, g: set<Cell>, c: Cell)
    requires forall i, j :: 0 <= i < j < |cells| ==> cells[i] != cells[j]
    requires forall d :: d in cells <==> d in g
    ensures CountNeighbours(cells, c) == LiveNeighbours(g, c)
  {
    if cells == [] {
      assert g == {};
    } else {
      var x, tail, rest := cells[0], cells[1..], g - {cells[0]};
      forall i, j | 0 <= i < j < |tail| ensures tail[i] != tail[j] {
        assert tail[i] == cells[i + 1] && tail[j] == cells[j + 1];
      }
      forall d ensures d in tail <==> d in rest {
        if d in tail {
          var i :| 0 <= i < |tail| && tail[i] == d;
          assert cells[i + 1] == d;
        }
        assert d in cells <==> d == x || d in tail;
      }
      CountNeighboursOfDistinct(tail, rest, c);
      assert g == rest + {x};
      IntersectAdd(Neighbours(c), rest, x);
    }
  }

  /** The grouping formulation is Conway's rule on any enumeration of g without
      repeats; the order in which the cells are expanded does not matter. */
  lemma NextOfIsConway(cells: seq<Cell>, g: set<Cell>, c: Cell)
    requires forall i, j :: 0 <= i < j < |cells| ==> cells[i] != cells[j]
    requires forall d :: d in cells <==> d in g
    ensures c in NextOf(cells) <==> ConwayRule(g, c)
  {
    NextOfMembership(cells, c);
    CountNeighboursOfDistinct(cells, g, c);
  }

  /** Next is Conway's transition: c is live in Next(g) exactly when it has 3
      live neighbours in g, or 2 and is live in g. */
  lemma NextIsConway(g: set<Cell>, c: Cell)
    ensures c in Next(g) <==> ConwayRule(g, c)
    ensures c in Next(g) <==> LiveNeighbours(g, c) == 3 || (c in g && LiveNeighbours(g, c) == 2)
  {
    var s := SortedCells(g);
    forall i, j | 0 <= i < j < |s| ensures s[i] != s[j] {
      StrictlySortedDistinct(s, i, j);
    }
    NextOfIsConway(s, g, c);
  }

  /** Next does not depend on the order of expansion: any enumeration of the
      generation without repeats gives the same next generation. */
  lemma NextOrderIndependent(g: set<Cell>, cells: seq<Cell>)
    requires forall i, j :: 0 <= i < j < |cells| ==> cells[i] != cells[j]
    requires forall d :: d in cells <==> d in g
    ensures NextOf(cells) == Next(g)
  {
    forall c ensures c in NextOf(cells) <==> c in Next(g) {
      NextOfIsConway(cells, g, c);
      NextIsConway(g, c);
    }
  }

  /** Next can be computed by counting: c is live in Next(g) exactly when,
      counted over any enumeration of g without repeats, its live neighbours
      make the group survive. */
  lemma NextByCounting(g: set<Cell>, cells: seq<Cell>, c: Cell)
    requires forall i, j :: 0 <= i < j < |cells| ==> cells[i] != cells[j]
    requires forall d :: d in cells <==> d in g
    ensures c in Next(g) <==> Survives(c in g, CountNeighbours(cells, c))
  {
    NextIsConway(g, c);
    CountNeighboursOfDistinct(cells, g, c);
  }

  /** Every cell of the next generation touches a live cell of g: it is within
      one step of it in both directions. */
  lemma NextIsLocal(g: set<Cell>, c: Cell)
    requires c in Next(g)
    ensures exists d :: d in g && d in Neighbours(c)
  {
    NextIsConway(g, c);
    assert Neighbours(c) * g != {};
  }

  /** An empty generation stays empty. */
  lemma NextOfEmpty()
    ensures Next({}) == {}
  {
    forall c | c in Next({}) ensures false {
      NextIsLocal({}, c);
    }
  }
}
