/// The concrete generations the repository's tests are written about: the
/// period-2 blinker and the seven-cell still life the tests call a boat,
/// decoded by Init, encoded by Convert and stepped by Next, plus the blinker
/// moved to negative columns, on which Convert's raw offsets go wrong.
module Scenarios {
  import opened Cells
  import opened Generation

  const BlinkerRowGrid: seq<int> := [0, 0, 0,
                                     1, 1, 1,
                                     0, 0, 0]

  const BoatGrid: seq<int> := [0, 0, 0, 0, 0, 0,
                               0, 0, 1, 1, 0, 0,
                               0, 1, 0, 0, 1, 0,
                               0, 0, 1, 0, 1, 0,
                               0, 0, 0, 1, 0, 0,
                               0, 0, 0, 0, 0, 0]

  /** The blinker lying in row 1 of a 5 * 3 grid, with its margin. */
  const BlinkerPicture: seq<int> := [0, 0, 0, 0, 0,
                                     0, 1, 1, 1, 0,
                                     0, 0, 0, 0, 0]

  /** The same 5 * 3 grid with the three 1s in its top row instead. */
  const TopRowPicture: seq<int> := [0, 0, 1, 1, 1,
                                    0, 0, 0, 0, 0,
                                    0, 0, 0, 0, 0]

  //////////////////////////////////////////////////////////////////////////
  // Init
  //////////////////////////////////////////////////////////////////////////

  /** Decoding the 3 * 3 grid with its middle row set gives the horizontal blinker. */
  lemma InitBlinker()
    ensures Init(3, 3, BlinkerRowGrid) == {Cell(0, 1), Cell(1, 1), Cell(2, 1)}
  {
    forall c ensures c in Init(3, 3, BlinkerRowGrid) <==> c in {Cell(0, 1), Cell(1, 1), Cell(2, 1)} {
      InitCoordinates(3, 3, BlinkerRowGrid, c);
    }
  }

  /** Decoding the 6 * 6 boat grid gives its seven cells. */
  lemma InitBoat()
    ensures Init(6, 6, BoatGrid)
            == {Cell(2, 1), Cell(3, 1), Cell(1, 2), Cell(4, 2), Cell(2, 3), Cell(4, 3), Cell(3, 4)}
  {
    forall c ensures c in Init(6, 6, BoatGrid)
                 <==> c in {Cell(2, 1), Cell(3, 1), Cell(1, 2), Cell(4, 2), Cell(2, 3), Cell(4, 3), Cell(3, 4)} {
      InitCoordinates(6, 6, BoatGrid, c);
    }
  }

  //////////////////////////////////////////////////////////////////////////
  // Convert
  //////////////////////////////////////////////////////////////////////////

  /** The blinker in columns 1 to 3 of row 1 gets a 5 * 3 grid, its raw
      offsets lie inside it, and its picture is the blinker with its margin. */
  lemma ConvertBlinker(g: set<Cell>)
    requires g == {Cell(1, 1), Cell(2, 1), Cell(3, 1)}
    ensures Width(g) == 5 && Height(g) == 3 && OffsetsInRange(g)
    ensures Picture(g, 5, 15) == BlinkerPicture
  {
    ExtremeUnique(g, 1, 3, 1, 1);
    var p := Picture(g, 5, 15);
    forall k | 0 <= k < 15 ensures p[k] == BlinkerPicture[k] {
      if 6 <= k <= 8 {
        assert Cell(k - 5, 1) in g && Offset(Cell(k - 5, 1), 5) == k;
      }
    }
  }

  /** The boat gets a 6 * 6 grid and its raw offsets lie inside it. */
  lemma ConvertBoatDimensions(g: set<Cell>)
    requires g == {Cell(2, 1), Cell(3, 1), Cell(1, 2), Cell(4, 2), Cell(2, 3), Cell(4, 3), Cell(3, 4)}
    ensures Width(g) == 6 && Height(g) == 6 && OffsetsInRange(g)
  {
    ExtremeUnique(g, 1, 4, 1, 4);
  }

  /** The picture of the boat on a 6 * 6 grid is the grid Init decodes it from. */
  lemma ConvertBoatPicture(g: set<Cell>)
    requires g == {Cell(2, 1), Cell(3, 1), Cell(1, 2), Cell(4, 2), Cell(2, 3), Cell(4, 3), Cell(3, 4)}
    ensures Picture(g, 6, 36) == BoatGrid
  {
    var p := Picture(g, 6, 36);
    forall k | 0 <= k < 36 ensures p[k] == BoatGrid[k] {
      var c := Cell(k % 6, k / 6);
      if c in g {
        assert Offset(c, 6) == k;
      }
    }
  }

  /** Convert on the blinker: the 5 * 3 grid with the blinker in its middle row. */
  method ConvertBlinkerGrid() returns (result: seq<int>, width: int, height: int)
    ensures width == 5 && height == 3 && result == BlinkerPicture
  {
    var g := {Cell(1, 1), Cell(2, 1), Cell(3, 1)};
    ConvertBlinker(g);
    result, width, height := Convert(g);
  }

  /** Convert on the boat: the 6 * 6 grid it was decoded from. */
  method ConvertBoatGrid() returns (result: seq<int>, width: int, height: int)
    ensures width == 6 && height == 6 && result == BoatGrid
  {
    var g := {Cell(2, 1), Cell(3, 1), Cell(1, 2), Cell(4, 2), Cell(2, 3), Cell(4, 3), Cell(3, 4)};
    ConvertBoatDimensions(g);
    ConvertBoatPicture(g);
    result, width, height := Convert(g);
  }

  /** The blinker in columns -3 to -1: Convert's raw offsets X + Y * width are
      2, 3 and 4, which lie inside the 5 * 3 grid but in its top margin row. */
  lemma NegativeBlinkerPicture(g: set<Cell>)
    requires g == {Cell(-1, 1), Cell(-2, 1), Cell(-3, 1)}
    ensures Width(g) == 5 && Height(g) == 3 && OffsetsInRange(g)
    ensures Picture(g, 5, 15) == TopRowPicture
  {
    ExtremeUnique(g, -3, -1, 1, 1);
    var p := Picture(g, 5, 15);
    forall k | 0 <= k < 15 ensures p[k] == TopRowPicture[k] {
      if 2 <= k <= 4 {
        assert Cell(k - 5, 1) in g && Offset(Cell(k - 5, 1), 5) == k;
      }
    }
  }

  lemma TopRowIsNotBlinker()
    ensures TopRowPicture != BlinkerPicture
  {
    assert TopRowPicture[2] != BlinkerPicture[2];
  }

  /** Decoding the top-row grid gives a blinker in row 0. */
  lemma InitTopRow()
    ensures Init(5, 3, TopRowPicture) == {Cell(2, 0), Cell(3, 0), Cell(4, 0)}
  {
    forall c ensures c in Init(5, 3, TopRowPicture) <==> c in {Cell(2, 0), Cell(3, 0), Cell(4, 0)} {
      InitCoordinates(5, 3, TopRowPicture, c);
    }
  }

  /** So Convert as written does not give the blinker in the middle row, and
      decoding its grid gives a blinker in row 0 instead of the centred one. */
  lemma NegativeBlinkerAsWritten(g: set<Cell>)
    requires g == {Cell(-1, 1), Cell(-2, 1), Cell(-3, 1)}
    ensures Picture(g, Width(g), Width(g) * Height(g)) != BlinkerPicture
    ensures Init(Width(g), Height(g), Picture(g, Width(g), Width(g) * Height(g)))
            == {Cell(2, 0), Cell(3, 0), Cell(4, 0)}
    ensures Centred(g) != {Cell(2, 0), Cell(3, 0), Cell(4, 0)}
  {
    NegativeBlinkerPicture(g);
    NegativeBlinkerCentred(g);
    InitTopRow();
    TopRowIsNotBlinker();
    assert Cell(1, 1) in Centred(g);
  }

  /** A single cell one row above the origin: Convert as written computes the
      index -3 for it, outside the 3 * 3 array. */
  lemma RowAboveOriginOutOfRange(g: set<Cell>)
    requires g == {Cell(0, -1)}
    ensures Width(g) == 3 && Height(g) == 3
    ensures Offset(Cell(0, -1), Width(g)) == -3
    ensures !OffsetsInRange(g)
  {
    assert Max(g, X) == 0 && Min(g, X) == 0;
    assert Max(g, Y) == -1 && Min(g, Y) == -1;
  }

  /** Convert as written on the negative blinker: a 5 * 3 grid whose 1s are in row 0. */
  method ConvertNegativeBlinker() returns (result: seq<int>, width: int, height: int)
    ensures width == 5 && height == 3
    ensures result != BlinkerPicture
    ensures result == TopRowPicture
  {
    var g := {Cell(-1, 1), Cell(-2, 1), Cell(-3, 1)};
    NegativeBlinkerPicture(g);
    NegativeBlinkerAsWritten(g);
    result, width, height := Convert(g);
  }

  /** Centring the negative blinker moves it to columns 1 to 3 of row 1. */
  lemma NegativeBlinkerCentred(g: set<Cell>)
    requires g == {Cell(-1, 1), Cell(-2, 1), Cell(-3, 1)}
    ensures Width(g) == 5 && Height(g) == 3
    ensures Centred(g) == {Cell(1, 1), Cell(2, 1), Cell(3, 1)}
  {
    ExtremeUnique(g, -3, -1, 1, 1);
    var t, expected := Translate(g, 4, 0), {Cell(1, 1), Cell(2, 1), Cell(3, 1)};
    forall c ensures c in t <==> c in expected {
      if c in expected {
        assert Cell(c.x - 4, c.y) in g;
      }
    }
    assert t == expected;
  }

  /** The centred encoding of the negative blinker is the grid the
      negative-position test expects: the blinker in the middle row. */
  method ConvertCentredNegativeBlinker() returns (result: seq<int>, width: int, height: int)
    ensures width == 5 && height == 3 && result == BlinkerPicture
  {
    var g := {Cell(-1, 1), Cell(-2, 1), Cell(-3, 1)};
    NegativeBlinkerCentred(g);
    ConvertBlinker(Centred(g));
    result, width, height := ConvertCentred(g);
  }

  //////////////////////////////////////////////////////////////////////////
  // Next
  //////////////////////////////////////////////////////////////////////////

  /** One entry's share of CountNeighbours: 1 when d is one of the eight cells around c. */
  function Near(d: Cell, c: Cell): int
  {
    if d in Neighbours(c) then 1 else 0
  }

  lemma CountCons(d: Cell, rest: seq<Cell>, c: Cell)
    ensures CountNeighbours([d] + rest, c) == Near(d, c) + CountNeighbours(rest, c)
  {
    assert ([d] + rest)[1..] == rest;
  }

  /** Next(g) is a given set once counting over an enumeration of g says so for every cell. */
  lemma NextFromCounts(g: set<Cell>, cells: seq<Cell>, expected: set<Cell>)
    requires forall i, j :: 0 <= i < j < |cells| ==> cells[i] != cells[j]
    requires forall d :: d in cells <==> d in g
    requires forall c :: Survives(c in g, CountNeighbours(cells, c)) <==> c in expected
    ensures Next(g) == expected
  {
    forall c ensures c in Next(g) <==> c in expected {
      NextByCounting(g, cells, c);
    }
  }

  // The blinker

  lemma BlinkerEnumeration(g: set<Cell>, cells: seq<Cell>)
    requires g == {Cell(0, 1), Cell(1, 1), Cell(2, 1)}
    requires cells == [Cell(0, 1), Cell(1, 1), Cell(2, 1)]
    ensures forall i, j :: 0 <= i < j < |cells| ==> cells[i] != cells[j]
    ensures forall d :: d in cells <==> d in g
  {
  }

  lemma BlinkerCount(cells: seq<Cell>, c: Cell)
    requires cells == [Cell(0, 1), Cell(1, 1), Cell(2, 1)]
    ensures CountNeighbours(cells, c) == Near(Cell(0, 1), c) + Near(Cell(1, 1), c) + Near(Cell(2, 1), c)
  {
    CountCons(Cell(2, 1), [], c);
    CountCons(Cell(1, 1), [Cell(2, 1)], c);
    CountCons(Cell(0, 1), [Cell(1, 1), Cell(2, 1)], c);
    assert cells == [Cell(0, 1)] + ([Cell(1, 1)] + ([Cell(2, 1)] + []));
  }

  lemma BlinkerRule(c: Cell)
    ensures Survives(c in {Cell(0, 1), Cell(1, 1), Cell(2, 1)},
                     Near(Cell(0, 1), c) + Near(Cell(1, 1), c) + Near(Cell(2, 1), c))
            <==> c in {Cell(1, 0), Cell(1, 1), Cell(1, 2)}
  {
  }

  /** The horizontal blinker turns vertical around its middle cell. */
  lemma NextBlinker(g: set<Cell>)
    requires g == {Cell(0, 1), Cell(1, 1), Cell(2, 1)}
    ensures Next(g) == {Cell(1, 0), Cell(1, 1), Cell(1, 2)}
  {
    var cells := [Cell(0, 1), Cell(1, 1), Cell(2, 1)];
    BlinkerEnumeration(g, cells);
    forall c ensures Survives(c in g, CountNeighbours(cells, c)) <==> c in {Cell(1, 0), Cell(1, 1), Cell(1, 2)} {
      BlinkerCount(cells, c);
      BlinkerRule(c);
    }
    NextFromCounts(g, cells, {Cell(1, 0), Cell(1, 1), Cell(1, 2)});
  }

  lemma VerticalEnumeration(g: set<Cell>, cells: seq<Cell>)
    requires g == {Cell(1, 0), Cell(1, 1), Cell(1, 2)}
    requires cells == [Cell(1, 0), Cell(1, 1), Cell(1, 2)]
    ensures forall i, j :: 0 <= i < j < |cells| ==> cells[i] != cells[j]
    ensures forall d :: d in cells <==> d in g
  {
  }

  lemma VerticalCount(cells: seq<Cell>, c: Cell)
    requires cells == [Cell(1, 0), Cell(1, 1), Cell(1, 2)]
    ensures CountNeighbours(cells, c) == Near(Cell(1, 0), c) + Near(Cell(1, 1), c) + Near(Cell(1, 2), c)
  {
    CountCons(Cell(1, 2), [], c);
    CountCons(Cell(1, 1), [Cell(1, 2)], c);
    CountCons(Cell(1, 0), [Cell(1, 1), Cell(1, 2)], c);
    assert cells == [Cell(1, 0)] + ([Cell(1, 1)] + ([Cell(1, 2)] + []));
  }

  lemma VerticalRule(c: Cell)
    ensures Survives(c in {Cell(1, 0), Cell(1, 1), Cell(1, 2)},
                     Near(Cell(1, 0), c) + Near(Cell(1, 1), c) + Near(Cell(1, 2), c))
            <==> c in {Cell(0, 1), Cell(1, 1), Cell(2, 1)}
  {
  }

  /** The vertical blinker turns back into the horizontal one. */
  lemma NextBlinkerBack(g: set<Cell>)
    requires g == {Cell(1, 0), Cell(1, 1), Cell(1, 2)}
    ensures Next(g) == {Cell(0, 1), Cell(1, 1), Cell(2, 1)}
  {
    var cells := [Cell(1, 0), Cell(1, 1), Cell(1, 2)];
    VerticalEnumeration(g, cells);
    forall c ensures Survives(c in g, CountNeighbours(cells, c)) <==> c in {Cell(0, 1), Cell(1, 1), Cell(2, 1)} {
      VerticalCount(cells, c);
      VerticalRule(c);
    }
    NextFromCounts(g, cells, {Cell(0, 1), Cell(1, 1), Cell(2, 1)});
  }

  lemma HorizontalIsNotVertical()
    ensures {Cell(0, 1), Cell(1, 1), Cell(2, 1)} != {Cell(1, 0), Cell(1, 1), Cell(1, 2)}
  {
    assert Cell(0, 1) !in {Cell(1, 0), Cell(1, 1), Cell(1, 2)};
  }

  /** The blinker oscillates with period 2: two steps give it back, one does not. */
  lemma BlinkerPeriodTwo(h: set<Cell>)
    requires h == {Cell(0, 1), Cell(1, 1), Cell(2, 1)}
    ensures Next(h) != h
    ensures Next(Next(h)) == h
  {
    var v := {Cell(1, 0), Cell(1, 1), Cell(1, 2)};
    NextBlinker(h);
    NextBlinkerBack(v);
    HorizontalIsNotVertical();
  }

  // The boat

  lemma BoatEnumeration(g: set<Cell>, cells: seq<Cell>)
    requires g == {Cell(2, 1), Cell(3, 1), Cell(1, 2), Cell(4, 2), Cell(2, 3), Cell(4, 3), Cell(3, 4)}
    requires cells == [Cell(2, 1), Cell(3, 1), Cell(1, 2), Cell(4, 2), Cell(2, 3), Cell(4, 3), Cell(3, 4)]
    ensures forall i, j :: 0 <= i < j < |cells| ==> cells[i] != cells[j]
    ensures forall d :: d in cells <==> d in g
  {
  }

  lemma BoatCount(cells: seq<Cell>, c: Cell)
    requires cells == [Cell(2, 1), Cell(3, 1), Cell(1, 2), Cell(4, 2), Cell(2, 3), Cell(4, 3), Cell(3, 4)]
    ensures CountNeighbours(cells, c)
            == Near(Cell(2, 1), c) + Near(Cell(3, 1), c) + Near(Cell(1, 2), c) + Near(Cell(4, 2), c)
               + Near(Cell(2, 3), c) + Near(Cell(4, 3), c) + Near(Cell(3, 4), c)
  {
    var s6 := [Cell(3, 4)];
    var s5 := [Cell(4, 3)] + s6;
    var s4 := [Cell(2, 3)] + s5;
    var s3 := [Cell(4, 2)] + s4;
    var s2 := [Cell(1, 2)] + s3;
    var s1 := [Cell(3, 1)] + s2;
    assert cells == [Cell(2, 1)] + s1;
    CountCons(Cell(3, 4), [], c);
    assert s6 == [Cell(3, 4)] + [];
    CountCons(Cell(4, 3), s6, c);
    CountCons(Cell(2, 3), s5, c);
    CountCons(Cell(4, 2), s4, c);
    CountCons(Cell(1, 2), s3, c);
    CountCons(Cell(3, 1), s2, c);
    CountCons(Cell(2, 1), s1, c);
  }

  lemma BoatRule(c: Cell)
    ensures var boat := {Cell(2, 1), Cell(3, 1), Cell(1, 2), Cell(4, 2), Cell(2, 3), Cell(4, 3), Cell(3, 4)};
            Survives(c in boat,
                     Near(Cell(2, 1), c) + Near(Cell(3, 1), c) + Near(Cell(1, 2), c) + Near(Cell(4, 2), c)
                     + Near(Cell(2, 3), c) + Near(Cell(4, 3), c) + Near(Cell(3, 4), c))
            <==> c in boat
  {
  }

  /** The boat is a still life: Next gives it back unchanged. */
  lemma NextBoat(g: set<Cell>)
    requires g == {Cell(2, 1), Cell(3, 1), Cell(1, 2), Cell(4, 2), Cell(2, 3), Cell(4, 3), Cell(3, 4)}
    ensures Next(g) == g
  {
    var cells := [Cell(2, 1), Cell(3, 1), Cell(1, 2), Cell(4, 2), Cell(2, 3), Cell(4, 3), Cell(3, 4)];
    BoatEnumeration(g, cells);
    forall c ensures Survives(c in g, CountNeighbours(cells, c)) <==> c in g {
      BoatCount(cells, c);
      BoatRule(c);
    }
    NextFromCounts(g, cells, g);
  }
}
