# Conway's Game of Life: cells, codec and transition

This project models the core of a C# Game of Life kata, with its proofs:

- **Cell** (`cell.dfy`, module `Cells`) is the immutable integer coordinate.
  - Equality is structural, and `==` and `!=` agree with it.
  - The hash code uses unchecked 32-bit arithmetic.
  - `CompareTo` is lexicographic: X first, then Y.
- **The order of a generation** (`cell_order.dfy`, module `CellOrder`).
  - A generation is an `ImmutableSortedSet<Cell>`.
  - Its enumeration is modelled as the sequence of its cells in strictly increasing `CompareTo` order.
  - `CompareTo` is proved to be a strict total order, which is what makes that sequence well defined.
- **Generation** (`generation.dfy`, module `Generation`) is the static class with three operations:
  - `Init` decodes a row-major `width * height` grid of integers into the set of live cells.
  - `Convert` encodes a non-empty set of live cells as a dense 0/1 array, sized to the bounding box plus a one-cell margin. It is an imperative method that fills an array in a loop.
  - `Next` is one step of Conway's rule. It follows the source's pipeline: nine contributions per live cell, grouped by coordinate, with `Any` of the alive flags and `Sum` of the densities.
  - The central lemma shows that this pipeline is the usual rule: birth with three live neighbours, survival with two or three.
- **Scenarios** (`scenarios.dfy`, module `Scenarios`) restates the repository's test cases as lemmas and small methods:
  - the blinker and the seven-cell "boat", decoded, encoded and stepped;
  - the blinker moved to negative columns.

A generation is a Dafny `set<Cell>`, and an input or output grid is a `seq<int>`. Integers are unbounded.

## Model

| member | source | states |
|---|---|---|
| Cells.IntCompareTo | Cell.cs:54-57 | Int32.CompareTo gives -1, 0 or 1, and its sign is that of a - b |
| Cells.Equals | Cell.cs:21-24 | Equals holds exactly when both coordinates agree, that is, for the same cell value |
| Cells.EqualsOperator | Cell.cs:42-45 | `==` holds exactly for equal cells |
| Cells.NotEqualsOperator | Cell.cs:47-50 | `!=` is the negation of `==`, and holds exactly for different cells |
| Cells.GetHashCode | Cell.cs:34-40 | the unchecked hash: the low 32 bits of X * 397 xor the low 32 bits of Y, read as a signed Int32; its meaning is given by HashConsistentWithEquals and HashCollision |
| Cells.HashConsistentWithEquals | Cell.cs:34-40 | cells that are Equals have the same unchecked `(X * 397) ^ Y` hash code |
| Cells.HashCollision | Cell.cs:34-40 | the hash does not identify a cell: (1, 0) and (0, 397) are different cells, and both hash to 397 |
| Cells.CompareTo | Cell.cs:52-59 | the result is -1, 0 or 1; it is negative (positive) exactly when X is smaller (larger), or X is equal and Y is smaller (larger); when the X values differ it is the X comparison |
| Cells.CompareToZeroIffEquals | Cell.cs:52-59 | CompareTo returns 0 exactly for cells that are Equals |
| Cells.CompareToAntisymmetric | Cell.cs:52-59 | swapping the arguments negates the result |
| Cells.CompareToTransitive | Cell.cs:52-59 | "at most" is transitive, and strictly below if either step is strict |
| Cells.CompareToTotal | Cell.cs:52-59 | any two cells are ordered one way or the other, or are the same cell |
| CellOrder.LeastExists | Generation.cs:39-43 | every non-empty generation has a smallest cell under CompareTo, which is where its sorted enumeration starts |
| CellOrder.LeastUnique | Generation.cs:39-43 | the smallest cell is unique |
| CellOrder.SortedCells | Generation.cs:41-43 | the sorted set's enumeration lists every cell of the generation exactly once, in strictly increasing CompareTo order |
| CellOrder.StrictlySortedDistinct | Generation.cs:41-43 | a strictly increasing enumeration repeats no cell |
| Generation.ElementAtOrDefault | Generation.cs:13 | the input value at index i, or 0 (default(int)) past the end of the input; InitAt and InitCoordinates state what Init makes of it |
| Generation.Init | Generation.cs:9-17 | with positive width and height, every decoded cell lies in the width * height box; with width * height == 0, no cell is decoded |
| Generation.InitAt | Generation.cs:11-16 | index i of the grid decodes to cell (i % width, i / width), which is live exactly when i is inside the input and the value there is positive |
| Generation.InitCoordinates | Generation.cs:11-16 | with positive dimensions, a cell is live exactly when it lies in the box and the input is positive at X + Y * width; there are no other cells, and entries past the end of the input read as dead |
| Generation.ExtremesExist | Generation.cs:23-24 | a non-empty generation has a largest and a smallest X and Y |
| Generation.Max | Generation.cs:23-24 | Enumerable.Max of a coordinate: some cell has it and no cell exceeds it |
| Generation.Min | Generation.cs:23-24 | Enumerable.Min of a coordinate: some cell has it and no cell is below it |
| Generation.Width | Generation.cs:23 | maxX - minX + 3 is at least 3 and exceeds every difference of two X values by at least 3 |
| Generation.Height | Generation.cs:24 | maxY - minY + 3 is at least 3 and exceeds every difference of two Y values by at least 3 |
| Generation.Picture | Generation.cs:27-31 | the dense picture of a set of cells has exactly n entries |
| Generation.OffsetsInRange | Generation.cs:31 | every raw index X + Y * width is inside the width * height array, the condition under which the array write does not throw; Convert requires it, and Scenarios.RowAboveOriginOutOfRange shows it can fail |
| Generation.OffsetsCount | Generation.cs:31 | when the X values are less than width apart, the index map X + Y * width is injective: as many indices as cells |
| Generation.PictureOnes | Generation.cs:27-31 | a picture whose indices all lie inside it holds only 0s and 1s, with as many 1s as cells |
| Generation.PictureAdd | Generation.cs:31 | writing the 1 of one more cell changes exactly the entry at its index |
| Generation.ExtremeUnique | Generation.cs:23-24 | values attained by cells that bound all cells are Max and Min |
| Generation.Extent | Generation.cs:23-24 | the loop over the generation returns exactly Min and Max of X and of Y |
| Generation.Paint | Generation.cs:27-31 | the zeroed array, after a 1 is written at X + Y * width for each cell in any order, is the picture of the generation |
| Generation.Convert | Generation.cs:19-37 | for a non-empty generation whose raw indices are in range: width and height are the bounding box plus margin (both at least 3); the array has width * height entries; entry k is 1 exactly when some cell has X + Y * width == k, and 0 otherwise; there are as many 1s as cells |
| Generation.InitOfPicture | Generation.cs:11-16 | decoding the picture of cells that lie in the width * height box gives back exactly those cells |
| Generation.Centred | Generation.cs:21-25 | the generation moved so that its bounding box starts at (1, 1) lies in [1, width - 2] x [1, height - 2], and has as many cells |
| Generation.TranslateCount | Generation.cs:29-31 | helper of the corrected encoding ConvertCentred, whose shifted index moves every cell by the same amount: moving a generation keeps its number of cells |
| Generation.CentredPicture | Generation.cs:27-31 | the centred generation's indices lie inside the width * height array, and decoding its picture gives it back |
| Generation.CentredOnes | Generation.cs:27-31 | the centred picture has one 1 per live cell |
| Generation.ConvertCentred | Generation.cs:19-37 | the corrected encoding, index (X - minX + 1) + (Y - minY + 1) * width: it is defined for every non-empty generation, has the same width and height, one 1 per cell, and Init of its output is the centred generation |
| Generation.ConvertCentredWhenMinIsOne | Generation.cs:21-31 | when min X and min Y are both 1, the raw indices are in range, centring changes nothing, and decoding Convert's picture gives the generation back |
| Generation.Contributions | Generation.cs:44-57 | the nine anonymous records one cell contributes: density 1 and not alive at its eight neighbours, alive with density 0 at itself; ContributionsAt gives their grouped meaning |
| Generation.Expand | Generation.cs:43-57 | SelectMany emits nine contributions per live cell |
| Generation.GroupAlive | Generation.cs:62 | Any(each => each.alive) over the contributions at one coordinate; GroupAliveIsAny and GroupedCounts give its meaning |
| Generation.GroupAliveIsAny | Generation.cs:62 | the grouped alive flag holds exactly when some contribution at that coordinate is alive |
| Generation.GroupDensity | Generation.cs:65 | Sum(each => each.density) over the contributions at one coordinate; GroupedCounts shows it counts the live neighbours |
| Generation.Survives | Generation.cs:67-69 | the Where: a group is kept with density 3, or alive with density 2; NextOfMembership applies it per cell |
| Generation.NextOf | Generation.cs:41-70 | the pipeline over a given enumeration: expand, group by coordinate, keep the surviving groups, turn each into a cell; NextOfIsConway gives its meaning |
| Generation.Next | Generation.cs:39-71 | the pipeline over the sorted enumeration of the generation; NextIsConway shows it is Conway's rule |
| Generation.GroupAppend | Generation.cs:58-66 | per coordinate, Sum adds up and Any ors over concatenated contributions |
| Generation.ContributionsAt | Generation.cs:44-57 | one cell's nine contributions give density 1 at exactly its eight neighbours, and alive exactly at itself |
| Generation.GroupedCounts | Generation.cs:43-66 | the grouped density at a coordinate counts the live cells around it, and the grouped alive flag says whether it is live |
| Generation.GroupHasMember | Generation.cs:58-64 | a coordinate with an alive flag or a density has a contribution, so it forms a group |
| Generation.NextOfMembership | Generation.cs:41-70 | a cell is kept exactly when its density is 3, or it is alive and its density is 2 |
| Generation.CountNeighboursOfDistinct | Generation.cs:41-43 | counting around a cell over an enumeration without repeats gives its number of live neighbours |
| Generation.NextOfIsConway | Generation.cs:39-71 | on any enumeration of g without repeats, the pipeline keeps a cell exactly when Conway's rule makes it live |
| Generation.NextIsConway | Generation.cs:39-71 | a cell is live in Next(g) exactly when it has 3 live neighbours in g, or it is live in g and has 2 |
| Generation.NextOrderIndependent | Generation.cs:41-43 | every enumeration of g without repeats gives the same next generation as the sorted one |
| Generation.NextByCounting | Generation.cs:41-69 | Next(g) can be computed by counting neighbours over any enumeration of g without repeats |
| Generation.NextIsLocal | Generation.cs:43-57 | every cell of Next(g) has a live cell of g among its eight neighbours |
| Generation.NextOfEmpty | Generation.cs:39-71 | an empty generation stays empty |
| Scenarios.InitBlinker | GameOfLifeTests.cs:10-29 | the 3 x 3 grid with its middle row set decodes to (0, 1), (1, 1), (2, 1) |
| Scenarios.InitBoat | GameOfLifeTests.cs:31-57 | the 6 x 6 boat grid decodes to its seven cells |
| Scenarios.ConvertBlinker | GameOfLifeTests.cs:59-82 | the blinker at X 1 to 3 of row 1 gets width 5 and height 3, its indices are in range, and its picture has the middle row 0, 1, 1, 1, 0 |
| Scenarios.ConvertBlinkerGrid | GameOfLifeTests.cs:59-82 | Convert returns that 5 x 3 grid |
| Scenarios.ConvertBoatDimensions | GameOfLifeTests.cs:84-114 | the boat gets a 6 x 6 grid, with its indices in range |
| Scenarios.ConvertBoatPicture | GameOfLifeTests.cs:84-114 | the boat's picture is the grid it is decoded from |
| Scenarios.ConvertBoatGrid | GameOfLifeTests.cs:84-114 | Convert returns that 6 x 6 grid |
| Scenarios.NegativeBlinkerPicture | CodeRetreat20130427/GameOfLifeTests.cs:117-139 | for the blinker at X -3 to -1, the raw indices 2, 3 and 4 lie in the 5 x 3 grid, but in its top row |
| Scenarios.NegativeBlinkerAsWritten | CodeRetreat20130427/GameOfLifeTests.cs:117-139 | Convert's picture of that blinker is not the expected grid, and it decodes to a blinker in row 0, not the centred one |
| Scenarios.RowAboveOriginOutOfRange | Generation.cs:23-31 | for the single cell (0, -1), Convert computes a 3 x 3 grid and the raw index -3, so its indices are not in range |
| Scenarios.ConvertNegativeBlinker | CodeRetreat20130427/GameOfLifeTests.cs:117-139 | Convert as written returns the top-row grid, not the expected one |
| Scenarios.NegativeBlinkerCentred | CodeRetreat20130427/GameOfLifeTests.cs:117-139 | centring moves that blinker to X 1 to 3 of row 1 |
| Scenarios.ConvertCentredNegativeBlinker | CodeRetreat20130427/GameOfLifeTests.cs:117-139 | the corrected encoding returns the grid the test expects |
| Scenarios.NextBlinker | GameOfLifeTests.cs:116-134 | the horizontal blinker (0, 1), (1, 1), (2, 1) steps to the vertical (1, 0), (1, 1), (1, 2) |
| Scenarios.NextBlinkerBack | GameOfLifeTests.cs:116-134 | the vertical blinker (1, 0), (1, 1), (1, 2) steps back to the horizontal (0, 1), (1, 1), (2, 1) |
| Scenarios.BlinkerPeriodTwo | GameOfLifeTests.cs:116-134 | the blinker has period 2: one step changes it, and two steps give it back |
| Scenarios.NextBoat | GameOfLifeTests.cs:136-153 | the boat is a still life: Next gives it back |

## Left out

- IsEndOfGame, the history queue, ConvertToString and GameStatus are not part of this model. The later tests call them, but neither Generation.cs nor Cell.cs defines them.
- Int32 overflow of `width * height`, `X ± 1` and `X + Y * width`: the model uses unbounded integers. A generation near the Int32 limits would wrap in C# and not here.
- Cells.GetHashCode: modelled exactly, with 32-bit wrap-around and a two's-complement reading. Only its consistency with Equals and one collision are proved, not its 32-bit range.
- Cell.ToString (Cell.cs:16-19) is not part of this model. It only formats text for display.
- Equals(object) with its null, reference and type checks (Cell.cs:26-32), and the null cases of `==` and `!=`: Dafny cells are values, so these paths cannot occur. Equals(object) on a Cell is the same as Equals.
- The readonly X and Y set by the constructor are the fields of an immutable datatype, so no lemma is needed to state that they never change.
- The library internals of ImmutableSortedSet, ImmutableList, LINQ GroupBy and ElementAtOrDefault are not modelled. The generation is a `set<Cell>`, the enumeration is CellOrder.SortedCells, and GroupBy is stated per coordinate.
- Generation.Next: a ghost function, because the sorted enumeration is chosen by a ghost `:|`. Generation.NextOf is the same pipeline over any enumeration and is not ghost.
- Generation.Convert: the ForEach visits the cells in CompareTo order, because ToList lists the sorted set in that order (Generation.cs:29-31). The model does not fix the order: Paint writes the cells in any order, and its result does not depend on it.
- Error paths modelled as preconditions, whose exceptions the model drops: Generation.Init requires `width * height >= 0`, where Enumerable.Range throws ArgumentOutOfRangeException (Generation.cs:12); Generation.Convert requires a non-empty generation, where Max throws InvalidOperationException (Generation.cs:23); and Generation.Convert requires OffsetsInRange, where the array write throws IndexOutOfRangeException (Generation.cs:31).
- Convert's `ImmutableList.Create(result)` is the sequence `a[..]` of the filled array.
- Parallel evaluation and display: the modelled code is sequential and does no I/O.

## Findings

| source | as written | input that shows it | evidently intended | confidence | as-written member | corrected member |
|---|---|---|---|---|---|---|
| Generation.cs:31 | the array index is X + Y * width, without subtracting the minimum coordinates, although the width and height are computed from the bounding box plus a one-cell margin | the blinker (-1, 1), (-2, 1), (-3, 1): width 5, height 3, its 1s land at indices 2, 3 and 4 (top margin row) instead of 6, 7 and 8; Convert can also index outside the array, e.g. the single cell (0, -1) gives index -3 | index (X - minX + 1) + (Y - minY + 1) * width, so that the picture is the centred, margined bounding box the sizes are chosen for, as the negative-position test expects | medium, not executed | Scenarios.NegativeBlinkerAsWritten | Generation.ConvertCentred |

The margin and the negative-position test call for the centred index, while the code uses the raw one. Generation.Convert follows the code, and it requires every raw index to be in range, where C# would throw IndexOutOfRangeException. Generation.ConvertCentredWhenMinIsOne shows that the two encodings agree when the smallest X and Y are both 1. That holds in the first test file's Convert tests.
