/** The scenarios of the field's test suite, replayed on the model. */
module MineFieldScenarios {
  import opened Dots
  import opened Coordinates
  import opened Board
  import opened MineFields

  /** The suite's `createMineField`: a 5 x 5 board with exactly the given mines. */
  function FiveByFive(mines: seq<Coordinate>): (r: Result<Cells>)
    ensures r.Success? <==> Distinct(mines) && forall i :: 0 <= i < |mines| ==> InGrid(5, 5, mines[i])
  {
    Board.Create(5, 5, |mines|, mines)
  }

  /** A one-cell map makes a field. */
  method OneCellFieldAccepted() returns (r: Result<MineField>)
    ensures r.Success? && r.value.ToMap() == map[Coordinate(1, 1) := Mine(Hidden)]
  {
    var cells := map[Coordinate(1, 1) := Mine(Hidden)];
    assert Coordinate(1, 1) in cells;
    r := MineField.Of(cells);
  }

  /** An empty map is refused. */
  method EmptyFieldRejected() returns (r: Result<MineField>)
    ensures r == Failure(EmptyField)
  {
    r := MineField.Of(map[]);
  }

  /** create(5, 5, 1) with a mine at (0, 0): 25 hidden cells, one Mine, at (0, 0). */
  lemma CreateFiveByFiveOneMine()
    ensures var r := Board.Create(5, 5, 1, [Coordinate(0, 0)]);
      && r.Success?
      && |r.value| == 25
      && r.value[Coordinate(0, 0)] == Mine(Hidden)
      && |MineCells(r.value)| == 1
      && forall c :: c in r.value ==> r.value[c].status == Hidden
  {
    CreateLaysOutBoard(5, 5, 1, [Coordinate(0, 0)]);
  }

  /** Mines down the first column: each placed coordinate holds a Mine, and there are five. */
  lemma CreateFirstColumnMines()
    ensures var placement := [Coordinate(0, 0), Coordinate(1, 0), Coordinate(2, 0), Coordinate(3, 0), Coordinate(4, 0)];
      var r := FiveByFive(placement);
      && r.Success?
      && (forall i :: 0 <= i < |placement| ==> r.value[placement[i]] == Mine(Hidden))
      && |MineCells(r.value)| == |placement|
  {
    var placement := [Coordinate(0, 0), Coordinate(1, 0), Coordinate(2, 0), Coordinate(3, 0), Coordinate(4, 0)];
    assert Distinct(placement) by {
      forall i, j | 0 <= i < j < |placement| ensures placement[i] != placement[j] {
        assert placement[i].row == i && placement[j].row == j;
      }
    }
    assert FiveByFive(placement) == Board.Create(5, 5, 5, placement);
    CreateLaysOutBoard(5, 5, 5, placement);
  }

  /** With one mine at (0, 0), its three neighbours each count one mine. */
  lemma NeighboursOfCornerMine()
    ensures var m := FiveByFive([Coordinate(0, 0)]).value;
      && m[Coordinate(1, 0)] == NonMine(1, Hidden)
      && m[Coordinate(0, 1)] == NonMine(1, Hidden)
      && m[Coordinate(1, 1)] == NonMine(1, Hidden)
  {
    var mine := Coordinate(0, 0);
    CornerMineBoard();
    var m := Layout(5, 5, {mine});
    SingleMineCount(mine, Coordinate(1, 0));
    SingleMineCount(mine, Coordinate(0, 1));
    SingleMineCount(mine, Coordinate(1, 1));
    LayoutAt(5, 5, {mine}, Coordinate(1, 0));
    LayoutAt(5, 5, {mine}, Coordinate(0, 1));
    LayoutAt(5, 5, {mine}, Coordinate(1, 1));
  }

  lemma SingleMineCount(mine: Coordinate, c: Coordinate)
    requires Adjacent(c, mine)
    ensures MineCount({mine}, c) == 1
  {
    var mines := {mine};
    MineCountIsAdjacentMines(mines, c);
    var around := set d | d in mines && Adjacent(c, d);
    assert around == mines;
    assert |mines| == 1;
  }

  /** The board with a single mine at (0, 0), as a value. */
  lemma CornerMineBoard()
    ensures FiveByFive([Coordinate(0, 0)]) == Success(Layout(5, 5, {Coordinate(0, 0)}))
  {
    assert (set c | c in [Coordinate(0, 0)]) == {Coordinate(0, 0)};
  }

  /** Opening the mine returns it, open. */
  method OpenMine() returns (r: Result<Dot>)
    ensures r == Success(Mine(Open))
  {
    CornerMineBoard();
    var created := MineField.Create(5, 5, 1, [Coordinate(0, 0)]);
    var field := created.value;
    r := field.Open(Coordinate(0, 0));
  }

  /** Opening (3, 3), far from the mine, returns a NonMine counting zero, open. */
  method OpenFarFromMine() returns (r: Result<Dot>)
    ensures r == Success(NonMine(0, Open))
  {
    CornerMineBoard();
    NoAdjacentMineCountsZero({Coordinate(0, 0)}, Coordinate(3, 3));
    var created := MineField.Create(5, 5, 1, [Coordinate(0, 0)]);
    var field := created.value;
    r := field.Open(Coordinate(3, 3));
  }

  /** Opening (3, 3) a second time is refused. */
  method OpenTwiceRejected() returns (first: Result<Dot>, second: Result<Dot>)
    ensures first.Success? && second == Failure(AlreadyOpen)
  {
    CornerMineBoard();
    var created := MineField.Create(5, 5, 1, [Coordinate(0, 0)]);
    var field := created.value;
    ghost var before := field.field;
    first := field.Open(Coordinate(3, 3));
    RevealOpensStart(before, Coordinate(3, 3));
    second := field.Open(Coordinate(3, 3));
  }

  /** Opening (9, 9) on the 5 x 5 board is refused. */
  method OpenOffFieldRejected() returns (r: Result<Dot>)
    ensures r == Failure(OutOfBounds)
  {
    CornerMineBoard();
    var created := MineField.Create(5, 5, 1, [Coordinate(0, 0)]);
    var field := created.value;
    r := field.Open(Coordinate(9, 9));
  }

  /** What the cascade scenario needs to know of the 5 x 5 board with mines
      at (0, 0) and (1, 0). */
  ghost predicate TwoMineBoard(m: Cells)
  {
    && (forall c :: c in m <==> InGrid(5, 5, c))
    && (forall c :: c in m ==> m[c].status == Hidden)
    && (forall c :: c in m ==> (m[c].Mine? <==> c == Coordinate(0, 0) || c == Coordinate(1, 0)))
    && (forall c :: c in m && m[c].NonMine? && !Adjacent(c, Coordinate(0, 0)) && !Adjacent(c, Coordinate(1, 0)) ==>
          m[c].mineCount == 0)
  }

  lemma TwoMineBoardLayout()
    ensures var m := FiveByFive([Coordinate(0, 0), Coordinate(1, 0)]).value;
      && TwoMineBoard(m)
      && m[Coordinate(1, 1)] == NonMine(2, Hidden)
  {
    var mines := {Coordinate(0, 0), Coordinate(1, 0)};
    assert (set c | c in [Coordinate(0, 0), Coordinate(1, 0)]) == mines;
    assert FiveByFive([Coordinate(0, 0), Coordinate(1, 0)]) == Success(Layout(5, 5, mines));
    TwoMineLayout(mines);
  }

  lemma TwoMineLayout(mines: set<Coordinate>)
    requires mines == {Coordinate(0, 0), Coordinate(1, 0)}
    ensures TwoMineBoard(Layout(5, 5, mines))
    ensures Layout(5, 5, mines)[Coordinate(1, 1)] == NonMine(2, Hidden)
  {
    var m := Layout(5, 5, mines);
    forall c | c in m && m[c].NonMine? && !Adjacent(c, Coordinate(0, 0)) && !Adjacent(c, Coordinate(1, 0))
      ensures m[c].mineCount == 0
    {
      NoAdjacentMineCountsZero(mines, c);
    }
    LayoutAt(5, 5, mines, Coordinate(1, 1));
    MineCountIsAdjacentMines(mines, Coordinate(1, 1));
    var around := set d | d in mines && Adjacent(Coordinate(1, 1), d);
    assert around == mines;
  }

  /** A revealed cell with no mine next to it reveals the listed neighbours. */
  lemma SpreadTo(m: Cells, start: Coordinate, d: Coordinate, next: seq<Coordinate>)
    requires TwoMineBoard(m)
    requires Reaches(m, start, d) && d != start && InGrid(5, 5, d)
    requires !Adjacent(d, Coordinate(0, 0)) && !Adjacent(d, Coordinate(1, 0))
    requires forall e :: e in next ==>
      InGrid(5, 5, e) && e != Coordinate(0, 0) && e != Coordinate(1, 0) && Adjacent(d, e)
    ensures forall e :: e in next ==> Reaches(m, start, e)
  {
    assert Spreads(m, start, d);
    forall e | e in next ensures Reaches(m, start, e) {
      ReachStep(m, start, d, e);
    }
  }

  /** On that board, opening (1, 1) reveals (1, 1) and its NonMine
      neighbours, although (1, 1) has two mines around it. */
  lemma StartRevealsNeighbours(m: Cells)
    requires TwoMineBoard(m)
    ensures forall e :: e in [Coordinate(1, 1), Coordinate(0, 1), Coordinate(0, 2), Coordinate(1, 2),
                              Coordinate(2, 0), Coordinate(2, 1), Coordinate(2, 2)] ==>
      Reaches(m, Coordinate(1, 1), e)
  {
    var start := Coordinate(1, 1);
    assert IsCascade(m, start, [start]);
    assert Spreads(m, start, start);
    forall e | e in [Coordinate(0, 1), Coordinate(0, 2), Coordinate(1, 2), Coordinate(2, 0), Coordinate(2, 1), Coordinate(2, 2)]
      ensures Reaches(m, start, e)
    {
      ReachStep(m, start, start, e);
    }
  }

  /** Through (0, 2) and (1, 3), whose counts are zero, the reveal
      reaches the upper right of the board. */
  lemma RevealReachesUpperRight(m: Cells)
    requires TwoMineBoard(m)
    ensures forall e :: e in [Coordinate(0, 3), Coordinate(1, 3), Coordinate(0, 4), Coordinate(1, 4),
                              Coordinate(2, 4), Coordinate(2, 3)] ==>
      Reaches(m, Coordinate(1, 1), e)
  {
    var start := Coordinate(1, 1);
    StartRevealsNeighbours(m);
    SpreadTo(m, start, Coordinate(0, 2), [Coordinate(0, 3), Coordinate(1, 3)]);
    SpreadTo(m, start, Coordinate(1, 3), [Coordinate(0, 4), Coordinate(1, 4), Coordinate(2, 4), Coordinate(2, 3)]);
  }

  /** Through (2, 2), (3, 1) and (3, 3) it reaches the two bottom rows. */
  lemma RevealReachesBottom(m: Cells)
    requires TwoMineBoard(m)
    ensures forall e :: e in [Coordinate(3, 0), Coordinate(3, 1), Coordinate(3, 2), Coordinate(3, 3), Coordinate(3, 4),
                              Coordinate(4, 0), Coordinate(4, 1), Coordinate(4, 2), Coordinate(4, 3), Coordinate(4, 4)] ==>
      Reaches(m, Coordinate(1, 1), e)
  {
    var start := Coordinate(1, 1);
    StartRevealsNeighbours(m);
    SpreadTo(m, start, Coordinate(2, 2), [Coordinate(3, 1), Coordinate(3, 2), Coordinate(3, 3)]);
    SpreadTo(m, start, Coordinate(3, 1), [Coordinate(3, 0), Coordinate(4, 0), Coordinate(4, 1), Coordinate(4, 2)]);
    SpreadTo(m, start, Coordinate(3, 3), [Coordinate(3, 4), Coordinate(4, 3), Coordinate(4, 4)]);
  }

  /** Together: the reveal reaches every cell that is not a mine. */
  lemma RevealReachesOtherCells(m: Cells)
    requires TwoMineBoard(m)
    ensures forall e :: e in OtherCells ==> Reaches(m, Coordinate(1, 1), e)
  {
    StartRevealsNeighbours(m);
    RevealReachesUpperRight(m);
    RevealReachesBottom(m);
  }

  /** So opening (1, 1) solves that board. */
  lemma TwoMineCascade(m: Cells)
    requires TwoMineBoard(m)
    ensures Solved(Reveal(m, Coordinate(1, 1)))
  {
    RevealReachesOtherCells(m);
    forall c | c in m && m[c].NonMine? ensures Reveal(m, Coordinate(1, 1))[c].status == Open {
      EveryOtherCell(c);
    }
  }

  /** The 23 cells of the 5 x 5 grid that do not hold one of the two mines. */
  const OtherCells: seq<Coordinate> := [
    Coordinate(0, 1), Coordinate(0, 2), Coordinate(0, 3), Coordinate(0, 4),
    Coordinate(1, 1), Coordinate(1, 2), Coordinate(1, 3), Coordinate(1, 4),
    Coordinate(2, 0), Coordinate(2, 1), Coordinate(2, 2), Coordinate(2, 3), Coordinate(2, 4),
    Coordinate(3, 0), Coordinate(3, 1), Coordinate(3, 2), Coordinate(3, 3), Coordinate(3, 4),
    Coordinate(4, 0), Coordinate(4, 1), Coordinate(4, 2), Coordinate(4, 3), Coordinate(4, 4)]

  lemma EveryOtherCell(c: Coordinate)
    requires InGrid(5, 5, c) && c != Coordinate(0, 0) && c != Coordinate(1, 0)
    ensures c in OtherCells
  {
    assert c == Coordinate(c.row, c.col);
  }

  /** The suite's last scenario on values: mines at (0, 0) and (1, 0); (1, 1)
      counts two, and opening it leaves the board solved. */
  lemma CascadeSolvesBoard()
    ensures var m := FiveByFive([Coordinate(0, 0), Coordinate(1, 0)]).value;
      && m[Coordinate(1, 1)] == NonMine(2, Hidden)
      && Solved(Reveal(m, Coordinate(1, 1)))
  {
    TwoMineBoardLayout();
    TwoMineCascade(FiveByFive([Coordinate(0, 0), Coordinate(1, 0)]).value);
  }

  /** The suite's last scenario on the field object: after opening (1, 1) the field is all open. */
  method CascadeScenario() returns (solved: bool)
    ensures solved
  {
    CascadeSolvesBoard();
    var created := MineField.Create(5, 5, 2, [Coordinate(0, 0), Coordinate(1, 0)]);
    var field := created.value;
    var r := field.Open(Coordinate(1, 1));
    solved := field.IsAllOpen();
  }
}
