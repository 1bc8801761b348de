/** `MineField`: the board object. Its cell map keeps its keys for life; only
    statuses change, from Hidden to Open, through `Open`. */
module MineFields {
  import opened Dots
  import opened Coordinates
  import opened Board

  class MineField {
    var field: Cells

    /** A field is never empty. */
    ghost predicate Valid()
      reads this
    {
      field != map[]
    }

    /** The object once its map has passed the emptiness check; `Of` is the checked entry. */
    constructor (field: Cells)
      requires field != map[]
      ensures Valid() && this.field == field
    {
      this.field := field;
    }

    /** `MineField(map)`: refuses an empty map, takes any other map as it is. */
    static method Of(field: Cells) returns (r: Result<MineField>)
      ensures r.Failure? <==> field == map[]
      ensures r.Failure? ==> r.error == EmptyField
      ensures r.Success? ==> fresh(r.value) && r.value.Valid() && r.value.field == field
    {
      if field == map[] {
        return Failure(EmptyField);
      }
      var f := new MineField(field);
      return Success(f);
    }

    /** `MineField.create`: the board laid out by `Board.Create`, or its error. */
    static method Create(height: Height, width: Width, numberOfMine: nat, placement: seq<Coordinate>)
      returns (r: Result<MineField>)
      ensures r.Success? <==> Board.Create(height, width, numberOfMine, placement).Success?
      ensures r.Failure? ==> Board.Create(height, width, numberOfMine, placement) == Failure(r.error)
      ensures r.Success? ==>
        fresh(r.value) && r.value.Valid() &&
        Board.Create(height, width, numberOfMine, placement) == Success(r.value.field)
    {
      match Board.Create(height, width, numberOfMine, placement)
      case Failure(e) =>
        r := Failure(e);
      case Success(cells) =>
        CreateLaysOutBoard(height, width, numberOfMine, placement);
        assert height * width >= 1 * 1;
        assert Coordinate(0, 0) in cells;
        r := Of(cells);
    }

    /** `toMap`: the current cell map, statuses included. */
    function ToMap(): (m: Cells)
      reads this
      ensures m == field
    {
      field
    }

    /** `isAllOpen`: every NonMine cell is open, so whatever is still hidden is a Mine. */
    predicate IsAllOpen()
      reads this
      ensures IsAllOpen() <==> forall c :: c in field && field[c].status == Hidden ==> field[c].Mine?
    {
      Solved(field)
    }

    /** `open`: refuses a coordinate off the field and a cell already open,
        leaving the field as it was; otherwise opens the cell, returns it,
        and reveals its surroundings as `Reveal` describes, working through
        a set of cells still to visit. */
    method Open(c: Coordinate) returns (r: Result<Dot>)
      requires Valid()
      modifies this
      ensures Valid()
      ensures c !in old(field) ==> r == Failure(OutOfBounds) && field == old(field)
      ensures c in old(field) && old(field)[c].status == Status.Open ==>
        r == Failure(AlreadyOpen) && field == old(field)
      ensures c in old(field) && old(field)[c].status == Hidden ==>
        r == Success(old(field)[c].Opened()) && field == Reveal(old(field), c)
    {
      if c !in field {
        return Failure(OutOfBounds);
      }
      var dot := field[c];
      if dot.status == Status.Open {
        return Failure(AlreadyOpen);
      }
      ghost var m := field;
      var revealed := dot.Opened();
      RevealingStart(m, c);
      field := field[c := revealed];
      var work: set<Coordinate> := {};
      if revealed.NonMine? {
        work := HiddenNonMinesAround(field, c);
      }
      Spread(m, c, work);
      ClosedIsReveal(m, field, c);
      return Success(revealed);
    }

    /** The reveal's worklist: visit each queued cell; open it if still hidden,
        and queue the hidden NonMines around it when its count is zero. */
    method Spread(ghost m: Cells, c: Coordinate, queued: set<Coordinate>)
      requires Revealing(m, field, c, queued)
      modifies this
      ensures Revealing(m, field, c, {})
    {
      var work := queued;
      while work != {}
        invariant Revealing(m, field, c, work)
        decreases HiddenCells(field), work
      {
        var d :| d in work;
        if field[d].status == Hidden {
          RevealingVisit(m, field, c, work, d);
          work := work - {d};
          field := field[d := field[d].Opened()];
          if field[d].mineCount == 0 {
            work := work + HiddenNonMinesAround(field, d);
          }
        } else {
          RevealingSkip(m, field, c, work, d);
          work := work - {d};
        }
      }
    }
  }
}
