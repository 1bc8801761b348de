/** The content of one grid position: a mine or a non-mine carrying the
    number of mines around it, each either hidden or open. */
module Dots {

  /** DotStatus: a cell is hidden until it is opened, and never closes again. */
  datatype Status = Hidden | Open

  /** Equality is structural: `Mine(Hidden)` is what the field calls `Mine()`,
      and two NonMines are equal when their counts and statuses agree. */
  datatype Dot = Mine(status: Status) | NonMine(mineCount: nat, status: Status)
  {
    /** The same cell with its status set to Open. */
    function Opened(): (d: Dot)
      ensures d.status == Open
      ensures d.Mine? <==> Mine?
      ensures NonMine? ==> d.mineCount == mineCount
      ensures status == Open ==> d == this
    {
      match this
      case Mine(_) => Mine(Open)
      case NonMine(count, _) => NonMine(count, Open)
    }
  }
}
