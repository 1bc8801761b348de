/** The board as a value: a map from coordinate to cell, how `create` lays
    it out from an injected mine placement, when it counts as solved, and
    which cells one `open` reveals. */
module Board {
  import opened Dots
  import opened Coordinates

  /** The conditions under which the field refuses an operation. */
  datatype FieldError =
    | EmptyField         // a field built from an empty map
    | MineOutOfBounds    // the placement puts a mine outside the grid
    | DuplicateMine      // the placement names one coordinate twice
    | MineCountMismatch  // the placement does not hold NumberOfMine mines
    | OutOfBounds        // open at a coordinate that is not on the field
    | AlreadyOpen        // open at a cell that is already open

  datatype Result<T> = Success(value: T) | Failure(error: FieldError)

  type Cells = map<Coordinate, Dot>

  // ---------------------------------------------------------------------
  // Neighbour counts

  /** How many entries of `s` are mines. */
  function CountMines(s: seq<Coordinate>, mines: set<Coordinate>): (n: nat)
    ensures n <= |s|
  {
    if s == [] then 0
    else (if s[0] in mines then 1 else 0) + CountMines(s[1..], mines)
  }

  /** The count a NonMine at `c` holds: mines found walking the eight directions. */
  function MineCount(mines: set<Coordinate>, c: Coordinate): (n: nat)
    ensures n <= 8
  {
    CountMines(Around(c), mines)
  }

  /** Counting along a duplicate-free sequence gives the size of the set of mines in it. */
  lemma {:induction false} CountMinesIsCardinality(s: seq<Coordinate>, mines: set<Coordinate>)
    requires Distinct(s)
    ensures CountMines(s, mines) == |set d | d in s && d in mines|
  {
    if s == [] {
      assert (set d | d in s && d in mines) == {};
    } else {
      var rest := set d | d in s[1..] && d in mines;
      CountMinesIsCardinality(s[1..], mines);
      assert s[0] !in s[1..] by {
        forall j | 0 <= j < |s[1..]| ensures s[1..][j] != s[0] {
          assert s[1..][j] == s[j + 1];
        }
      }
      if s[0] in mines {
        assert (set d | d in s && d in mines) == rest + {s[0]};
      } else {
        assert (set d | d in s && d in mines) == rest;
      }
    }
  }

  /** The count is the number of mines among the in-grid Moore neighbours, at most eight. */
  lemma MineCountIsAdjacentMines(mines: set<Coordinate>, c: Coordinate)
    ensures MineCount(mines, c) == |set d | d in mines && Adjacent(c, d)|
    ensures MineCount(mines, c) <= 8
  {
    CountMinesIsCardinality(Around(c), mines);
    assert (set d | d in Around(c) && d in mines) == (set d | d in mines && Adjacent(c, d));
  }

  /** A cell with no mine next to it counts zero. */
  lemma NoAdjacentMineCountsZero(mines: set<Coordinate>, c: Coordinate)
    requires forall d :: d in mines ==> !Adjacent(c, d)
    ensures MineCount(mines, c) == 0
  {
    MineCountIsAdjacentMines(mines, c);
    assert (set d | d in mines && Adjacent(c, d)) == {};
  }

  // ---------------------------------------------------------------------
  // Building the board

  function MineCells(m: Cells): set<Coordinate>
  {
    set c | c in m && m[c].Mine?
  }

  /** A NonMine's count equals the number of Mine cells of the board next to it. */
  ghost predicate CountsAgree(m: Cells)
  {
    forall c :: c in m && m[c].NonMine? ==>
      m[c].mineCount == |set d | d in MineCells(m) && Adjacent(c, d)|
  }

  /** Every grid position, hidden, holding a Mine when it is in `mines` and otherwise its count. */
  function Layout(height: nat, width: nat, mines: set<Coordinate>): (m: Cells)
    ensures m.Keys == Grid(height, width)
    ensures forall c :: c in m ==> m[c].status == Hidden
    ensures forall c :: c in m ==> (m[c].Mine? <==> c in mines)
  {
    map c | c in Grid(height, width) ::
      if c in mines then Mine(Hidden) else NonMine(MineCount(mines, c), Hidden)
  }

  lemma LayoutAt(height: nat, width: nat, mines: set<Coordinate>, c: Coordinate)
    requires InGrid(height, width, c)
    ensures c in Layout(height, width, mines)
    ensures Layout(height, width, mines)[c] ==
      if c in mines then Mine(Hidden) else NonMine(MineCount(mines, c), Hidden)
  {
  }

  /** `create`: lay out a height-by-width board with mines at the injected placement.
      The placement must stay on the grid, name no coordinate twice and hold
      exactly `numberOfMine` coordinates. */
  function Create(height: Height, width: Width, numberOfMine: nat, placement: seq<Coordinate>): (r: Result<Cells>)
    ensures r.Success? <==>
      (forall i :: 0 <= i < |placement| ==> InGrid(height, width, placement[i])) &&
      Distinct(placement) && |placement| == numberOfMine
    ensures (exists i :: 0 <= i < |placement| && !InGrid(height, width, placement[i])) ==>
      r == Failure(MineOutOfBounds)
    ensures (forall i :: 0 <= i < |placement| ==> InGrid(height, width, placement[i])) && !Distinct(placement) ==>
      r == Failure(DuplicateMine)
    ensures (forall i :: 0 <= i < |placement| ==> InGrid(height, width, placement[i])) && Distinct(placement) ==>
      |placement| != numberOfMine ==> r == Failure(MineCountMismatch)
  {
    if exists i :: 0 <= i < |placement| && !InGrid(height, width, placement[i]) then
      Failure(MineOutOfBounds)
    else if !Distinct(placement) then
      Failure(DuplicateMine)
    else if |placement| != numberOfMine then
      Failure(MineCountMismatch)
    else
      Success(Layout(height, width, set c | c in placement))
  }

  lemma {:induction false} DistinctSize(s: seq<Coordinate>)
    requires Distinct(s)
    ensures |set c | c in s| == |s|
  {
    if s != [] {
      DistinctSize(s[1..]);
      assert s[0] !in s[1..] by {
        forall j | 0 <= j < |s[1..]| ensures s[1..][j] != s[0] {
          assert s[1..][j] == s[j + 1];
        }
      }
      assert (set c | c in s) == (set c | c in s[1..]) + {s[0]};
    } else {
      assert (set c | c in s) == {};
    }
  }

  lemma SubsetSize(a: set<Coordinate>, b: set<Coordinate>)
    requires a <= b
    ensures |a| <= |b|
    ensures |a| < |b| ==> b - a != {}
  {
    assert b == a + (b - a);
    assert a * (b - a) == {};
  }

  lemma LayoutSize(height: nat, width: nat, mines: set<Coordinate>)
    ensures |Layout(height, width, mines)| == height * width
  {
    var m := Layout(height, width, mines);
    GridSize(height, width);
    assert |m| == |m.Keys|;
  }

  lemma LayoutMines(height: nat, width: nat, mines: set<Coordinate>)
    requires mines <= Grid(height, width)
    ensures MineCells(Layout(height, width, mines)) == mines
  {
  }

  lemma LayoutCountsAgree(height: nat, width: nat, mines: set<Coordinate>)
    requires mines <= Grid(height, width)
    ensures CountsAgree(Layout(height, width, mines))
  {
    var m := Layout(height, width, mines);
    LayoutMines(height, width, mines);
    forall c | c in m && m[c].NonMine?
      ensures m[c].mineCount == |set d | d in MineCells(m) && Adjacent(c, d)|
    {
      MineCountIsAdjacentMines(mines, c);
    }
  }

  /** What a successful `create` promises: height * width cells, all hidden,
      a Mine at every placed coordinate and nowhere else, as many Mine cells
      as `numberOfMine` (so never more than the grid holds), and every
      NonMine holding the number of Mine cells next to it. */
  lemma CreateLaysOutBoard(height: Height, width: Width, numberOfMine: nat, placement: seq<Coordinate>)
    requires Create(height, width, numberOfMine, placement).Success?
    ensures var m := Create(height, width, numberOfMine, placement).value;
      && |m| == height * width
      && (forall c :: c in m <==> InGrid(height, width, c))
      && (forall c :: c in m ==> m[c].status == Hidden)
      && (forall c :: c in m ==> (m[c].Mine? <==> c in placement))
      && |MineCells(m)| == numberOfMine
      && numberOfMine <= height * width
      && CountsAgree(m)
  {
    var mines := set c | c in placement;
    var m := Layout(height, width, mines);
    assert Create(height, width, numberOfMine, placement) == Success(m);
    assert mines <= Grid(height, width);
    LayoutSize(height, width, mines);
    LayoutMines(height, width, mines);
    LayoutCountsAgree(height, width, mines);
    DistinctSize(placement);
    SubsetSize(MineCells(m), m.Keys);
  }

  // ---------------------------------------------------------------------
  // Winning

  /** `isAllOpen`: every NonMine cell is open; mines may stay hidden. */
  predicate Solved(m: Cells)
  {
    forall c :: c in m && m[c].NonMine? ==> m[c].status == Open
  }

  /** A freshly created board with at least one NonMine is not solved. */
  lemma CreatedBoardUnsolved(height: Height, width: Width, numberOfMine: nat, placement: seq<Coordinate>)
    requires Create(height, width, numberOfMine, placement).Success?
    requires numberOfMine < height * width
    ensures !Solved(Create(height, width, numberOfMine, placement).value)
  {
    var m := Create(height, width, numberOfMine, placement).value;
    CreateLaysOutBoard(height, width, numberOfMine, placement);
    assert |MineCells(m)| < |m.Keys|;
    SubsetSize(MineCells(m), m.Keys);
    var c :| c in m.Keys - MineCells(m);
    assert m[c].NonMine? && m[c].status == Hidden;
  }

  // ---------------------------------------------------------------------
  // Which cells one open reveals

  /** A cell from which the reveal spreads to its neighbours: the opened cell
      itself when it is a NonMine, or a hidden NonMine whose count is zero. */
  predicate Spreads(m: Cells, c: Coordinate, d: Coordinate)
  {
    d in m && m[d].NonMine? && (d == c || (m[d].status == Hidden && m[d].mineCount == 0))
  }

  /** A chain of reveals starting at `c`: each later cell is a hidden NonMine
      adjacent to the one before it, and every cell but the last spreads. */
  ghost predicate IsCascade(m: Cells, c: Coordinate, p: seq<Coordinate>)
  {
    && |p| >= 1 && p[0] == c && c in m
    && (forall i :: 0 < i < |p| ==>
          p[i] in m && m[p[i]].NonMine? && m[p[i]].status == Hidden && Adjacent(p[i - 1], p[i]))
    && (forall i :: 0 <= i < |p| - 1 ==> Spreads(m, c, p[i]))
  }

  /** Opening `c` reveals `d`. */
  ghost predicate Reaches(m: Cells, c: Coordinate, d: Coordinate)
  {
    exists p :: IsCascade(m, c, p) && p[|p| - 1] == d
  }

  /** The board after opening `c`: every revealed cell opened, the rest unchanged. */
  ghost function Reveal(m: Cells, c: Coordinate): (r: Cells)
    ensures r.Keys == m.Keys
    ensures forall d :: d in r ==> (r[d].status == Open <==> m[d].status == Open || Reaches(m, c, d))
  {
    map d | d in m :: if Reaches(m, c, d) then m[d].Opened() else m[d]
  }

  /** A revealed cell that spreads reveals each hidden NonMine next to it. */
  lemma ReachStep(m: Cells, c: Coordinate, d: Coordinate, e: Coordinate)
    requires Reaches(m, c, d) && Spreads(m, c, d)
    requires e in m && m[e].NonMine? && m[e].status == Hidden && Adjacent(d, e)
    ensures Reaches(m, c, e)
  {
    var p :| IsCascade(m, c, p) && p[|p| - 1] == d;
    var q := p + [e];
    assert forall i :: 0 <= i < |p| ==> q[i] == p[i];
    assert IsCascade(m, c, q);
  }

  /** The opened cell itself is revealed, whatever it holds. */
  lemma RevealOpensStart(m: Cells, c: Coordinate)
    requires c in m
    ensures Reveal(m, c).Keys == m.Keys
    ensures Reveal(m, c)[c] == m[c].Opened()
  {
    assert IsCascade(m, c, [c]);
  }

  /** Opening a Mine reveals nothing else. */
  lemma RevealMineOpensOnlyIt(m: Cells, c: Coordinate)
    requires c in m && m[c].Mine?
    ensures forall d :: d in m && d != c ==> Reveal(m, c)[d] == m[d]
  {
    forall p | IsCascade(m, c, p) ensures |p| == 1 {
      assert Spreads(m, c, p[0]) ==> |p| == 1;
    }
  }

  /** The reveal only opens cells: keys, kinds and counts stay, no open cell
      closes, and every cell it changes other than `c` is a NonMine. */
  lemma RevealOnlyOpens(m: Cells, c: Coordinate)
    ensures Reveal(m, c).Keys == m.Keys
    ensures forall d :: d in m ==>
      var d' := Reveal(m, c)[d];
      && (d'.Mine? <==> m[d].Mine?)
      && (m[d].NonMine? ==> d'.mineCount == m[d].mineCount)
      && (m[d].status == Open ==> d' == m[d])
      && (d' != m[d] && d != c ==> m[d].NonMine?)
  {
    forall d | d in m && d != c && Reaches(m, c, d) ensures m[d].NonMine? {
      var p :| IsCascade(m, c, p) && p[|p| - 1] == d;
      assert |p| > 1;
    }
  }

  /** Opening a NonMine reveals every NonMine next to it, whatever its own count,
      and every revealed zero-count cell reveals its NonMine neighbours in turn. */
  lemma RevealSpreads(m: Cells, c: Coordinate)
    requires c in m
    ensures forall d, e ::
      (Reaches(m, c, d) && Spreads(m, c, d) && Adjacent(d, e) && e in m && m[e].NonMine?) ==>
      Reveal(m, c)[e].status == Open
  {
    forall d, e | Reaches(m, c, d) && Spreads(m, c, d) && Adjacent(d, e) && e in m && m[e].NonMine?
      ensures Reveal(m, c)[e].status == Open
    {
      if m[e].status == Hidden {
        ReachStep(m, c, d, e);
      }
    }
  }

  // ---------------------------------------------------------------------
  // Characterising the reveal by closure

  /** The hidden NonMines next to `d`: where a spreading cell sends the reveal. */
  function HiddenNonMinesAround(m: Cells, d: Coordinate): (s: set<Coordinate>)
    ensures forall e :: e in s <==> e in m && Adjacent(d, e) && m[e].NonMine? && m[e].status == Hidden
  {
    set e | e in Around(d) && e in m && m[e].NonMine? && m[e].status == Hidden
  }

  ghost function HiddenCells(m: Cells): set<Coordinate>
  {
    set d | d in m && m[d].status == Hidden
  }

  /** In `f`, every open cell that spreads (judged on the board `m` before the
      open) has each NonMine that was hidden next to it open as well, or
      waiting in `pending`. */
  ghost predicate ClosedBut(m: Cells, f: Cells, c: Coordinate, pending: set<Coordinate>)
  {
    forall d, e ::
      (d in f && e in f && Spreads(m, c, d) && f[d].status == Open && Adjacent(d, e) &&
       e in m && m[e].NonMine? && m[e].status == Hidden) ==>
      f[e].status == Open || e in pending
  }

  /** `f` opens only revealed cells of `m`, and changes nothing else. */
  ghost predicate OpensOnlyRevealed(m: Cells, f: Cells, c: Coordinate)
  {
    && f.Keys == m.Keys
    && forall d :: d in f ==> f[d] == m[d] || (f[d] == m[d].Opened() && Reaches(m, c, d))
  }

  /** What holds between steps of a worklist reveal of `c` on `m`: `f` is the
      board so far and `pending` the cells still to visit. */
  ghost predicate Revealing(m: Cells, f: Cells, c: Coordinate, pending: set<Coordinate>)
  {
    && c in m && c in f && f[c] == m[c].Opened()
    && OpensOnlyRevealed(m, f, c)
    && (forall d :: d in pending ==> d in m && m[d].NonMine? && m[d].status == Hidden && Reaches(m, c, d))
    && ClosedBut(m, f, c, pending)
  }

  /** Opening `c` and queueing its hidden NonMine neighbours (when `c` is a NonMine) starts a reveal. */
  lemma RevealingStart(m: Cells, c: Coordinate)
    requires c in m && m[c].status == Hidden
    ensures var f := m[c := m[c].Opened()];
      Revealing(m, f, c, if m[c].NonMine? then HiddenNonMinesAround(f, c) else {})
  {
    var f := m[c := m[c].Opened()];
    var pending := if m[c].NonMine? then HiddenNonMinesAround(f, c) else {};
    assert IsCascade(m, c, [c]);
    forall e | e in pending ensures Reaches(m, c, e) {
      ReachStep(m, c, c, e);
    }
    forall d, e |
      d in f && e in f && Spreads(m, c, d) && f[d].status == Open && Adjacent(d, e) &&
      e in m && m[e].NonMine? && m[e].status == Hidden
      ensures f[e].status == Open || e in pending
    {
      assert d == c;
    }
  }

  /** Visiting a queued cell that is already open just drops it. */
  lemma RevealingSkip(m: Cells, f: Cells, c: Coordinate, pending: set<Coordinate>, d: Coordinate)
    requires Revealing(m, f, c, pending)
    requires d in pending && f[d].status == Open
    ensures Revealing(m, f, c, pending - {d})
  {
  }

  /** Visiting a queued hidden cell opens it and, when its count is
      zero, queues its hidden NonMine neighbours; exactly that cell stops being hidden. */
  lemma RevealingVisit(m: Cells, f: Cells, c: Coordinate, pending: set<Coordinate>, d: Coordinate)
    requires Revealing(m, f, c, pending)
    requires d in pending && f[d].status == Hidden
    ensures var f' := f[d := f[d].Opened()];
      && Revealing(m, f', c, (pending - {d}) + (if f[d].mineCount == 0 then HiddenNonMinesAround(f', d) else {}))
      && d in HiddenCells(f)
      && HiddenCells(f') == HiddenCells(f) - {d}
  {
    var f' := f[d := f[d].Opened()];
    var added := if f[d].mineCount == 0 then HiddenNonMinesAround(f', d) else {};
    VisitQueuesRevealed(m, f, c, pending, d);
    VisitKeepsClosed(m, f, c, pending, d);
    assert d in HiddenCells(f) && d !in HiddenCells(f');
  }

  lemma VisitQueuesRevealed(m: Cells, f: Cells, c: Coordinate, pending: set<Coordinate>, d: Coordinate)
    requires Revealing(m, f, c, pending)
    requires d in pending && f[d].status == Hidden
    ensures var f' := f[d := f[d].Opened()];
      && OpensOnlyRevealed(m, f', c)
      && forall e :: e in (if f[d].mineCount == 0 then HiddenNonMinesAround(f', d) else {}) ==>
           e in m && m[e].NonMine? && m[e].status == Hidden && Reaches(m, c, e)
  {
    var f' := f[d := f[d].Opened()];
    assert f[d] == m[d];
    if f[d].mineCount == 0 {
      forall e | e in HiddenNonMinesAround(f', d) ensures Reaches(m, c, e) {
        ReachStep(m, c, d, e);
      }
    }
  }

  lemma VisitKeepsClosed(m: Cells, f: Cells, c: Coordinate, pending: set<Coordinate>, d: Coordinate)
    requires Revealing(m, f, c, pending)
    requires d in pending && f[d].status == Hidden
    ensures var f' := f[d := f[d].Opened()];
      ClosedBut(m, f', c, (pending - {d}) + (if f[d].mineCount == 0 then HiddenNonMinesAround(f', d) else {}))
  {
    var f' := f[d := f[d].Opened()];
    var pending' := (pending - {d}) + (if f[d].mineCount == 0 then HiddenNonMinesAround(f', d) else {});
    assert f[d] == m[d];
    forall x, e |
      x in f' && e in f' && Spreads(m, c, x) && f'[x].status == Open && Adjacent(x, e) &&
      e in m && m[e].NonMine? && m[e].status == Hidden
      ensures f'[e].status == Open || e in pending'
    {
      if x != d {
        assert f[x].status == Open;
        assert f[e].status == Open || e in pending;
      }
    }
  }

  lemma {:induction false} ClosedCoversCascade(m: Cells, f: Cells, c: Coordinate, p: seq<Coordinate>)
    requires f.Keys == m.Keys && c in f && f[c].status == Open
    requires ClosedBut(m, f, c, {})
    requires IsCascade(m, c, p)
    ensures f[p[|p| - 1]].status == Open
    decreases |p|
  {
    if |p| > 1 {
      var q := p[..|p| - 1];
      assert forall i :: 0 <= i < |q| ==> q[i] == p[i];
      assert IsCascade(m, c, q);
      ClosedCoversCascade(m, f, c, q);
      assert Spreads(m, c, p[|p| - 2]);
    }
  }

  /** The reveal is the least closed opening: a board that opens only revealed
      cells, opens `c`, and is closed under spreading is exactly `Reveal(m, c)`. */
  lemma ClosedIsReveal(m: Cells, f: Cells, c: Coordinate)
    requires OpensOnlyRevealed(m, f, c)
    requires c in f && f[c].status == Open
    requires ClosedBut(m, f, c, {})
    ensures f == Reveal(m, c)
  {
    forall d | d in m && Reaches(m, c, d) ensures f[d] == m[d].Opened() {
      var p :| IsCascade(m, c, p) && p[|p| - 1] == d;
      ClosedCoversCascade(m, f, c, p);
    }
  }

  /** Opening never un-solves a solved board. */
  lemma RevealKeepsSolved(m: Cells, c: Coordinate)
    requires Solved(m)
    ensures Solved(Reveal(m, c))
  {
    RevealOnlyOpens(m, c);
  }
}
