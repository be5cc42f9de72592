/**
 * The ReversiGraph: the state of the 64 cells, the starting layout, the
 * capture-line walk `Traverse`, and the piece counts derived from the states.
 *
 * A board is a value (an 8x8 grid of cell states), so every operation here is
 * a pure function.  The adjacency a cell keeps in its `Edges` table is the
 * geometry of module Geometry, which is proved equal to that table.
 */
module Graph {
  import opened Wrappers
  import opened Geometry

  datatype CellState = EMPTY | BLACK | WHITE

  predicate IsGrid(b: seq<seq<CellState>>) {
    |b| == 8 && forall i | 0 <= i < 8 :: |b[i]| == 8
  }

  /** The states of the 64 cells, indexed by row and then column. */
  type Board = b: seq<seq<CellState>> | IsGrid(b) witness seq(8, _ => seq(8, _ => EMPTY))

  function At(b: Board, c: Coord): CellState
    requires OnBoard(c)
  {
    b[c.row][c.col]
  }

  /** Sets the state of one cell, as an assignment to `GridCell.State` does. */
  function Place(b: Board, c: Coord, s: CellState): (r: Board)
    requires OnBoard(c)
    ensures At(r, c) == s
    ensures forall x | OnBoard(x) && x != c :: At(r, x) == At(b, x)
  {
    b[c.row := b[c.row][c.col := s]]
  }

  /** `GridCell.Flip`: a piece changes owner, an empty cell stays empty. */
  function Flip(s: CellState): (r: CellState)
    ensures r == EMPTY <==> s == EMPTY
    ensures s != EMPTY ==> r != s
  {
    match s
    case EMPTY => EMPTY
    case WHITE => BLACK
    case BLACK => WHITE
  }

  /** Flips every cell of `cells` once, leaving the others alone. */
  function FlipAll(b: Board, cells: set<Coord>): (r: Board)
    ensures forall x | OnBoard(x) :: At(r, x) == if x in cells then Flip(At(b, x)) else At(b, x)
  {
    seq(8, i requires 0 <= i < 8 =>
      seq(8, j requires 0 <= j < 8 =>
        if Coord(i, j) in cells then Flip(b[i][j]) else b[i][j]))
  }

  /**
   * The `ReversiGraph()` constructor's cell states: every cell starts EMPTY,
   * then cellArr[3][3] and cellArr[4][4] become BLACK and cellArr[3][4] and
   * cellArr[4][3] become WHITE.
   */
  function NewGraph(): Board {
    var blank: Board := seq(8, _ => seq(8, _ => EMPTY));
    var b1 := Place(blank, Coord(3, 3), BLACK);
    var b2 := Place(b1, Coord(4, 4), BLACK);
    var b3 := Place(b2, Coord(3, 4), WHITE);
    Place(b3, Coord(4, 3), WHITE)
  }

  /* ---------------------------------------------------------------------- */
  /* Traverse                                                                */

  /** What one call of `Traverse` reports: the distance it returns and the cells it adds to its sink. */
  datatype Trace = Trace(distance: int, flips: set<Coord>)

  /**
   * Step m of a walk that started from `c` at depth `depth` does not end the
   * walk: the cell is not in the sought state and is not an empty gap (an
   * empty cell ends the walk except at depth 0).
   */
  ghost predicate PassesAt(b: Board, c: Coord, requested: CellState, d: Direction, depth: int, m: int) {
    && OnBoard(c)
    && 0 <= m <= StepsLeft(c, d)
    && At(b, Ray(c, d, m)) != requested
    && (At(b, Ray(c, d, m)) != EMPTY || depth + m == 0)
  }

  /**
   * The walk from `c` finds the sought state k steps away: the cell there is
   * in state `requested` and every earlier step passes.
   */
  ghost predicate EndsAt(b: Board, c: Coord, requested: CellState, d: Direction, depth: int, k: int) {
    && OnBoard(c)
    && 0 <= k <= StepsLeft(c, d)
    && At(b, Ray(c, d, k)) == requested
    && forall m | 0 <= m < k :: PassesAt(b, c, requested, d, depth, m)
  }

  /** The cells at steps 0 .. n-1 from `c` in direction `d`. */
  function Segment(c: Coord, d: Direction, n: int): set<Coord> {
    set m | 0 <= m < n :: Ray(c, d, m)
  }

  /** A walk can end at only one step: the first cell in the sought state. */
  lemma EndsAtUnique(b: Board, c: Coord, requested: CellState, d: Direction, depth: int, k: int, k': int)
    requires EndsAt(b, c, requested, d, depth, k) && EndsAt(b, c, requested, d, depth, k')
    ensures k == k'
  {
    assert k < k' ==> PassesAt(b, c, requested, d, depth, k);
    assert k' < k ==> PassesAt(b, c, requested, d, depth, k');
  }

  /** A walk whose first cell stops it cannot end further on. */
  lemma StopsAtStart(b: Board, c: Coord, requested: CellState, d: Direction, depth: int)
    requires OnBoard(c) && !PassesAt(b, c, requested, d, depth, 0)
    ensures forall k | 0 < k :: !EndsAt(b, c, requested, d, depth, k)
  {
    forall k | 0 < k
      ensures !EndsAt(b, c, requested, d, depth, k)
    {
      assert EndsAt(b, c, requested, d, depth, k) ==> PassesAt(b, c, requested, d, depth, 0);
    }
  }

  /** Step m of the walk from the neighbour, one level deeper, is step m + 1 of the walk from `c`. */
  lemma PassesShift(b: Board, c: Coord, requested: CellState, d: Direction, depth: int, next: Coord, m: int)
    requires OnBoard(c) && Neighbor(c, d) == Some(next) && 0 <= m
    ensures PassesAt(b, next, requested, d, depth + 1, m) <==> PassesAt(b, c, requested, d, depth, m + 1)
    ensures m <= StepsLeft(next, d) ==> At(b, Ray(next, d, m)) == At(b, Ray(c, d, m + 1))
  {
    RayStep(c, d, m);
  }

  /** Walking on from the neighbour one level deeper is the same walk, one step shorter. */
  lemma EndsAtShift(b: Board, c: Coord, requested: CellState, d: Direction, depth: int, next: Coord, k: int)
    requires OnBoard(c) && Neighbor(c, d) == Some(next) && 0 <= k
    requires PassesAt(b, c, requested, d, depth, 0)
    ensures EndsAt(b, next, requested, d, depth + 1, k) <==> EndsAt(b, c, requested, d, depth, k + 1)
  {
    if EndsAt(b, next, requested, d, depth + 1, k) {
      EndsAtLift(b, c, requested, d, depth, next, k);
    }
    if EndsAt(b, c, requested, d, depth, k + 1) {
      EndsAtLower(b, c, requested, d, depth, next, k);
    }
  }

  lemma EndsAtLift(b: Board, c: Coord, requested: CellState, d: Direction, depth: int, next: Coord, k: int)
    requires OnBoard(c) && Neighbor(c, d) == Some(next) && 0 <= k
    requires PassesAt(b, c, requested, d, depth, 0)
    requires EndsAt(b, next, requested, d, depth + 1, k)
    ensures EndsAt(b, c, requested, d, depth, k + 1)
  {
    PassesShift(b, c, requested, d, depth, next, k);
    forall m | 0 <= m < k + 1
      ensures PassesAt(b, c, requested, d, depth, m)
    {
      if m > 0 {
        PassesShift(b, c, requested, d, depth, next, m - 1);
      }
    }
  }

  lemma EndsAtLower(b: Board, c: Coord, requested: CellState, d: Direction, depth: int, next: Coord, k: int)
    requires OnBoard(c) && Neighbor(c, d) == Some(next) && 0 <= k
    requires EndsAt(b, c, requested, d, depth, k + 1)
    ensures EndsAt(b, next, requested, d, depth + 1, k)
  {
    var deeper := depth + 1;
    PassesShift(b, c, requested, d, depth, next, k);
    forall m | 0 <= m < k
      ensures PassesAt(b, next, requested, d, deeper, m)
    {
      PassesShift(b, c, requested, d, depth, next, m);
    }
  }

  /** EndsAtShift for every k, and the walk from `c` cannot end at its own start. */
  lemma EndsAtShiftAll(b: Board, c: Coord, requested: CellState, d: Direction, depth: int, next: Coord, deeper: int)
    requires OnBoard(c) && Neighbor(c, d) == Some(next) && deeper == depth + 1
    requires PassesAt(b, c, requested, d, depth, 0)
    ensures forall k | 0 <= k && EndsAt(b, next, requested, d, deeper, k) :: EndsAt(b, c, requested, d, depth, k + 1)
    ensures forall k | 1 <= k && EndsAt(b, c, requested, d, depth, k) :: EndsAt(b, next, requested, d, deeper, k - 1)
    ensures !EndsAt(b, c, requested, d, depth, 0)
  {
    forall k | 0 <= k && EndsAt(b, next, requested, d, deeper, k)
      ensures EndsAt(b, c, requested, d, depth, k + 1)
    {
      EndsAtShift(b, c, requested, d, depth, next, k);
    }
    forall k | 1 <= k && EndsAt(b, c, requested, d, depth, k)
      ensures EndsAt(b, next, requested, d, deeper, k - 1)
    {
      EndsAtShift(b, c, requested, d, depth, next, k - 1);
    }
    RayStep(c, d, 0);
  }

  lemma SegmentShift(c: Coord, d: Direction, next: Coord, n: nat)
    requires OnBoard(c) && Neighbor(c, d) == Some(next)
    ensures Segment(c, d, n + 1) == Segment(next, d, n) + {c}
  {
    forall m | 0 <= m
      ensures Ray(next, d, m) == Ray(c, d, m + 1)
    {
      RayStep(c, d, m);
    }
    forall x | x in Segment(c, d, n + 1)
      ensures x in Segment(next, d, n) + {c}
    {
      var m :| 0 <= m < n + 1 && x == Ray(c, d, m);
      if m > 0 {
        assert x == Ray(next, d, m - 1);
      }
    }
    forall x | x in Segment(next, d, n) + {c}
      ensures x in Segment(c, d, n + 1)
    {
      if x == c {
        assert x == Ray(c, d, 0);
      } else {
        var m :| 0 <= m < n && x == Ray(next, d, m);
        assert x == Ray(c, d, m + 1);
      }
    }
  }

  /**
   * What a call of Traverse from `c` at depth `depth` reports: a positive
   * distance exactly when the walk ends somewhere (other than at its start at
   * depth 0), that distance being the depth of the cell where it ends, and as
   * flips the cells it passed through before that one.
   */
  ghost predicate Reports(b: Board, c: Coord, requested: CellState, d: Direction, depth: int, r: Trace) {
    && OnBoard(c)
    && 0 <= r.distance
    && (depth < 0 ==> r == Trace(0, {}))
    && (depth >= 0 ==> (r.distance > 0 <==> exists k :: EndsAt(b, c, requested, d, depth, k) && depth + k > 0))
    && (r.distance > 0 ==> depth <= r.distance && EndsAt(b, c, requested, d, depth, r.distance - depth))
    && r.flips == (if r.distance > 0 then Segment(c, d, r.distance - depth) else {})
  }

  /** One level of Traverse's recursion: stepping back from the neighbour's report to this cell's. */
  lemma ReportsStep(b: Board, c: Coord, requested: CellState, d: Direction, depth: int, next: Coord, r: Trace)
    requires OnBoard(c) && Neighbor(c, d) == Some(next) && 0 <= depth
    requires At(b, c) != requested && (At(b, c) != EMPTY || depth == 0)
    requires Reports(b, next, requested, d, depth + 1, r)
    ensures Reports(b, c, requested, d, depth, if r.distance > 0 then Trace(r.distance, r.flips + {c}) else r)
  {
    RayStep(c, d, 0);
    assert PassesAt(b, c, requested, d, depth, 0);
    EndsAtShiftAll(b, c, requested, d, depth, next, depth + 1);
    if r.distance > 0 {
      ReportsStepFound(b, c, requested, d, depth, next, r);
    } else {
      assert !exists k :: EndsAt(b, c, requested, d, depth, k) && depth + k > 0;
    }
  }

  lemma ReportsStepFound(b: Board, c: Coord, requested: CellState, d: Direction, depth: int, next: Coord, r: Trace)
    requires OnBoard(c) && Neighbor(c, d) == Some(next) && 0 <= depth
    requires PassesAt(b, c, requested, d, depth, 0)
    requires Reports(b, next, requested, d, depth + 1, r) && r.distance > 0
    ensures Reports(b, c, requested, d, depth, Trace(r.distance, r.flips + {c}))
  {
    var k := r.distance - depth - 1;
    assert EndsAt(b, next, requested, d, depth + 1, k);
    EndsAtShift(b, c, requested, d, depth, next, k);
    SegmentShift(c, d, next, k);
  }

  /**
   * `ReversiGraph.Traverse`: walks from `current` along `d`, one step per
   * level of recursion, looking for a cell in state `requested`.  It returns
   * the depth at which it finds one, and 0 when it meets an empty cell below
   * depth 0 or runs off the edge of the board.  On the way back from a
   * successful walk every cell it passed through, the starting one included,
   * is added to the sink (`flips`).  Each step follows the cell's `Edges`
   * entry and looks the stored name up among the cells; `EdgesAreNeighbors` shows
   * that this is the offset neighbour, which bounds the recursion.
   */
  function Traverse(b: Board, current: Coord, requested: CellState, d: Direction, depth: int): (r: Trace)
    requires OnBoard(current)
    ensures Reports(b, current, requested, d, depth, r)
    decreases StepsLeft(current, d)
  {
    if depth < 0 then Trace(0, {})
    else if At(b, current) == requested then
      RayStep(current, d, 0);
      assert EndsAt(b, current, requested, d, depth, 0);
      StopsAtStart(b, current, requested, d, depth);
      Trace(depth, {})
    else if At(b, current) == EMPTY && depth != 0 then
      RayStep(current, d, 0);
      StopsAtStart(b, current, requested, d, depth);
      Trace(0, {})
    else if d in Edges(current) then
      EdgesAreNeighbors(current, d);
      var next := ParseName(Edges(current)[d]).value;
      var r := Traverse(b, next, requested, d, depth + 1);
      ReportsStep(b, current, requested, d, depth, next, r);
      if r.distance > 0 then Trace(r.distance, r.flips + {current}) else r
    else
      EdgesAreNeighbors(current, d);
      Trace(0, {})
  }

  /**
   * A capture line: from `c`, steps 1 .. k-1 along `d` hold the opponent of
   * colour `s` and step k holds `s` itself.
   */
  ghost predicate Capped(b: Board, c: Coord, s: CellState, d: Direction, k: int) {
    && OnBoard(c)
    && 1 <= k <= StepsLeft(c, d)
    && At(b, Ray(c, d, k)) == s
    && forall m | 1 <= m < k :: At(b, Ray(c, d, m)) == Flip(s)
  }

  /** From a cell not of the sought colour, a walk at depth 0 ends k >= 1 steps away exactly on a capture line. */
  lemma EndsAtIsCapped(b: Board, c: Coord, requested: CellState, d: Direction, k: int)
    requires OnBoard(c) && requested != EMPTY && At(b, c) != requested && 1 <= k
    ensures EndsAt(b, c, requested, d, 0, k) <==> Capped(b, c, requested, d, k)
  {
    if EndsAt(b, c, requested, d, 0, k) {
      forall m | 1 <= m < k
        ensures At(b, Ray(c, d, m)) == Flip(requested)
      {
        assert PassesAt(b, c, requested, d, 0, m);
      }
    }
    if Capped(b, c, requested, d, k) {
      forall m | 0 <= m < k
        ensures PassesAt(b, c, requested, d, 0, m)
      {
        RayStep(c, d, 0);
      }
    }
  }

  /**
   * Traverse as the move rules call it, from a cell not of the sought colour
   * at depth 0: it returns k > 0 exactly when a capture line ends k steps
   * away, never more than 7, and then its sink receives steps 0 .. k-1.
   */
  lemma TraverseFromStart(b: Board, c: Coord, requested: CellState, d: Direction)
    requires OnBoard(c) && requested != EMPTY && At(b, c) != requested
    ensures var r := Traverse(b, c, requested, d, 0);
      && 0 <= r.distance <= 7
      && (forall k | 1 <= k :: r.distance == k <==> Capped(b, c, requested, d, k))
      && r.flips == (if r.distance > 0 then Segment(c, d, r.distance) else {})
  {
    var r := Traverse(b, c, requested, d, 0);
    forall k | 1 <= k
      ensures r.distance == k <==> Capped(b, c, requested, d, k)
    {
      EndsAtIsCapped(b, c, requested, d, k);
      if EndsAt(b, c, requested, d, 0, k) {
        EndsAtUnique(b, c, requested, d, 0, k, r.distance);
      }
    }
  }

  /* ---------------------------------------------------------------------- */
  /* Counts                                                                  */

  /** The cells in state `s`. */
  function CellsWith(b: Board, s: CellState): set<Coord> {
    set c | c in AllPos && At(b, c) == s
  }

  /**
   * The number of cells in state `s`: what `Examine` stores and
   * `GetWhiteScore`, `GetBlackScore` and `GetEmptyCount` return for WHITE,
   * BLACK and EMPTY.
   */
  function Count(b: Board, s: CellState): (r: nat)
    ensures r <= 64
    ensures r == 0 <==> forall c | OnBoard(c) :: At(b, c) != s
  {
    CellsWithBounds(b, s);
    |CellsWith(b, s)|
  }

  lemma CellsWithBounds(b: Board, s: CellState)
    ensures |CellsWith(b, s)| <= 64
    ensures CellsWith(b, s) == {} <==> forall c | OnBoard(c) :: At(b, c) != s
  {
    AllPosIsBoard();
    BoardSize();
    var cells := CellsWith(b, s);
    assert AllPos == cells + (AllPos - cells);
    assert cells * (AllPos - cells) == {};
    if cells != {} {
      var c :| c in cells;
      assert OnBoard(c) && At(b, c) == s;
    }
  }

  /** Every cell is in exactly one of the three states, so the three counts add up to 64. */
  lemma CountsPartition(b: Board)
    ensures Count(b, WHITE) + Count(b, BLACK) + Count(b, EMPTY) == 64
  {
    var w, k, e := CellsWith(b, WHITE), CellsWith(b, BLACK), CellsWith(b, EMPTY);
    assert w * k == {};
    assert (w + k) * e == {};
    assert w + k + e == AllPos;
    BoardSize();
  }

  /** The cells of `done` that are in state `s`. */
  function Tally(b: Board, done: set<Coord>, s: CellState): set<Coord>
    requires done <= AllPos
  {
    AllPosIsBoard();
    set c | c in done && At(b, c) == s
  }

  /**
   * `ReversiGraph.Examine`: visits every cell once, in no particular order,
   * and counts the BLACK, WHITE and EMPTY ones.
   */
  method Examine(b: Board) returns (white: nat, black: nat, empty: nat)
    ensures white == Count(b, WHITE) && black == Count(b, BLACK) && empty == Count(b, EMPTY)
    ensures white + black + empty == 64
  {
    black, white, empty := 0, 0, 0;
    var todo := AllPos;
    while todo != {}
      invariant todo <= AllPos
      invariant white == |Tally(b, AllPos - todo, WHITE)|
      invariant black == |Tally(b, AllPos - todo, BLACK)|
      invariant empty == |Tally(b, AllPos - todo, EMPTY)|
      invariant white + black + empty == |AllPos - todo|
      decreases todo
    {
      var cell :| cell in todo;
      ghost var done := AllPos - todo;
      AllPosIsBoard();
      TallyGrows(b, done, cell);
      match At(b, cell) {
        case BLACK => black := black + 1;
        case WHITE => white := white + 1;
        case EMPTY => empty := empty + 1;
      }
      todo := todo - {cell};
      assert AllPos - todo == done + {cell};
    }
    TallyAll(b);
    BoardSize();
  }

  lemma TallyAll(b: Board)
    ensures forall s :: Tally(b, AllPos, s) == CellsWith(b, s)
  {
  }

  /** Visiting one more cell adds it to the tally of its own state only. */
  lemma TallyGrows(b: Board, done: set<Coord>, cell: Coord)
    requires done <= AllPos && cell in AllPos && cell !in done
    ensures forall s :: |Tally(b, done + {cell}, s)| == |Tally(b, done, s)| + (if At(b, cell) == s then 1 else 0)
    ensures |done + {cell}| == |done| + 1
  {
    forall s
      ensures |Tally(b, done + {cell}, s)| == |Tally(b, done, s)| + (if At(b, cell) == s then 1 else 0)
    {
      if At(b, cell) == s {
        assert Tally(b, done + {cell}, s) == Tally(b, done, s) + {cell};
      } else {
        assert Tally(b, done + {cell}, s) == Tally(b, done, s);
      }
    }
  }

  /**
   * `ReversiGraph.IsFinished`: the game is over when no cell is empty or one
   * colour has no piece left.
   */
  function IsFinished(b: Board): (r: bool)
    ensures r <==>
      || (forall c | OnBoard(c) :: At(b, c) != EMPTY)
      || (forall c | OnBoard(c) :: At(b, c) != BLACK)
      || (forall c | OnBoard(c) :: At(b, c) != WHITE)
  {
    Count(b, EMPTY) == 0 || Count(b, BLACK) == 0 || Count(b, WHITE) == 0
  }
}
