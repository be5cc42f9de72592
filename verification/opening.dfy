/**
 * Facts about the position the ReversiGraph constructor sets up: the four
 * centre pieces, the piece counts, WHITE's four legal first moves and what
 * each of them captures.
 */
module Opening {
  import opened Wrappers
  import opened Geometry
  import opened Graph
  import opened Rules

  /** The state of every cell of a new graph. */
  function StartState(c: Coord): CellState {
    if c == Coord(3, 3) || c == Coord(4, 4) then CellState.BLACK
    else if c == Coord(3, 4) || c == Coord(4, 3) then CellState.WHITE
    else EMPTY
  }

  ghost predicate IsStart(b: Board) {
    forall c | OnBoard(c) :: At(b, c) == StartState(c)
  }

  /** WHITE's legal first moves: _D3, _C4, _F5 and _E6. */
  const OpeningCells: set<Coord> := {Coord(2, 3), Coord(3, 2), Coord(4, 5), Coord(5, 4)}

  /** The piece each opening move captures. */
  function OpeningCapture(c: Coord): Coord {
    if c == Coord(2, 3) || c == Coord(3, 2) then Coord(3, 3) else Coord(4, 4)
  }

  /**
   * The constructor places BLACK on _D4 and _E5, WHITE on _E4 and _D5, and
   * leaves the other sixty cells empty; the game is not over.
   */
  lemma InitialLayout()
    ensures IsStart(NewGraph())
    ensures Name(Coord(3, 3)) == "_D4" && Name(Coord(4, 4)) == "_E5"
    ensures Name(Coord(3, 4)) == "_E4" && Name(Coord(4, 3)) == "_D5"
    ensures Count(NewGraph(), CellState.BLACK) == 2 && Count(NewGraph(), CellState.WHITE) == 2
    ensures Count(NewGraph(), EMPTY) == 60
    ensures !IsFinished(NewGraph())
  {
    NewGraphLayout();
    StartCounts(NewGraph());
  }

  lemma NewGraphLayout()
    ensures IsStart(NewGraph())
  {
    var b := NewGraph();
    forall c | OnBoard(c)
      ensures At(b, c) == StartState(c)
    {
    }
  }

  lemma StartCounts(b: Board)
    requires IsStart(b)
    ensures Count(b, CellState.BLACK) == 2 && Count(b, CellState.WHITE) == 2 && Count(b, EMPTY) == 60
    ensures !IsFinished(b)
  {
    AllPosIsBoard();
    assert CellsWith(b, CellState.BLACK) == {Coord(3, 3), Coord(4, 4)};
    assert CellsWith(b, CellState.WHITE) == {Coord(3, 4), Coord(4, 3)};
    CountsPartition(b);
    assert At(b, Coord(0, 0)) == EMPTY;
  }

  /**
   * Every capture line WHITE can draw in the opening position has length
   * two, starts at an opening cell and runs over that cell's captured piece.
   */
  lemma OpeningLine(b: Board, c: Coord, d: Direction, k: int)
    requires IsStart(b) && OnBoard(c) && At(b, c) == EMPTY
    requires 1 < k && Capped(b, c, CellState.WHITE, d, k)
    ensures k == 2 && c in OpeningCells && Ray(c, d, 1) == OpeningCapture(c)
  {
    var r1, r2 := Ray(c, d, 1), Ray(c, d, 2);
    assert At(b, r1) == CellState.BLACK;
    assert r1 == Coord(3, 3) || r1 == Coord(4, 4);
    assert k == 2;
    assert At(b, r2) == CellState.WHITE;
  }

  /** The opening-cell capture lines, as (direction, length) witnesses. */
  lemma OpeningLineExists(b: Board, c: Coord)
    requires IsStart(b) && c in OpeningCells
    ensures OnBoard(c) && Capped(b, c, CellState.WHITE, OpeningDirection(c), 2)
  {
  }

  function OpeningDirection(c: Coord): Direction {
    if c == Coord(2, 3) then S
    else if c == Coord(3, 2) then E
    else if c == Coord(4, 5) then W
    else N
  }

  /** WHITE, who moves first, has exactly four legal moves: _D3, _C4, _F5 and _E6. */
  lemma OpeningMoves(b: Board)
    requires IsStart(b)
    ensures forall c | OnBoard(c) :: IsValidMove(b, c, Player.WHITE) <==> c in OpeningCells
  {
    forall c | OnBoard(c)
      ensures IsValidMove(b, c, Player.WHITE) <==> c in OpeningCells
    {
      OpeningMove(b, c);
    }
  }

  /** The names of the four opening cells. */
  lemma OpeningNames()
    ensures Name(Coord(2, 3)) == "_D3" && Name(Coord(3, 2)) == "_C4"
    ensures Name(Coord(4, 5)) == "_F5" && Name(Coord(5, 4)) == "_E6"
  {
  }

  lemma OpeningMove(b: Board, c: Coord)
    requires IsStart(b) && OnBoard(c)
    ensures IsValidMove(b, c, Player.WHITE) <==> c in OpeningCells
  {
    ValidMoveSpec(b, c, Player.WHITE);
    if IsValidMove(b, c, Player.WHITE) {
      var d, k :| 1 < k && Capped(b, c, CellState.WHITE, d, k);
      OpeningLine(b, c, d, k);
    }
    if c in OpeningCells {
      OpeningLineExists(b, c);
      assert At(b, c) == EMPTY;
      assert 1 < 2 && Capped(b, c, SeekingState(Player.WHITE), OpeningDirection(c), 2);
    }
  }

  /** Each opening move captures exactly one piece: the BLACK one it lies next to. */
  lemma OpeningCaptures(b: Board, c: Coord)
    requires IsStart(b) && c in OpeningCells
    ensures OnBoard(c) && CaptureSet(b, c, Player.WHITE) == {OpeningCapture(c)}
  {
    forall x | x in CaptureSet(b, c, Player.WHITE)
      ensures x == OpeningCapture(c)
    {
      OnlyNeighbourCaptured(b, c, x);
    }
    NeighbourCaptured(b, c);
  }

  lemma OnlyNeighbourCaptured(b: Board, c: Coord, x: Coord)
    requires IsStart(b) && c in OpeningCells && x in CaptureSet(b, c, Player.WHITE)
    ensures x == OpeningCapture(c)
  {
    CaptureSetSound(b, c, Player.WHITE, x);
    var d, k, m :| Capped(b, c, CellState.WHITE, d, k) && 1 <= m < k && x == Ray(c, d, m);
    OpeningLine(b, c, d, k);
    assert m == 1;
  }

  lemma NeighbourCaptured(b: Board, c: Coord)
    requires IsStart(b) && c in OpeningCells
    ensures OnBoard(c) && OpeningCapture(c) in CaptureSet(b, c, Player.WHITE)
  {
    OpeningLineExists(b, c);
    var d := OpeningDirection(c);
    assert Captured(b, c, CellState.WHITE, Ray(c, d, 1));
    CaptureSetComplete(b, c, Player.WHITE, Ray(c, d, 1));
  }

  /**
   * Clicking an opening cell in the opening position places a WHITE piece
   * there, captures one BLACK piece and passes the turn: four WHITE, one
   * BLACK, fifty-nine empty.
   */
  lemma OpeningClick(g: Game, c: Coord)
    requires IsStart(g.board) && g.currentTurn == Player.WHITE && c in OpeningCells
    ensures ItemClicked(g, Name(c)).Success?
    ensures var g' := ItemClicked(g, Name(c)).value;
      && g'.currentTurn == Player.BLACK
      && At(g'.board, c) == CellState.WHITE
      && At(g'.board, OpeningCapture(c)) == CellState.WHITE
      && Count(g'.board, CellState.WHITE) == 4
      && Count(g'.board, CellState.BLACK) == 1
      && Count(g'.board, EMPTY) == 59
  {
    OpeningClickMoves(g, c);
    StartCounts(g.board);
    OpeningMoveCounts(g, c);
  }

  /** Clicking an opening cell in the opening position performs WHITE's move there. */
  lemma OpeningClickMoves(g: Game, c: Coord)
    requires IsStart(g.board) && g.currentTurn == Player.WHITE && c in OpeningCells
    ensures OnBoard(c) && ItemClicked(g, Name(c)) == Success(PerformMove(g, c, Player.WHITE))
  {
    OpeningMove(g.board, c);
    NameParses(c);
  }

  lemma OpeningMoveCounts(g: Game, c: Coord)
    requires IsStart(g.board) && g.currentTurn == Player.WHITE && c in OpeningCells
    ensures var g' := PerformMove(g, c, Player.WHITE);
      && At(g'.board, OpeningCapture(c)) == CellState.WHITE
      && Count(g'.board, CellState.WHITE) == Count(g.board, CellState.WHITE) + 2
      && Count(g'.board, CellState.BLACK) == Count(g.board, CellState.BLACK) - 1
      && Count(g'.board, EMPTY) == Count(g.board, EMPTY) - 1
  {
    OpeningCaptures(g.board, c);
    PerformMoveCounts(g, c, Player.WHITE);
    CaptureSetSpec(g.board, c, Player.WHITE);
    assert Captured(g.board, c, CellState.WHITE, OpeningCapture(c));
  }

  /** In the opening position a click on any cell but the four opening cells changes nothing. */
  lemma OpeningIllegalClick(g: Game, c: Coord)
    requires IsStart(g.board) && g.currentTurn == Player.WHITE && OnBoard(c) && c !in OpeningCells
    ensures ItemClicked(g, Name(c)) == Success(g)
  {
    OpeningMoves(g.board);
    NameParses(c);
    CellNamesParse(Name(c));
  }

  /** A new game is in the opening position with WHITE to move. */
  lemma NewGameIsStart()
    ensures IsStart(NewGame().board) && NewGame().currentTurn == Player.WHITE
  {
    InitialLayout();
  }
}
