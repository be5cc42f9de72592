/**
 * The move rules of the Singleton controller: whose turn it is, whether a
 * cell is a legal move, the set of legal moves, performing a move (flipping
 * the captured pieces, placing the new one, passing the turn), the click
 * handler that ties them together, and the leaf case of the negamax search.
 */
module Rules {
  import opened Wrappers
  import opened Geometry
  import opened Graph

  datatype Player = WHITE | BLACK

  /** The other player: performMove's turn toggle. */
  function Other(p: Player): (q: Player)
    ensures q != p
  {
    if p == Player.WHITE then Player.BLACK else Player.WHITE
  }

  /** `getSeekingState`: the colour a player places, and looks for at the far end of a capture line. */
  function SeekingState(player: Player): (s: CellState)
    ensures s != EMPTY
  {
    if player == Player.WHITE then CellState.WHITE else CellState.BLACK
  }

  /** The two players place opposite colours. */
  lemma SeekingStatesOpposite(player: Player)
    ensures SeekingState(Other(player)) == Flip(SeekingState(player))
    ensures SeekingState(Other(player)) != SeekingState(player)
  {
  }

  /** The controller's state: the canonical graph and `currentTurn`. */
  datatype Game = Game(board: Board, currentTurn: Player)

  /** The state `Start` sets up: a new graph with WHITE to move. */
  function NewGame(): Game {
    Game(NewGraph(), Player.WHITE)
  }

  /* ---------------------------------------------------------------------- */
  /* Legality                                                                */

  /**
   * `isValidMove`: an occupied cell is never a move; otherwise some direction
   * with an edge must find the mover's colour more than one step away.
   */
  function IsValidMove(b: Board, given: Coord, player: Player): bool
    requires OnBoard(given)
  {
    && At(b, given) == EMPTY
    && exists d | d in Directions ::
         d in Edges(given) && Traverse(b, given, SeekingState(player), d, 0).distance > 1
  }

  /**
   * A move is legal exactly when the cell is empty and, in some direction, a
   * run of at least one opposing piece is capped by one of the mover's own.
   */
  lemma ValidMoveSpec(b: Board, given: Coord, player: Player)
    requires OnBoard(given)
    ensures IsValidMove(b, given, player) <==>
      At(b, given) == EMPTY && exists d, k :: 1 < k && Capped(b, given, SeekingState(player), d, k)
  {
    var s := SeekingState(player);
    if At(b, given) == EMPTY {
      forall d
        ensures d in Directions
        ensures d in Edges(given) <==> StepsLeft(given, d) > 0
      {
        DirectionsComplete(d);
        EdgesAreNeighbors(given, d);
      }
      forall d, k | 1 < k && Capped(b, given, s, d, k)
        ensures Traverse(b, given, s, d, 0).distance == k
      {
        TraverseFromStart(b, given, s, d);
      }
      if IsValidMove(b, given, player) {
        var d :| d in Directions && d in Edges(given) && Traverse(b, given, s, d, 0).distance > 1;
        TraverseFromStart(b, given, s, d);
        assert Capped(b, given, s, d, Traverse(b, given, s, d, 0).distance);
      }
    }
  }

  /**
   * `GetAllPossibleMoves`: visits every cell of the graph and keeps the ones
   * that are legal moves for `player`.
   */
  method GetAllPossibleMoves(b: Board, player: Player) returns (allMoves: set<Coord>)
    ensures forall c :: c in allMoves <==> OnBoard(c) && IsValidMove(b, c, player)
  {
    AllPosIsBoard();
    allMoves := {};
    var todo := AllPos;
    while todo != {}
      invariant todo <= AllPos
      invariant forall c :: c in allMoves <==> c in AllPos - todo && OnBoard(c) && IsValidMove(b, c, player)
      decreases todo
    {
      var cell :| cell in todo;
      if IsValidMove(b, cell, player) {
        allMoves := allMoves + {cell};
      }
      todo := todo - {cell};
    }
  }

  /* ---------------------------------------------------------------------- */
  /* Captures                                                                */

  /**
   * The sink `flipsNeeded` after performMove's loop over `dirs`: every
   * direction with an edge adds what its traversal adds.
   */
  function CollectFlips(b: Board, given: Coord, seeking: CellState, dirs: seq<Direction>): set<Coord>
    requires OnBoard(given)
  {
    if dirs == [] then {}
    else
      var added := if dirs[0] in Edges(given) then Traverse(b, given, seeking, dirs[0], 0).flips else {};
      added + CollectFlips(b, given, seeking, dirs[1..])
  }

  /** The cells performMove flips: the collected sink with the target cell removed. */
  function CaptureSet(b: Board, given: Coord, player: Player): set<Coord>
    requires OnBoard(given)
  {
    CollectFlips(b, given, SeekingState(player), Directions) - {given}
  }

  /** Cell `x` lies strictly inside a capture line that starts at `given`. */
  ghost predicate Captured(b: Board, given: Coord, s: CellState, x: Coord) {
    exists d, k, m :: Capped(b, given, s, d, k) && 1 <= m < k && x == Ray(given, d, m)
  }

  lemma CollectFlipsMember(b: Board, given: Coord, seeking: CellState, dirs: seq<Direction>, x: Coord)
    requires OnBoard(given)
    ensures x in CollectFlips(b, given, seeking, dirs) <==>
      exists i | 0 <= i < |dirs| :: dirs[i] in Edges(given) && x in Traverse(b, given, seeking, dirs[i], 0).flips
  {
    if dirs != [] {
      CollectFlipsMember(b, given, seeking, dirs[1..], x);
      if x in CollectFlips(b, given, seeking, dirs[1..]) {
        var i :| 0 <= i < |dirs[1..]| && dirs[1..][i] in Edges(given) && x in Traverse(b, given, seeking, dirs[1..][i], 0).flips;
        assert dirs[i + 1] == dirs[1..][i];
      }
      forall i | 1 <= i < |dirs|
        ensures dirs[i] == dirs[1..][i - 1]
      {
      }
    }
  }

  lemma CaptureSetSound(b: Board, given: Coord, player: Player, x: Coord)
    requires OnBoard(given) && At(b, given) == EMPTY && x in CaptureSet(b, given, player)
    ensures Captured(b, given, SeekingState(player), x)
  {
    var s := SeekingState(player);
    CollectFlipsMember(b, given, s, Directions, x);
    var i :| 0 <= i < |Directions| && Directions[i] in Edges(given) && x in Traverse(b, given, s, Directions[i], 0).flips;
    TraversedCaptured(b, given, s, Directions[i], x);
  }

  /** A cell other than the start that one traversal adds lies inside a capture line. */
  lemma TraversedCaptured(b: Board, given: Coord, s: CellState, d: Direction, x: Coord)
    requires OnBoard(given) && At(b, given) == EMPTY && s != EMPTY
    requires x in Traverse(b, given, s, d, 0).flips && x != given
    ensures Captured(b, given, s, x)
  {
    var r := Traverse(b, given, s, d, 0);
    TraverseFromStart(b, given, s, d);
    var k := r.distance;
    assert k > 0 && r.flips == Segment(given, d, k);
    var m :| 0 <= m < k && x == Ray(given, d, m);
    RayStep(given, d, 0);
    assert m != 0;
    assert Capped(b, given, s, d, k) && 1 <= m < k && x == Ray(given, d, m);
  }

  lemma CaptureSetComplete(b: Board, given: Coord, player: Player, x: Coord)
    requires OnBoard(given) && At(b, given) == EMPTY && Captured(b, given, SeekingState(player), x)
    ensures x in CaptureSet(b, given, player)
  {
    var s := SeekingState(player);
    var d, k, m :| Capped(b, given, s, d, k) && 1 <= m < k && x == Ray(given, d, m);
    CappedTraversed(b, given, s, d, k, m);
    TraversedCollected(b, given, s, d, x);
  }

  /** What the traversal along a direction with an edge adds ends up in the collected sink. */
  lemma TraversedCollected(b: Board, given: Coord, s: CellState, d: Direction, x: Coord)
    requires OnBoard(given) && d in Edges(given) && x in Traverse(b, given, s, d, 0).flips
    ensures x in CollectFlips(b, given, s, Directions)
  {
    assert Directions[DirIndex(d)] == d;
    CollectFlipsMember(b, given, s, Directions, x);
  }

  /** A cell strictly inside a capture line is added by the traversal along that line's direction, which has an edge. */
  lemma CappedTraversed(b: Board, given: Coord, s: CellState, d: Direction, k: int, m: int)
    requires OnBoard(given) && At(b, given) == EMPTY && s != EMPTY
    requires Capped(b, given, s, d, k) && 1 <= m < k
    ensures d in Edges(given) && Ray(given, d, m) in Traverse(b, given, s, d, 0).flips
    ensures Ray(given, d, m) != given
  {
    TraverseFromStart(b, given, s, d);
    EdgesAreNeighbors(given, d);
    assert Ray(given, d, m) in Segment(given, d, k);
  }

  /**
   * The cells performMove flips are exactly the cells strictly inside some
   * capture line from the target, and every one of them holds the
   * opponent's colour.
   */
  lemma CaptureSetSpec(b: Board, given: Coord, player: Player)
    requires OnBoard(given) && At(b, given) == EMPTY
    ensures forall x :: x in CaptureSet(b, given, player) <==> Captured(b, given, SeekingState(player), x)
    ensures forall x | x in CaptureSet(b, given, player) :: OnBoard(x) && At(b, x) == Flip(SeekingState(player))
  {
    var s := SeekingState(player);
    forall x
      ensures x in CaptureSet(b, given, player) <==> Captured(b, given, s, x)
    {
      if x in CaptureSet(b, given, player) {
        CaptureSetSound(b, given, player, x);
      }
      if Captured(b, given, s, x) {
        CaptureSetComplete(b, given, player, x);
      }
    }
    forall x | Captured(b, given, s, x)
      ensures OnBoard(x) && At(b, x) == Flip(s)
    {
      var d, k, m :| Capped(b, given, s, d, k) && 1 <= m < k && x == Ray(given, d, m);
    }
  }

  /* ---------------------------------------------------------------------- */
  /* Performing a move                                                       */

  /**
   * `performMove`: does nothing unless the cell is empty and it is `player`'s
   * turn.  It does not check that the move is legal; `ItemClicked` does.
   * Otherwise every captured piece changes colour, the target cell takes the
   * mover's colour, every other cell keeps its state, and the turn passes.
   */
  function PerformMove(g: Game, given: Coord, player: Player): (g': Game)
    requires OnBoard(given)
    ensures At(g.board, given) != EMPTY || g.currentTurn != player ==> g' == g
    ensures At(g.board, given) == EMPTY && g.currentTurn == player ==>
      && g'.currentTurn == Other(player)
      && At(g'.board, given) == SeekingState(player)
      && forall x | OnBoard(x) && x != given ::
           At(g'.board, x) == if Captured(g.board, given, SeekingState(player), x) then SeekingState(player) else At(g.board, x)
  {
    if At(g.board, given) != EMPTY || g.currentTurn != player then g
    else
      var flipsNeeded := CaptureSet(g.board, given, player);
      CaptureSetSpec(g.board, given, player);
      SeekingStatesOpposite(player);
      Game(Place(FlipAll(g.board, flipsNeeded), given, SeekingState(player)), Other(g.currentTurn))
  }

  /**
   * Counts after a move by the player to move on an empty cell: one empty
   * cell fewer, the mover gains the placed piece and the f captured ones, the
   * opponent loses those f; and f >= 1 exactly when the move is legal.
   */
  lemma PerformMoveCounts(g: Game, given: Coord, player: Player)
    requires OnBoard(given) && At(g.board, given) == EMPTY && g.currentTurn == player
    ensures
      var b, b' := g.board, PerformMove(g, given, player).board;
      var mine, theirs := SeekingState(player), SeekingState(Other(player));
      var f := |CaptureSet(b, given, player)|;
      && Count(b', EMPTY) == Count(b, EMPTY) - 1
      && Count(b', mine) == Count(b, mine) + 1 + f
      && Count(b', theirs) == Count(b, theirs) - f
      && (f >= 1 <==> IsValidMove(b, given, player))
  {
    var b, b' := g.board, PerformMove(g, given, player).board;
    var mine := SeekingState(player);
    SeekingStatesOpposite(player);
    var flips := CaptureSet(b, given, player);
    CaptureSetSpec(b, given, player);
    MoveCellSets(b, b', given, mine, flips);
    CaptureNonEmpty(b, given, player);
  }

  /**
   * How the three colour classes change when `flips` (cells of the opposing
   * colour) change to `mine` and the empty cell `given` takes `mine`.
   */
  lemma MoveCellSets(b: Board, b': Board, given: Coord, mine: CellState, flips: set<Coord>)
    requires OnBoard(given) && At(b, given) == EMPTY && mine != EMPTY
    requires forall x | x in flips :: OnBoard(x) && At(b, x) == Flip(mine)
    requires At(b', given) == mine
    requires forall x | OnBoard(x) && x != given :: At(b', x) == if x in flips then mine else At(b, x)
    ensures Count(b', EMPTY) == Count(b, EMPTY) - 1
    ensures Count(b', mine) == Count(b, mine) + 1 + |flips|
    ensures Count(b', Flip(mine)) == Count(b, Flip(mine)) - |flips|
  {
    AllPosIsBoard();
    var theirs := Flip(mine);
    assert given !in flips;
    var m, t, e := CellsWith(b, mine), CellsWith(b, theirs), CellsWith(b, EMPTY);
    assert CellsWith(b', EMPTY) == e - {given};
    assert CellsWith(b', mine) == m + flips + {given};
    assert CellsWith(b', theirs) == t - flips;
    assert flips <= t;
    assert m * flips == {};
    assert (m + flips) * {given} == {};
    assert t == (t - flips) + flips && (t - flips) * flips == {};
    assert given in e;
    assert e == (e - {given}) + {given};
  }

  /** Some piece is captured exactly when the move is legal. */
  lemma CaptureNonEmpty(b: Board, given: Coord, player: Player)
    requires OnBoard(given) && At(b, given) == EMPTY
    ensures CaptureSet(b, given, player) != {} <==> IsValidMove(b, given, player)
  {
    var s := SeekingState(player);
    CaptureSetSpec(b, given, player);
    ValidMoveSpec(b, given, player);
    if IsValidMove(b, given, player) {
      var d, k :| 1 < k && Capped(b, given, s, d, k);
      assert Captured(b, given, s, Ray(given, d, 1));
    }
    if CaptureSet(b, given, player) != {} {
      var x :| x in CaptureSet(b, given, player);
      var d, k, m :| Capped(b, given, s, d, k) && 1 <= m < k && x == Ray(given, d, m);
      assert 1 < k;
    }
  }

  /* ---------------------------------------------------------------------- */
  /* Click handling and search                                               */

  datatype Error = UnknownCell(name: string)

  /**
   * `itemClicked`: looks the name up among the cells (an unknown name is the
   * dictionary's missing-key error) and performs the move for the player to
   * move if it is legal: the clicked cell takes the mover's colour, every
   * captured piece turns, the mover gains one piece plus the captures and the
   * opponent loses the captures.  An illegal click changes nothing.
   */
  function ItemClicked(g: Game, name: string): (r: Result<Game, Error>)
    ensures r.Failure? <==> name !in CellNames
    ensures r.Success? ==>
      var c := ParseName(name).value;
      && OnBoard(c)
      && (r.value == g <==> !IsValidMove(g.board, c, g.currentTurn))
      && (IsValidMove(g.board, c, g.currentTurn) ==>
            var mine, theirs := SeekingState(g.currentTurn), SeekingState(Other(g.currentTurn));
            var f := |CaptureSet(g.board, c, g.currentTurn)|;
            && r.value.currentTurn == Other(g.currentTurn)
            && At(r.value.board, c) == mine
            && (forall x | OnBoard(x) && x != c ::
                  At(r.value.board, x) == if Captured(g.board, c, mine, x) then mine else At(g.board, x))
            && f >= 1
            && Count(r.value.board, EMPTY) == Count(g.board, EMPTY) - 1
            && Count(r.value.board, mine) == Count(g.board, mine) + 1 + f
            && Count(r.value.board, theirs) == Count(g.board, theirs) - f)
  {
    CellNamesParse(name);
    match ParseName(name)
    case None => Failure(UnknownCell(name))
    case Some(c) =>
      if IsValidMove(g.board, c, g.currentTurn) then
        PerformMoveCounts(g, c, g.currentTurn);
        Success(PerformMove(g, c, g.currentTurn))
      else
        Success(g)
  }

  /** A search result: the chosen cell's name (none at a leaf) and its score for the mover. */
  datatype Move = Move(cell: Option<string>, score: int)

  /**
   * The leaf case of `negamax`: a missing graph yields no move; at depth 0
   * or below, or on a finished board, the score is the mover's piece count
   * minus the opponent's, with no cell.
   */
  function Negamax(graph: Option<Board>, player: Player, alpha: int, beta: int, depth: int): (r: Option<Move>)
    requires graph.Some? ==> depth <= 0 || IsFinished(graph.value)
    ensures r.None? <==> graph.None?
    ensures r.Some? ==>
      && r.value.cell.None?
      && r.value.score == Count(graph.value, SeekingState(player)) - Count(graph.value, SeekingState(Other(player)))
  {
    match graph
    case None => None
    case Some(b) =>
      var score := Count(b, CellState.WHITE) - Count(b, CellState.BLACK);
      Some(Move(None, if player == Player.BLACK then -score else score))
  }

  /** The leaf score is zero-sum between the two players and bounded by the board size. */
  lemma NegamaxLeafZeroSum(b: Board, player: Player, alpha: int, beta: int, depth: int)
    requires depth <= 0 || IsFinished(b)
    ensures Negamax(Some(b), player, alpha, beta, depth).value.score
         == -Negamax(Some(b), Other(player), -beta, -alpha, depth).value.score
    ensures -64 <= Negamax(Some(b), player, alpha, beta, depth).value.score <= 64
  {
    CountsPartition(b);
  }
}
