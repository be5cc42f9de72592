/**
 * The fixed topology of the 8x8 Reversi board: cell coordinates, the eight
 * compass directions, walking along a direction, the cell names and the
 * adjacency table that the ReversiGraph constructor builds.
 *
 * A cell is identified by `Coord(row, col)`, where `row` is the index i of the
 * constructor's outer loop and `col` the index j of its inner loop.  Its name
 * is "_" followed by the letter 'A' + j and the digit i + 1.
 */
module Geometry {
  import opened Wrappers

  datatype Coord = Coord(row: int, col: int)

  predicate OnBoard(c: Coord) {
    0 <= c.row < 8 && 0 <= c.col < 8
  }

  /** The cells of the first m rows. */
  function Grid(m: int): set<Coord> {
    set i, j | 0 <= i < m && 0 <= j < 8 :: Coord(i, j)
  }

  /** The 64 cells of the board. */
  const AllPos: set<Coord> := Grid(8)

  lemma AllPosIsBoard()
    ensures forall c :: c in AllPos <==> OnBoard(c)
  {
    forall c | OnBoard(c)
      ensures c in AllPos
    {
      assert c == Coord(c.row, c.col);
    }
  }

  /** `Singleton.Direction`, in declaration order; `NONE` is a placeholder that no cell has an edge for. */
  datatype Direction = NONE | N | S | E | W | NE | NW | SE | SW

  /** The values `Enum.GetValues` yields for `Direction`, in order. */
  const Directions: seq<Direction> := [NONE, N, S, E, W, NE, NW, SE, SW]

  lemma DirectionsComplete(d: Direction)
    ensures d in Directions
  {
  }

  /** The position of `d` in the enum's declaration order. */
  function DirIndex(d: Direction): (i: nat)
    ensures i < |Directions| && Directions[i] == d
  {
    match d
    case NONE => 0
    case N => 1
    case S => 2
    case E => 3
    case W => 4
    case NE => 5
    case NW => 6
    case SE => 7
    case SW => 8
  }

  /** Row offset of one step: north is towards row 0. */
  function DRow(d: Direction): int {
    match d
    case N | NE | NW => -1
    case S | SE | SW => 1
    case _ => 0
  }

  /** Column offset of one step: west is towards column 0. */
  function DCol(d: Direction): int {
    match d
    case W | NW | SW => -1
    case E | NE | SE => 1
    case _ => 0
  }

  function Opposite(d: Direction): Direction {
    match d
    case NONE => NONE
    case N => S
    case S => N
    case E => W
    case W => E
    case NE => SW
    case SW => NE
    case NW => SE
    case SE => NW
  }

  function Shift(x: int, delta: int, m: int): int {
    if delta < 0 then x - m else if delta > 0 then x + m else x
  }

  /** The cell `m` steps away from `c` in direction `d` (step 0 is `c` itself). */
  function Ray(c: Coord, d: Direction, m: int): Coord {
    Coord(Shift(c.row, DRow(d), m), Shift(c.col, DCol(d), m))
  }

  function Room(x: int, delta: int): int {
    if delta < 0 then x else if delta > 0 then 7 - x else 7
  }

  /** How many steps one can walk from `c` in direction `d` before leaving the board. */
  function StepsLeft(c: Coord, d: Direction): (r: nat)
    requires OnBoard(c)
    ensures r <= 7
    ensures forall m :: 0 <= m <= r ==> OnBoard(Ray(c, d, m))
    ensures d != NONE ==> !OnBoard(Ray(c, d, r + 1))
  {
    if d == NONE then 0
    else
      var a, b := Room(c.row, DRow(d)), Room(c.col, DCol(d));
      if a <= b then a else b
  }

  /** The neighbour one step away in direction `d`, if that step stays on the board. */
  function Neighbor(c: Coord, d: Direction): (r: Option<Coord>)
    requires OnBoard(c)
    ensures r.Some? <==> StepsLeft(c, d) > 0
    ensures r.Some? ==> r.value == Ray(c, d, 1) && StepsLeft(r.value, d) == StepsLeft(c, d) - 1
  {
    var n := Ray(c, d, 1);
    if d != NONE && OnBoard(n) then Some(n) else None
  }

  /** Walking one more step from the neighbour is walking `m + 1` steps from `c`. */
  lemma RayStep(c: Coord, d: Direction, m: int)
    ensures Ray(Ray(c, d, 1), d, m) == Ray(c, d, m + 1)
    ensures Ray(c, d, 0) == c
  {
  }

  /** The letter-digit name of a cell, as built by `"_" + letter + row`. */
  function Name(c: Coord): string
    requires OnBoard(c)
  {
    "_" + [(65 + c.col) as char] + [(48 + (c.row + 1)) as char]
  }

  /** Looks a name up among the 64 cell names; `None` for any other string. */
  function ParseName(s: string): (r: Option<Coord>)
    ensures r.Some? ==> OnBoard(r.value)
  {
    if |s| == 3 && s[0] == '_' && 'A' <= s[1] <= 'H' && '1' <= s[2] <= '8'
    then Some(Coord(s[2] as int - 49, s[1] as int - 65))
    else None
  }

  /** The keys of the graph's `Cells` dictionary. */
  const CellNames: set<string> := set c | c in AllPos :: Name(c)

  /** Every cell's name is a key of `Cells`, and it parses back to the cell. */
  lemma NameParses(c: Coord)
    requires OnBoard(c)
    ensures Name(c) in CellNames && ParseName(Name(c)) == Some(c)
  {
    assert c == Coord(c.row, c.col);
  }

  /** A string that parses to a cell is that cell's name: names and cells correspond one to one. */
  lemma ParsedIsName(s: string, c: Coord)
    requires ParseName(s) == Some(c)
    ensures Name(c) == s
  {
    assert s == [s[0], s[1], s[2]];
  }

  /** A string is a key of `Cells` exactly when it parses as a cell name. */
  lemma CellNamesParse(s: string)
    ensures s in CellNames <==> ParseName(s).Some?
  {
    AllPosIsBoard();
    if s in CellNames {
      var c :| c in AllPos && s == Name(c);
      NameParses(c);
    }
    if ParseName(s).Some? {
      var c := ParseName(s).value;
      ParsedIsName(s, c);
      NameParses(c);
    }
  }

  /**
   * The edge table of one cell, added to in the order the ReversiGraph
   * constructor adds to it: NW, N, NE (when i > 0), W, E, then SW, S, SE
   * (when i < 7), each guarded by the column bound it needs.
   */
  function Edges(c: Coord): map<Direction, string>
    requires OnBoard(c)
  {
    var i, j := c.row, c.col;
    var e0: map<Direction, string> := map[];
    var e1 := if i > 0 && j > 0 then e0[NW := Name(Coord(i - 1, j - 1))] else e0;
    var e2 := if i > 0 then e1[N := Name(Coord(i - 1, j))] else e1;
    var e3 := if i > 0 && j < 7 then e2[NE := Name(Coord(i - 1, j + 1))] else e2;
    var e4 := if j > 0 then e3[W := Name(Coord(i, j - 1))] else e3;
    var e5 := if j < 7 then e4[E := Name(Coord(i, j + 1))] else e4;
    var e6 := if i < 7 && j > 0 then e5[SW := Name(Coord(i + 1, j - 1))] else e5;
    var e7 := if i < 7 then e6[S := Name(Coord(i + 1, j))] else e6;
    var e8 := if i < 7 && j < 7 then e7[SE := Name(Coord(i + 1, j + 1))] else e7;
    e8
  }

  /**
   * The constructor's edge table is exactly the offset geometry: a cell has
   * an edge in direction `d` iff one step in `d` stays on the board, the edge
   * names that neighbour, so that a walk's step `Cells[current.Edges[d]]`
   * arrives at it, and no cell has a `NONE` edge.
   */
  lemma EdgesAreNeighbors(c: Coord, d: Direction)
    requires OnBoard(c)
    ensures d in Edges(c) <==> Neighbor(c, d).Some?
    ensures d in Edges(c) ==> Edges(c)[d] == Name(Neighbor(c, d).value)
    ensures d in Edges(c) ==> ParseName(Edges(c)[d]) == Neighbor(c, d)
    ensures NONE !in Edges(c)
  {
    EdgeGuard(c, d);
    EdgeGuard(c, NONE);
    if d in Edges(c) {
      NameParses(Ray(c, d, 1));
    }
  }

  /** The constructor's guards, one direction at a time: an edge exists iff the first step stays on the board. */
  lemma EdgeGuard(c: Coord, d: Direction)
    requires OnBoard(c)
    ensures d in Edges(c) <==> d != NONE && OnBoard(Ray(c, d, 1))
    ensures d in Edges(c) ==> Edges(c)[d] == Name(Ray(c, d, 1))
  {
    var i, j := c.row, c.col;
    match d {
      case NONE =>
      case NW => assert Ray(c, d, 1) == Coord(i - 1, j - 1);
      case N => assert Ray(c, d, 1) == Coord(i - 1, j);
      case NE => assert Ray(c, d, 1) == Coord(i - 1, j + 1);
      case W => assert Ray(c, d, 1) == Coord(i, j - 1);
      case E => assert Ray(c, d, 1) == Coord(i, j + 1);
      case SW => assert Ray(c, d, 1) == Coord(i + 1, j - 1);
      case S => assert Ray(c, d, 1) == Coord(i + 1, j);
      case SE => assert Ray(c, d, 1) == Coord(i + 1, j + 1);
    }
  }

  /** No cell is isolated: every cell has an edge towards the board's centre. */
  lemma EveryCellHasEdge(c: Coord)
    requires OnBoard(c)
    ensures exists d :: d in Edges(c)
  {
    var d := if c.row < 7 then S else N;
    EdgeGuard(c, d);
    assert d in Edges(c);
  }

  /** Edges come in opposite pairs: N/S, E/W, NE/SW and NW/SE. */
  lemma EdgesSymmetric(c: Coord, d: Direction)
    requires OnBoard(c) && d in Edges(c)
    ensures ParseName(Edges(c)[d]).Some?
    ensures var n := ParseName(Edges(c)[d]).value;
      Opposite(d) in Edges(n) && Edges(n)[Opposite(d)] == Name(c)
  {
    EdgeGuard(c, d);
    var n := Ray(c, d, 1);
    NameParses(n);
    EdgeGuard(n, Opposite(d));
    assert Ray(n, Opposite(d), 1) == c;
  }

  /** The first n cells of row i. */
  function RowPrefix(i: int, n: int): set<Coord> {
    set j | 0 <= j < n :: Coord(i, j)
  }

  lemma RowPrefixSize(i: int, n: nat)
    ensures |RowPrefix(i, n)| == n
  {
    if n > 0 {
      RowPrefixSize(i, n - 1);
      assert RowPrefix(i, n) == RowPrefix(i, n - 1) + {Coord(i, n - 1)};
      assert Coord(i, n - 1) !in RowPrefix(i, n - 1);
    }
  }

  lemma GridSize(m: nat)
    ensures |Grid(m)| == 8 * m
  {
    if m > 0 {
      GridSize(m - 1);
      RowPrefixSize(m - 1, 8);
      var above, row := Grid(m - 1), RowPrefix(m - 1, 8);
      forall c | c in Grid(m)
        ensures c in above + row
      {
        if c.row < m - 1 {
          assert c == Coord(c.row, c.col);
        }
      }
      assert Grid(m) == above + row;
      forall c | c in above * row
        ensures false
      {
      }
      assert above * row == {};
    }
  }

  /** Distinct cells have distinct names. */
  lemma NamesOfSize(s: set<Coord>)
    requires forall c | c in s :: OnBoard(c)
    ensures |set c | c in s :: Name(c)| == |s|
  {
    if s != {} {
      var c :| c in s;
      var rest := s - {c};
      NamesOfSize(rest);
      assert (set x | x in s :: Name(x)) == (set x | x in rest :: Name(x)) + {Name(c)};
      if Name(c) in (set x | x in rest :: Name(x)) {
        var c' :| c' in rest && Name(c') == Name(c);
        NameParses(c);
        NameParses(c');
      }
    }
  }

  /** The board has exactly 64 cells. */
  lemma BoardSize()
    ensures |AllPos| == 64
  {
    GridSize(8);
  }

  /** The 64 cells have 64 distinct names. */
  lemma NamesSize()
    ensures |CellNames| == 64
  {
    BoardSize();
    AllPosIsBoard();
    NamesOfSize(AllPos);
    assert CellNames == set c | c in AllPos :: Name(c);
  }
}
