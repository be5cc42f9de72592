/**
 * The object structure behind `ReversiGraph.Clone`: every graph owns a
 * `Cells` dictionary from cell names to GridCell objects, and every GridCell
 * refers to an edge dictionary object.  The constructor allocates one
 * GridCell and one edge dictionary per name; cloning a graph allocates a new
 * `Cells` dictionary holding fresh GridCell objects with the same names and
 * states, which share the original cells' edge dictionaries.  The heap is
 * explicit: maps from object addresses to object contents.
 */
module Objects {
  import opened Wrappers
  import opened Geometry
  import opened Graph

  /**
   * An object address: the allocation that created the object and its slot
   * within that allocation.  Each allocation draws a block number never used
   * before; its slots are labelled by cell name.
   */
  datatype Ref = Ref(block: nat, slot: string)

  /** The fields of a GridCell that the rules read; `edges` is the address of its edge dictionary. */
  datatype Cell = Cell(name: string, state: CellState, edges: Ref)

  /**
   * The GridCell objects, the edge dictionaries, and every graph's `Cells`
   * dictionary (by graph identity); `next` is the first unused block.
   */
  datatype Heap = Heap(
    cells: map<Ref, Cell>,
    tables: map<Ref, map<Direction, string>>,
    graphs: map<nat, map<string, Ref>>,
    next: nat)

  /** A ReversiGraph instance, known by its identity in the heap. */
  datatype GraphObj = GraphObj(id: nat)

  /** Everything allocated so far lies below `next`, and every GridCell's edge dictionary exists. */
  ghost predicate HeapOk(h: Heap) {
    && (forall r | r in h.cells :: r.block < h.next && h.cells[r].edges in h.tables)
    && (forall t | t in h.tables :: t.block < h.next)
    && (forall id | id in h.graphs :: id < h.next)
  }

  /**
   * `g` is a well-formed graph in `h`: its `Cells` dictionary has the 64 cell
   * names as keys, and each leads to an object carrying that name and the
   * board's edge table for that cell.
   */
  ghost predicate Valid(h: Heap, g: GraphObj) {
    && HeapOk(h)
    && g.id in h.graphs
    && h.graphs[g.id].Keys == CellNames
    && forall n | n in CellNames ::
         && h.graphs[g.id][n] in h.cells
         && h.cells[h.graphs[g.id][n]].name == n
         && ParseName(n).Some?
         && h.tables[h.cells[h.graphs[g.id][n]].edges] == Edges(ParseName(n).value)
  }

  /** `Cells[name]` for the cell `c`: the graph's object for it. */
  function Obj(h: Heap, g: GraphObj, c: Coord): (r: Ref)
    requires Valid(h, g) && OnBoard(c)
    ensures r in h.cells && h.cells[r].name == Name(c)
  {
    NameParses(c);
    h.graphs[g.id][Name(c)]
  }

  /** The board the graph's objects currently describe. */
  function View(h: Heap, g: GraphObj): (b: Board)
    requires Valid(h, g)
  {
    seq(8, i requires 0 <= i < 8 =>
      seq(8, j requires 0 <= j < 8 => h.cells[Obj(h, g, Coord(i, j))].state))
  }

  /** Reading a cell of the view reads the state field of the graph's object for that cell. */
  lemma ViewAt(h: Heap, g: GraphObj, c: Coord)
    requires Valid(h, g) && OnBoard(c)
    ensures At(View(h, g), c) == h.cells[Obj(h, g, c)].state
  {
  }

  /** `r` is none of the objects in graph `g`'s `Cells` dictionary. */
  ghost predicate Foreign(h: Heap, g: GraphObj, r: Ref)
    requires g.id in h.graphs
  {
    forall n | n in h.graphs[g.id] :: h.graphs[g.id][n] != r
  }

  /** No GridCell object is in both graphs' `Cells` dictionaries. */
  ghost predicate Disjoint(h: Heap, a: GraphObj, b: GraphObj)
    requires a.id in h.graphs && b.id in h.graphs
  {
    forall n | n in h.graphs[a.id] :: Foreign(h, b, h.graphs[a.id][n])
  }

  /** An assignment to the `State` field of one object. */
  function SetState(h: Heap, r: Ref, s: CellState): (h': Heap)
    requires r in h.cells
    ensures h'.cells.Keys == h.cells.Keys && h'.tables == h.tables && h'.graphs == h.graphs && h'.next == h.next
    ensures h'.cells[r].state == s && h'.cells[r].name == h.cells[r].name && h'.cells[r].edges == h.cells[r].edges
    ensures forall q | q in h.cells && q != r :: h'.cells[q] == h.cells[q]
  {
    h.(cells := h.cells[r := h.cells[r].(state := s)])
  }

  /** `GridCell.Flip` applied to one object: its state changes as `Flip` says and nothing else does. */
  function FlipObject(h: Heap, r: Ref): (h': Heap)
    requires r in h.cells
    ensures h'.cells.Keys == h.cells.Keys && h'.tables == h.tables && h'.graphs == h.graphs && h'.next == h.next
    ensures h'.cells[r].state == Flip(h.cells[r].state)
    ensures forall q | q in h.cells && q != r :: h'.cells[q] == h.cells[q]
  {
    SetState(h, r, Flip(h.cells[r].state))
  }

  /** Assigning a state never breaks a graph's well-formedness: names, dictionaries and edge tables stay put. */
  lemma SetStateKeepsValid(h: Heap, r: Ref, s: CellState, g: GraphObj)
    requires r in h.cells && Valid(h, g)
    ensures Valid(SetState(h, r, s), g)
  {
  }

  /** Writing the state of a graph's object for cell `c` is placing that state at `c` on the graph's board. */
  lemma SetStateIsPlace(h: Heap, g: GraphObj, c: Coord, s: CellState)
    requires Valid(h, g) && OnBoard(c)
    ensures Valid(SetState(h, Obj(h, g, c), s), g)
    ensures View(SetState(h, Obj(h, g, c), s), g) == Place(View(h, g), c, s)
  {
    var r := Obj(h, g, c);
    var h' := SetState(h, r, s);
    SetStateKeepsValid(h, r, s, g);
    forall c' | OnBoard(c')
      ensures At(View(h', g), c') == At(Place(View(h, g), c, s), c')
    {
      ViewAt(h', g, c');
      ViewAt(h, g, c');
      if c' != c {
        assert Name(c') != Name(c) by {
          NameParses(c);
          NameParses(c');
        }
      }
    }
    BoardExt(View(h', g), Place(View(h, g), c, s));
  }

  /** A write to an object outside a graph's `Cells` dictionary leaves that graph's board unchanged. */
  lemma SetStateSpares(h: Heap, r: Ref, s: CellState, other: GraphObj)
    requires r in h.cells && Valid(h, other) && Foreign(h, other, r)
    ensures Valid(SetState(h, r, s), other)
    ensures View(SetState(h, r, s), other) == View(h, other)
  {
    var h' := SetState(h, r, s);
    SetStateKeepsValid(h, r, s, other);
    forall c | OnBoard(c)
      ensures At(View(h', other), c) == At(View(h, other), c)
    {
      ViewAt(h', other, c);
      ViewAt(h, other, c);
      NameParses(c);
      assert Obj(h, other, c) == h.graphs[other.id][Name(c)];
    }
    BoardExt(View(h', other), View(h, other));
  }

  /** Two boards that agree on every cell are equal. */
  lemma BoardExt(a: Board, b: Board)
    requires forall c | OnBoard(c) :: At(a, c) == At(b, c)
    ensures a == b
  {
    forall i | 0 <= i < 8
      ensures a[i] == b[i]
    {
      forall j | 0 <= j < 8
        ensures a[i][j] == b[i][j]
      {
        assert At(a, Coord(i, j)) == At(b, Coord(i, j));
      }
    }
  }

  /** The state a GridCell named `n` holds once the constructor has placed the four centre pieces. */
  function InitialState(n: string): CellState {
    match ParseName(n)
    case Some(c) => At(NewGraph(), c)
    case None => EMPTY
  }

  /** The edge table the constructor fills in for the GridCell named `n`. */
  function InitialEdges(n: string): map<Direction, string> {
    match ParseName(n)
    case Some(c) => Edges(c)
    case None => map[]
  }

  /** A new `Cells` dictionary whose every name leads to the slot of that name in block `b`. */
  function Slots(b: nat): (m: map<string, Ref>)
    ensures m.Keys == CellNames && forall n | n in CellNames :: m[n] == Ref(b, n)
  {
    map n | n in CellNames :: Ref(b, n)
  }

  /** The constructor's GridCells in block `b`: each holds its name, its opening state and its own edge dictionary. */
  function NewCells(b: nat): (m: map<Ref, Cell>)
    ensures forall r | r in m :: r.block == b && r.slot in CellNames
    ensures forall n | n in CellNames :: Ref(b, n) in m && m[Ref(b, n)] == Cell(n, InitialState(n), Ref(b, n))
  {
    map n | n in CellNames :: Ref(b, n) := Cell(n, InitialState(n), Ref(b, n))
  }

  /** The constructor's edge dictionaries in block `b`, one per cell. */
  function NewTables(b: nat): (m: map<Ref, map<Direction, string>>)
    ensures forall t | t in m :: t.block == b
    ensures forall n | n in CellNames :: Ref(b, n) in m && m[Ref(b, n)] == InitialEdges(n)
  {
    map n | n in CellNames :: Ref(b, n) := InitialEdges(n)
  }

  /** The heap after `new ReversiGraph()`: one new block holding the cells, their edge dictionaries and the `Cells` dictionary. */
  function ConstructHeap(h: Heap): Heap {
    var b := h.next;
    Heap(h.cells + NewCells(b), h.tables + NewTables(b), h.graphs[b := Slots(b)], b + 1)
  }

  /** Adding a block of objects allocated at `b` to a heap whose objects all lie below `b` overwrites nothing. */
  lemma MergeFresh<V>(prior: map<Ref, V>, block: map<Ref, V>, b: nat)
    requires forall r | r in prior :: r.block < b
    requires forall r | r in block :: r.block == b
    ensures forall x | x in prior :: x in prior + block && (prior + block)[x] == prior[x]
  {
    forall x | x in prior
      ensures x !in block
    {
    }
  }

  /** The constructor leaves every existing object and graph as it was. */
  lemma ConstructKeeps(h: Heap)
    requires HeapOk(h)
    ensures var h' := ConstructHeap(h);
      && (forall x | x in h.cells :: x in h'.cells && h'.cells[x] == h.cells[x])
      && (forall t | t in h.tables :: t in h'.tables && h'.tables[t] == h.tables[t])
      && (forall id | id in h.graphs :: id in h'.graphs && h'.graphs[id] == h.graphs[id])
  {
    var b := h.next;
    MergeFresh(h.cells, NewCells(b), b);
    MergeFresh(h.tables, NewTables(b), b);
  }

  /** What the constructor allocates: one cell and one edge dictionary per name, all in a block never used before. */
  lemma ConstructFresh(h: Heap)
    requires HeapOk(h)
    ensures var h', g := ConstructHeap(h), GraphObj(h.next);
      && g.id in h'.graphs && g.id !in h.graphs
      && (forall n | n in CellNames :: h'.graphs[g.id][n] == Ref(h.next, n) && Ref(h.next, n) !in h.cells)
      && (forall n | n in CellNames ::
            && Ref(h.next, n) in h'.cells && h'.cells[Ref(h.next, n)] == Cell(n, InitialState(n), Ref(h.next, n))
            && Ref(h.next, n) in h'.tables && h'.tables[Ref(h.next, n)] == InitialEdges(n))
  {
    var b := h.next;
    assert forall n | n in CellNames :: Ref(b, n) !in h.cells && Ref(b, n) !in h.tables;
  }

  lemma ConstructValid(h: Heap)
    requires HeapOk(h)
    ensures Valid(ConstructHeap(h), GraphObj(h.next))
  {
    ConstructKeeps(h);
    ConstructFresh(h);
    var h', g := ConstructHeap(h), GraphObj(h.next);
    assert HeapOk(h') by {
      forall r | r in h'.cells
        ensures r.block < h'.next && h'.cells[r].edges in h'.tables
      {
        if r !in h.cells {
          assert r == Ref(h.next, r.slot);
        }
      }
    }
    forall n | n in CellNames
      ensures ParseName(n).Some? && h'.tables[h'.cells[h'.graphs[g.id][n]].edges] == Edges(ParseName(n).value)
    {
      CellNamesParse(n);
    }
    assert h'.graphs[g.id].Keys == CellNames;
  }

  lemma ConstructView(h: Heap)
    requires HeapOk(h)
    ensures Valid(ConstructHeap(h), GraphObj(h.next))
    ensures View(ConstructHeap(h), GraphObj(h.next)) == NewGraph()
  {
    ConstructKeeps(h);
    ConstructFresh(h);
    ConstructValid(h);
    var h', g := ConstructHeap(h), GraphObj(h.next);
    forall c | OnBoard(c)
      ensures At(View(h', g), c) == At(NewGraph(), c)
    {
      ViewAt(h', g, c);
      NameParses(c);
    }
    BoardExt(View(h', g), NewGraph());
  }

  /**
   * `new ReversiGraph()`: a well-formed graph on the opening board, built
   * from fresh objects, in which every cell has an edge dictionary of its
   * own.  Objects that already existed are untouched.
   */
  function NewGraphObject(h: Heap): (r: (Heap, GraphObj))
    requires HeapOk(h)
    ensures Valid(r.0, r.1) && View(r.0, r.1) == NewGraph()
    ensures forall n, n' | n in CellNames && n' in CellNames && n != n' ::
      r.0.cells[r.0.graphs[r.1.id][n]].edges != r.0.cells[r.0.graphs[r.1.id][n']].edges
    ensures r.1.id !in h.graphs && forall n | n in CellNames :: r.0.graphs[r.1.id][n] !in h.cells
    ensures forall x | x in h.cells :: x in r.0.cells && r.0.cells[x] == h.cells[x]
    ensures forall t | t in h.tables :: t in r.0.tables && r.0.tables[t] == h.tables[t]
    ensures forall id | id in h.graphs :: id in r.0.graphs && r.0.graphs[id] == h.graphs[id]
  {
    ConstructKeeps(h);
    ConstructFresh(h);
    ConstructValid(h);
    ConstructView(h);
    (ConstructHeap(h), GraphObj(h.next))
  }

  /** Block `b` of the copy constructor: under each name, a copy of `g`'s cell object of that name. */
  function Copies(h: Heap, g: GraphObj, b: nat): (m: map<Ref, Cell>)
    requires Valid(h, g)
    ensures forall r | r in m :: r.block == b && m[r].edges in h.tables
    ensures forall n | n in CellNames :: Ref(b, n) in m && m[Ref(b, n)] == h.cells[h.graphs[g.id][n]]
  {
    map n | n in CellNames :: Ref(b, n) := h.cells[h.graphs[g.id][n]]
  }

  /** The heap after the copy constructor: a new block holding the copies and the new `Cells` dictionary. */
  function CloneHeap(h: Heap, g: GraphObj): Heap
    requires Valid(h, g)
  {
    var b := h.next;
    Heap(h.cells + Copies(h, g, b), h.tables, h.graphs[b := Slots(b)], b + 1)
  }

  /** The copy constructor leaves every existing object and graph as it was. */
  lemma CloneKeeps(h: Heap, g: GraphObj)
    requires Valid(h, g)
    ensures var h' := CloneHeap(h, g);
      && h'.tables == h.tables
      && (forall x | x in h.cells :: x in h'.cells && h'.cells[x] == h.cells[x])
      && (forall id | id in h.graphs :: id in h'.graphs && h'.graphs[id] == h.graphs[id])
  {
    MergeFresh(h.cells, Copies(h, g, h.next), h.next);
  }

  /** What the copy constructor allocates: one fresh copy per name, under a graph identity never used before. */
  lemma CloneFresh(h: Heap, g: GraphObj)
    requires Valid(h, g)
    ensures var h', g' := CloneHeap(h, g), GraphObj(h.next);
      && g'.id in h'.graphs && g'.id !in h.graphs
      && (forall n | n in CellNames :: h'.graphs[g'.id][n] == Ref(h.next, n) && Ref(h.next, n) !in h.cells)
      && (forall n | n in CellNames :: Ref(h.next, n) in h'.cells && h'.cells[Ref(h.next, n)] == h.cells[h.graphs[g.id][n]])
  {
    var b := h.next;
    assert forall n | n in CellNames :: Ref(b, n) !in h.cells;
  }

  /** The copies bring their edge dictionaries along, so every cell object still reaches an existing one. */
  lemma CloneCellsOk(h: Heap, g: GraphObj)
    requires Valid(h, g)
    ensures var h' := CloneHeap(h, g);
      forall r | r in h'.cells :: r.block < h'.next && h'.cells[r].edges in h'.tables
  {
    var copies := Copies(h, g, h.next);
    var cells := h.cells + copies;
    assert CloneHeap(h, g).cells == cells;
    forall r | r in cells
      ensures r.block <= h.next && cells[r].edges in h.tables
    {
      if r in copies {
        assert cells[r] == copies[r];
      } else {
        assert cells[r] == h.cells[r];
      }
    }
  }

  lemma CloneHeapOk(h: Heap, g: GraphObj)
    requires Valid(h, g)
    ensures HeapOk(CloneHeap(h, g))
  {
    CloneCellsOk(h, g);
  }

  lemma CloneValid(h: Heap, g: GraphObj)
    requires Valid(h, g)
    ensures var h', g' := CloneHeap(h, g), GraphObj(h.next);
      Valid(h', g) && Valid(h', g')
  {
    CloneHeapOk(h, g);
    CloneKeeps(h, g);
    CloneFresh(h, g);
  }

  lemma CloneView(h: Heap, g: GraphObj)
    requires Valid(h, g)
    ensures Valid(CloneHeap(h, g), GraphObj(h.next)) && Valid(CloneHeap(h, g), g)
    ensures var h' := CloneHeap(h, g);
      View(h', GraphObj(h.next)) == View(h, g) && View(h', g) == View(h, g)
  {
    CloneKeeps(h, g);
    CloneFresh(h, g);
    CloneValid(h, g);
    var h', g' := CloneHeap(h, g), GraphObj(h.next);
    forall c | OnBoard(c)
      ensures At(View(h', g'), c) == At(View(h, g), c) && At(View(h', g), c) == At(View(h, g), c)
    {
      ViewAt(h', g', c);
      ViewAt(h', g, c);
      ViewAt(h, g, c);
      NameParses(c);
    }
    BoardExt(View(h', g'), View(h, g));
    BoardExt(View(h', g), View(h, g));
  }

  /** The clone's `Cells` dictionary shares no object with the original's, because every copy is newly allocated. */
  lemma CloneDisjoint(h: Heap, g: GraphObj)
    requires Valid(h, g)
    ensures var h', g' := CloneHeap(h, g), GraphObj(h.next);
      g'.id in h'.graphs && g.id in h'.graphs && Disjoint(h', g', g)
  {
    CloneKeeps(h, g);
    CloneFresh(h, g);
    var h', g' := CloneHeap(h, g), GraphObj(h.next);
    forall n | n in h'.graphs[g'.id]
      ensures Foreign(h', g, h'.graphs[g'.id][n])
    {
      forall m | m in h'.graphs[g.id]
        ensures h'.graphs[g.id][m] != Ref(h.next, n)
      {
        assert h.graphs[g.id][m] in h.cells;
      }
    }
  }

  /**
   * `ReversiGraph.Clone`: a new graph with the same board whose `Cells`
   * dictionary holds a fresh copy of every cell object.  Each copy keeps the
   * name and state and shares the original's edge dictionary; the original
   * graph and every other existing object are untouched.
   */
  function Clone(h: Heap, g: GraphObj): (r: (Heap, GraphObj))
    requires Valid(h, g)
    ensures Valid(r.0, r.1) && Valid(r.0, g)
    ensures View(r.0, r.1) == View(h, g) && View(r.0, g) == View(h, g)
    ensures Disjoint(r.0, r.1, g)
    ensures forall n | n in CellNames :: r.0.graphs[r.1.id][n] !in h.cells
    ensures forall n | n in CellNames ::
      r.0.cells[r.0.graphs[r.1.id][n]].edges == h.cells[h.graphs[g.id][n]].edges
    ensures forall x | x in h.cells :: x in r.0.cells && r.0.cells[x] == h.cells[x]
    ensures r.1.id !in h.graphs && forall id | id in h.graphs :: id in r.0.graphs && r.0.graphs[id] == h.graphs[id]
  {
    CloneKeeps(h, g);
    CloneFresh(h, g);
    CloneValid(h, g);
    CloneView(h, g);
    CloneDisjoint(h, g);
    (CloneHeap(h, g), GraphObj(h.next))
  }

  /** Performs `writes` in order, each one an assignment to the state of the graph's object for that cell. */
  ghost function ApplyWrites(h: Heap, g: GraphObj, writes: seq<(Coord, CellState)>): (h': Heap)
    requires Valid(h, g)
    requires forall k | 0 <= k < |writes| :: OnBoard(writes[k].0)
    ensures Valid(h', g) && h'.graphs == h.graphs && h'.cells.Keys == h.cells.Keys
    decreases |writes|
  {
    if writes == [] then h
    else
      var c, s := writes[0].0, writes[0].1;
      var r := Obj(h, g, c);
      SetStateKeepsValid(h, r, s, g);
      ApplyWrites(SetState(h, r, s), g, writes[1..])
  }

  /** A non-empty sequence of writes is its first write followed by the rest. */
  lemma ApplyWritesStep(h: Heap, g: GraphObj, writes: seq<(Coord, CellState)>)
    requires Valid(h, g) && writes != []
    requires forall k | 0 <= k < |writes| :: OnBoard(writes[k].0)
    ensures var h1 := SetState(h, Obj(h, g, writes[0].0), writes[0].1);
      Valid(h1, g) && ApplyWrites(h, g, writes) == ApplyWrites(h1, g, writes[1..])
  {
    SetStateKeepsValid(h, Obj(h, g, writes[0].0), writes[0].1, g);
  }

  /** One write through `other` keeps both graphs well formed, keeps them disjoint and leaves `g`'s board alone. */
  lemma WriteSpares(h: Heap, g: GraphObj, other: GraphObj, c: Coord, s: CellState)
    requires Valid(h, g) && Valid(h, other) && Disjoint(h, other, g) && OnBoard(c)
    ensures var h' := SetState(h, Obj(h, other, c), s);
      && Valid(h', g) && Valid(h', other) && Disjoint(h', other, g)
      && View(h', g) == View(h, g)
  {
    var r := Obj(h, other, c);
    NameParses(c);
    assert Foreign(h, g, r);
    SetStateSpares(h, r, s, g);
    SetStateKeepsValid(h, r, s, other);
  }

  /** Writes made through one graph leave the board of a graph that shares none of its cell objects unchanged. */
  lemma {:induction false} WritesSpare(h: Heap, g: GraphObj, other: GraphObj, writes: seq<(Coord, CellState)>)
    requires Valid(h, g) && Valid(h, other) && Disjoint(h, other, g)
    requires forall k | 0 <= k < |writes| :: OnBoard(writes[k].0)
    ensures var h' := ApplyWrites(h, other, writes);
      Valid(h', g) && View(h', g) == View(h, g)
    decreases |writes|
  {
    if writes != [] {
      var c, s := writes[0].0, writes[0].1;
      var h1 := SetState(h, Obj(h, other, c), s);
      WriteSpares(h, g, other, c, s);
      WritesSpare(h1, g, other, writes[1..]);
      ApplyWritesStep(h, other, writes);
    }
  }

  /**
   * Any sequence of cell writes made through a clone (a searched move, say)
   * leaves the original graph's board as it was before cloning.
   */
  lemma CloneIsolated(h: Heap, g: GraphObj, writes: seq<(Coord, CellState)>)
    requires Valid(h, g)
    requires forall k | 0 <= k < |writes| :: OnBoard(writes[k].0)
    ensures var r := Clone(h, g);
      Valid(ApplyWrites(r.0, r.1, writes), g) && View(ApplyWrites(r.0, r.1, writes), g) == View(h, g)
  {
    var r := Clone(h, g);
    WritesSpare(r.0, g, r.1, writes);
  }

  /** A second graph whose `Cells` dictionary is the original's, object for object: a copy without `cell.Clone()`. */
  function ShareCells(h: Heap, g: GraphObj): (Heap, GraphObj)
    requires Valid(h, g)
  {
    (h.(graphs := h.graphs[h.next := h.graphs[g.id]], next := h.next + 1), GraphObj(h.next))
  }

  /**
   * Without fresh copies isolation fails: a write through the sharing graph
   * lands on the original's board exactly as a write through the original.
   */
  lemma SharedCellsLeak(h: Heap, g: GraphObj, c: Coord, s: CellState)
    requires Valid(h, g) && OnBoard(c)
    ensures var r := ShareCells(h, g);
      && Valid(r.0, r.1) && Valid(r.0, g) && View(r.0, g) == View(h, g)
      && var h' := SetState(r.0, Obj(r.0, r.1, c), s);
         Valid(h', g) && View(h', g) == Place(View(h, g), c, s)
  {
    ShareCellsSame(h, g);
    var r := ShareCells(h, g);
    assert Obj(r.0, r.1, c) == Obj(r.0, g, c);
    SetStateIsPlace(r.0, g, c, s);
  }

  /** Adding a graph that shares `g`'s `Cells` dictionary leaves `g` well formed and its board as it was. */
  lemma ShareCellsSame(h: Heap, g: GraphObj)
    requires Valid(h, g)
    ensures var r := ShareCells(h, g);
      && Valid(r.0, r.1) && Valid(r.0, g) && View(r.0, g) == View(h, g)
  {
    var r := ShareCells(h, g);
    forall c' | OnBoard(c')
      ensures At(View(r.0, g), c') == At(View(h, g), c')
    {
      ViewAt(r.0, g, c');
      ViewAt(h, g, c');
    }
    BoardExt(View(r.0, g), View(h, g));
  }
}
