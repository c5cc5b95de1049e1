/** The board's data model (src/engine.rs, Cell, Board and RevealResult) and
    the invariants every reachable board satisfies. */
module State {
  import opened Seqs
  import opened Grid

  /** Rust's u8, the type of a cell's adjacency count. */
  newtype U8 = x: int | 0 <= x < 0x100

  /** One grid position. The mine bit is fixed by placement, the adjacency
      count is only meaningful for safe cells, revealed never reverts. */
  datatype Cell = Cell(isMine: bool, adjacent: U8, revealed: bool, flagged: bool)

  /** Cell::default. */
  const DefaultCell: Cell := Cell(false, 0, false, false)

  datatype RevealResult = NoOp | RevealedSafe | HitMine

  /** The board: dimensions, requested mine count, the row-major cell vector,
      the count of safe cells still hidden, the lifecycle flags and the seed
      that fixes the mine layout. */
  datatype Board = Board(
    width: nat,
    height: nat,
    mines: nat,
    cells: seq<Cell>,
    remainingSafe: nat,
    alive: bool,
    won: bool,
    initialized: bool,
    seed: bv64)

  /** The vector has one cell per grid position. */
  predicate Shaped(b: Board) {
    b.width > 0 && b.height > 0 && |b.cells| == b.width * b.height
  }

  /** The cell at column nx, row ny exists and holds a mine. */
  predicate MineAt(w: nat, cells: seq<Cell>, nx: nat, ny: nat) {
    Idx(w, nx, ny) < |cells| && cells[Idx(w, nx, ny)].isMine
  }

  /** The mines around (x, y): every in-grid neighbour, by the reference
      notion of adjacency, that holds a mine. */
  ghost function MineNeighbors(w: nat, h: nat, cells: seq<Cell>, x: nat, y: nat): set<(nat, nat)>
  {
    set nx: nat, ny: nat | nx < w && ny < h && IsNeighbor(w, h, x, y, nx, ny) && MineAt(w, cells, nx, ny)
      :: (nx, ny)
  }

  /** Every safe cell stores the number of mines around it. */
  ghost predicate AdjacencyCorrect(w: nat, h: nat, cells: seq<Cell>)
    requires w > 0
  {
    forall i :: 0 <= i < |cells| && !cells[i].isMine ==>
      cells[i].adjacent as int == |MineNeighbors(w, h, cells, Col(w, i), Row(w, i))|
  }

  ghost function MineSet(cells: seq<Cell>): set<nat> {
    set i: nat | i < |cells| && cells[i].isMine
  }

  ghost function RevealedSet(cells: seq<Cell>): set<nat> {
    set i: nat | i < |cells| && cells[i].revealed
  }

  /** The safe cells not yet revealed: what remaining_safe counts. */
  ghost function HiddenSafe(cells: seq<Cell>): set<nat> {
    set i: nat | i < |cells| && !cells[i].isMine && !cells[i].revealed
  }

  /** The cells revealed by going from cells to cells'. */
  ghost function NewlyRevealed(cells: seq<Cell>, cells': seq<Cell>): set<nat>
    requires |cells| == |cells'|
  {
    set i: nat | i < |cells| && cells'[i].revealed && !cells[i].revealed
  }

  /** The board invariants the public operations keep. */
  ghost predicate Valid(b: Board) {
    && Shaped(b)
    && b.mines < b.width * b.height
    // a flag locks a hidden cell; a revealed cell is never flagged
    && (forall i :: 0 <= i < |b.cells| ==> !(b.cells[i].revealed && b.cells[i].flagged))
    // a mine is never revealed, not even the one that ended the game
    && (forall i :: 0 <= i < |b.cells| && b.cells[i].revealed ==> !b.cells[i].isMine)
    // remaining_safe counts the safe cells still hidden
    && b.remainingSafe + |RevealedSet(b.cells)| + b.mines == b.width * b.height
    // counting skips mines, so a mine keeps the default count 0
    && (forall i :: 0 <= i < |b.cells| && b.cells[i].isMine ==> b.cells[i].adjacent == 0)
    && (b.initialized ==>
          |MineSet(b.cells)| == b.mines && AdjacencyCorrect(b.width, b.height, b.cells))
    // before the first reveal nothing is placed, revealed or lost
    && (!b.initialized ==>
          && (forall i :: 0 <= i < |b.cells| ==>
                !b.cells[i].isMine && b.cells[i].adjacent == 0 && !b.cells[i].revealed)
          && b.alive)
    && (b.won ==> b.alive)
    && (b.won <==> b.remainingSafe == 0)
  }

  /** What no operation ever undoes: revealed bits, a lost or won game,
      initialization, and once placed, the mine layout and adjacency counts.
      remaining_safe never grows. */
  ghost predicate Progress(b: Board, b': Board) {
    && b'.width == b.width && b'.height == b.height && b'.mines == b.mines && b'.seed == b.seed
    && |b'.cells| == |b.cells|
    && (forall i :: 0 <= i < |b.cells| && b.cells[i].revealed ==> b'.cells[i].revealed)
    && b'.remainingSafe <= b.remainingSafe
    && (!b.alive ==> !b'.alive)
    && (b.won ==> b'.won)
    && (b.initialized ==> b'.initialized)
    && (b.initialized ==> forall i :: 0 <= i < |b.cells| ==>
          b'.cells[i].isMine == b.cells[i].isMine && b'.cells[i].adjacent == b.cells[i].adjacent)
  }

  /** With no revealed mine, every cell is exactly one of hidden-safe,
      revealed or a mine. */
  lemma CellPartition(cells: seq<Cell>)
    requires forall i :: 0 <= i < |cells| && cells[i].revealed ==> !cells[i].isMine
    ensures |HiddenSafe(cells)| + |RevealedSet(cells)| + |MineSet(cells)| == |cells|
  {
    RangeCard(|cells|);
    assert Range(|cells|) == HiddenSafe(cells) + RevealedSet(cells) + MineSet(cells);
  }

  /** On a valid initialized board remaining_safe is the number of safe cells
      still hidden. */
  lemma RemainingIsHiddenSafe(b: Board)
    requires Valid(b) && b.initialized
    ensures b.remainingSafe == |HiddenSafe(b.cells)|
  {
    CellPartition(b.cells);
  }

  /** Progress composes: what two steps never undo, their sequence never
      undoes. */
  lemma ProgressTrans(b0: Board, b1: Board, b2: Board)
    requires Progress(b0, b1) && Progress(b1, b2)
    ensures Progress(b0, b2)
  {
  }
}
