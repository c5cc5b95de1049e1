# Minesweeper engine in Dafny

A model of the core of a terminal minesweeper written in Rust. It covers the
board engine of `src/engine.rs` and the three pure geometry helpers of
`src/tui.rs`. The model proves the game's invariants and the correctness of
its algorithms.

The board is an immutable `Board` datatype: width, height, mine count, a
row-major `seq<Cell>`, `remainingSafe`, the `alive`, `won` and `initialized`
flags, and the seed.

- `New`, `CellAt` and `ToggleFlag` are functions.
- `Reveal`, `Initialize` and `FloodReveal` are methods that take a board and
  return the updated board.
- `ComputeAdjacency` is a method on the width, the height and the cell
  vector. It returns the updated cells.
- The methods have loops where the source has loops.
- `Valid` states the invariants every reachable board keeps:
  - no cell is both revealed and flagged;
  - no mine is revealed;
  - `remaining_safe` counts the hidden safe cells;
  - `won` holds exactly when that count is zero, and only while `alive`;
  - once placed, exactly `mines` cells are mines and every safe cell's
    count is correct;
  - a mine's count is 0, the default it keeps because counting skips mines.
- `Progress` states what no operation undoes.

Modules follow the source:

- `Grid`: `idx` and `neighbors`.
- `State`: `Cell`, `Board`, `RevealResult` and the invariants.
- `Prng`: `XorShift64` and `fisher_yates_shuffle`.
- `Adjacency`: `compute_adjacency`.
- `Flood`: `flood_reveal`.
- `Engine`: `new`, `toggle_flag`, `reveal`, `initialize` and the getters.
- `Render`: `render` and `Display`.
- `Tui`: the `u16` geometry.
- `Seqs`: shared facts about sequences without repeats.
- `Wrappers`: `Option`.

Integers are unbounded except in these places:

- The adjacency count is a `U8` newtype. The model proves it never exceeds 8, so the `u8` cannot overflow.
- The xorshift generator works on `bv64`.
- The TUI arithmetic is on a `U16` newtype. Saturating operations are written out. The `cols * 2` product wraps modulo 2^16, as a release build computes it.

The getters `width()`, `height()`, `mines()`, `remaining_safe()`, `alive()`
and `won()`, and the `Cell` accessors, are the datatype's fields. `cell()` is
`Engine.CellAt`.

## Model

| member | source | states |
|---|---|---|
| Grid.Idx | src/engine.rs:158 | an in-grid (x, y) lands in row y's block of `width` entries, at positions y*width up to y*width + width - 1 |
| Grid.IdxDecode | src/engine.rs:158 | an in-grid column and row address a cell of the flat vector, and the column and row can be read back from that index |
| Grid.IdxEncode | src/engine.rs:158 | every index of the vector is `idx` of its own column and row, both inside the grid |
| Grid.OffsetsSpec | src/engine.rs:163-165 | the offsets visited are exactly the eight steps of at most one on each axis other than (0, 0) |
| Grid.Clip | src/engine.rs:166-168 | every kept position is inside the grid and is reached from the cell by one of the offsets; no more positions are kept than there are offsets, and a list of offsets without repeats gives positions without repeats |
| Grid.ClipMember | src/engine.rs:166-168 | a position is kept exactly when it is inside the grid and its offset from the cell is one of the offsets |
| Grid.NeighborMember | src/engine.rs:160-173 | a position comes out of the eight neighbour offsets exactly when it is a different in-grid cell at most one step away on each axis |
| Grid.Neighbors | src/engine.rs:160-173 | the neighbour list has no repeats and at most 8 entries; a position is on it exactly when it is a different in-grid cell at most one step away on each axis |
| Prng.Seeded | src/engine.rs:178 | the generator state is never zero, and a nonzero seed is kept as it is |
| Prng.NextU64 | src/engine.rs:179-186 | a nonzero state steps to a nonzero state, so the generator never sticks at zero |
| Prng.NextUsize | src/engine.rs:187 | a draw is below 2^63 and advances the generator by exactly one step |
| Prng.DrawIndex | src/engine.rs:194 | the index drawn at step i lies in [0, i], and the generator advances by one step |
| Prng.Swap | src/engine.rs:195 | the two positions are exchanged, every other position is unchanged, and the multiset of elements is the same |
| Prng.ShuffleFrom | src/engine.rs:190-197 | the remaining shuffle steps permute the sequence: same length, same multiset |
| Prng.Shuffle | src/engine.rs:190-197 | the Fisher-Yates shuffle yields a permutation of its input |
| Prng.ShufflePreservesElements | src/engine.rs:190-197 | shuffling a list without repeats gives a list without repeats holding exactly the same elements |
| State.CellPartition | src/engine.rs:46 | when no mine is revealed, the hidden safe cells, the revealed cells and the mines together account for every cell exactly once |
| State.RemainingIsHiddenSafe | src/engine.rs:46 | on a valid placed board `remaining_safe` is the number of safe cells still hidden |
| Adjacency.CountIsCard | src/engine.rs:96-98 | counting mines along a list without repeats gives the size of its set of mine positions |
| Adjacency.NeighborCountIsMineNeighbors | src/engine.rs:94-99 | the count over the neighbour list equals the number of mines among the cell's true neighbours, which is at most 8 |
| Adjacency.CountListed | src/engine.rs:95-98 | the `u8` counter that walks a list of at most 8 in-grid positions ends equal to the number of mines among them, so it never overflows |
| Adjacency.CountAround | src/engine.rs:94-99 | the `u8` counter ends equal to the number of mines around the cell, so it cannot overflow |
| Adjacency.ComputeAdjacency | src/engine.rs:90-102 | afterwards every safe cell's count is the number of mines among its neighbours; mine cells and all mine, revealed and flag bits are untouched |
| Flood.RevealOne | src/engine.rs:110-111 | revealing a hidden safe cell removes exactly that cell from the hidden safe cells and adds it to the newly revealed ones |
| Flood.SkipStep | src/engine.rs:107-109 | dropping a revealed, flagged or mine position from the stack keeps the flood fill's invariant |
| Flood.Pushable | src/engine.rs:113-117 | the positions kept from a list are exactly the listed ones that are neither revealed nor mines |
| Flood.PushAll | src/engine.rs:113-118 | after the loop the stack is the old stack followed by the listed positions that are neither revealed nor mines, in list order |
| Flood.PushedCovers | src/engine.rs:113-118 | once every pushable neighbour is on the stack, each neighbour of the cell is on the stack, revealed or a mine |
| Flood.PushNeighbors | src/engine.rs:113-118 | the stack becomes the old stack followed by exactly the cell's neighbours that are neither revealed nor mines, in neighbour order. So every neighbour is on the stack, revealed or a mine, and every entry is an old one or a neighbour of the cell |
| Flood.SingletonClosed | src/engine.rs:108-112 | a cell that is already revealed, flagged, a mine or of nonzero count spreads nowhere: the set holding it alone is closed under spreading |
| Flood.SpreadPush | src/engine.rs:112-118 | if every stacked position lies in a set closed under spreading, so does every position pushed in place of the top one: the rest of the stack, and the neighbours of a hidden, safe, unflagged zero |
| Flood.SpreadStep | src/engine.rs:110-118 | revealing the top position and pushing only its neighbours, and only when its count is zero, keeps everything revealed and stacked inside every closed set around the start cell |
| Flood.RevealStep | src/engine.rs:110-118 | revealing the top position and pushing its neighbours keeps the invariant and strictly shrinks the set of hidden safe cells |
| Flood.FloodStart | src/engine.rs:104-105 | with only the start position on the stack and nothing revealed, the flood fill's invariant holds |
| Flood.RevealTop | src/engine.rs:110-118 | revealing a safe, hidden, unflagged top position reveals exactly that cell and decrements `remaining_safe`, which is positive there. Pushing its neighbours when its count is zero keeps the invariant and hides one safe cell fewer |
| Flood.FloodDone | src/engine.rs:104-121 | when the stack empties, the cells revealed lie in every set that holds the start cell and is closed under spreading, and in the start cell alone when its count is not zero |
| Flood.FloodReveal | src/engine.rs:104-121 | the flood fill terminates. It reveals the start cell when that is safe and unflagged. It never reveals a mine or a flagged cell and changes only revealed bits, from false to true. Every zero-count cell it reveals ends with each neighbour revealed, flagged or a mine. It reveals no cell outside any set that holds the start cell and is closed under spreading, which means the neighbours of a hidden, safe, unflagged zero member are in the set. A start cell of nonzero count is the only cell revealed. `remaining_safe` drops by exactly the number of cells revealed |
| Engine.New | src/engine.rs:37-48 | an error exactly when a dimension is zero or mines >= width*height, with the dimension error first; otherwise a valid board of default cells with `remaining_safe` = width*height - mines, alive, not won, not placed, and the seed, replaced by `clockSeed` when it is 0 |
| Engine.Ignored | src/engine.rs:60-63 | reveal goes ahead exactly when the game is alive and not won, (x, y) is on the grid, and the cell there is neither flagged nor revealed |
| Engine.CellAt | src/engine.rs:219-221 | a cell exactly for in-grid coordinates, namely the one at `idx(x, y)` |
| Engine.FlagKeepsValid | src/engine.rs:51-57 | flipping the flag of a hidden cell keeps a valid board valid and undoes nothing: mines, counts and revealed cells are untouched |
| Engine.ToggleFlag | src/engine.rs:51-57 | true exactly for an in-grid hidden cell, whose flag alone flips; otherwise false with the board unchanged; validity is kept and nothing is undone, whether or not the game is over |
| Engine.Positions | src/engine.rs:80 | every position except the clicked one, once each |
| Engine.MineLayout | src/engine.rs:80-83 | the chosen mines are exactly `mines` distinct in-grid positions, none of them the clicked cell |
| Engine.MarkMines | src/engine.rs:83-85 | a cell becomes a mine exactly when its position is in the layout; nothing else changes |
| Engine.Place | src/engine.rs:83-87 | after marking and counting, the mines are exactly the layout, the clicked cell is safe, there are exactly `mines` mines, and the placed board is valid: every safe cell holds its neighbour-mine count and every mine keeps the default count 0, since counting skips mines |
| Engine.PlacementValid | src/engine.rs:76-88 | placing a layout of `mines` distinct positions, with correct counts on safe cells and the default 0 left on mines, yields a valid placed board with exactly `mines` mines |
| Engine.Initialize | src/engine.rs:76-88 | a second call changes nothing. The first call marks exactly the positions chosen from the seed and the clicked cell, never the clicked cell, and gives exactly `mines` mines with revealed and flag bits untouched. The result is valid, so every mine cell's count stays 0 |
| Engine.RevealPlaced | src/engine.rs:66-73 | on a placed board a mine ends the game without revealing it and changes nothing else. A safe cell is revealed and the flood fill settles around it. Only revealed bits change, and never on a mine or a flagged cell. A safe reveal changes only the cells, `remaining_safe` and `won`: the counter drops by the number of cells revealed, and `won` is set exactly when no safe cell is hidden. Nothing outside the region the cell spreads to is revealed, and nothing but the cell when its count is not zero |
| Engine.FloodKeepsValid | src/engine.rs:69-72 | a flood fill followed by the win check keeps every board invariant and undoes nothing |
| Engine.Reveal | src/engine.rs:59-74 | `NoOp` with the board unchanged exactly when the game is over, the position is off the grid or the cell is flagged or revealed. The first reveal is always safe. `HitMine` only clears `alive`. `RevealedSafe` reveals the cell and changes only the cells, `remaining_safe`, `won` and the placed flag; the counter drops by the number of cells revealed, and the flood fill settles, on the first reveal too. No flag changes and no flagged cell or mine is revealed. The first reveal puts the mines exactly on the positions `MineLayout` draws from the seed around the clicked cell; a later reveal moves no mine and changes no count. Nothing outside the region the cell spreads to on the placed board is revealed, and nothing but the cell when its count there is not zero. Validity is kept, so every mine cell's count is 0, and nothing is undone |
| Render.DigitChar | src/engine.rs:144 | a count below ten becomes its decimal digit, and a count of ten or more becomes '?' |
| Render.GlyphRule | src/engine.rs:141-149 | the glyph and what the player may see determine each other: '*' a shown mine, 'F' a flag, '.' a hidden cell, ' ' a zero count, the digit n a count n from 1 to 9, '?' a count of ten or more |
| Render.GlyphRoundTrip | src/engine.rs:141-150 | a cell's glyph can be read back as what the player may see: a shown mine, a count, a flag or a hidden cell |
| Render.GlyphOnValidBoard | src/engine.rs:141-150 | on a valid board the normal rendering never shows '*' or '?', because no mine is revealed and counts are at most 8 |
| Render.Decimal | src/engine.rs:129 | a label is written as a nonempty string of decimal digits |
| Render.DecimalWidth | src/engine.rs:129 | a number takes one digit exactly when it is below ten |
| Render.DecimalRoundTrip | src/engine.rs:129 | reading a written label's digits back gives the number |
| Render.Pad2 | src/engine.rs:129 | `{:>2}` pads with spaces on the left to width two and never cuts a longer label |
| Render.Label | src/engine.rs:127-138 | a column or row label is at least two characters wide |
| Render.LabelReadsBack | src/engine.rs:127-138 | a label is two characters for numbers below ten and the digits alone otherwise; it is spaces then digits, and the digits read back as the column or row number, counted from 1 when one-based |
| Render.HeaderLabelsNoNewlines | src/engine.rs:127-130 | the column labels of the header hold no newline |
| Render.HeaderOneLine | src/engine.rs:125-131 | the column header is one line of text |
| Render.RuleOneLine | src/engine.rs:132-134 | the rule is one line of text |
| Render.Rule | src/engine.rs:132-134 | the rule line is 3*width + 5 characters long |
| Render.Repeat | src/engine.rs:133 | `repeat` gives n copies of the character |
| Render.RowCells | src/engine.rs:139-151 | the cell part of a row is three characters per cell |
| Render.RowCellsGlyph | src/engine.rs:139-151 | the glyph of cell (x, y) is at offset 3x of its row's cell part, followed by two spaces |
| Render.RowLineGlyph | src/engine.rs:136-153 | in row y's line, the glyph of cell (x, y) sits right after the label and the bar, three characters per cell |
| Render.RowLineOneLine | src/engine.rs:136-153 | each row line holds exactly one newline |
| Render.RowsSplit | src/engine.rs:136-153 | the lines of the first k rows are the lines of the first j rows followed by those of rows j .. k-1, in order |
| Render.RenderLines | src/engine.rs:123-155 | the rendering has height + 2 lines: the header, the rule and one per row |
| Render.RenderRowAt | src/engine.rs:123-155 | the rendering is the header, the rule, the lines of the rows above y, row y's line and the lines of the rows below, in that order |
| Render.RenderGlyphAt | src/engine.rs:123-155 | the glyph of cell (x, y) is the character after the header, the rule, the rows above, row y's label, the bar separator and 3x characters of the row |
| Render.DisplayGlyphAt | src/engine.rs:205-208 | on a valid board `Display` shows every cell's normal glyph at that place; it reads back as what the player may see of the cell and is never '*' or '?' |
| Tui.SatAdd | src/tui.rs:144 | `saturating_add` is the sum clamped at 65535 |
| Tui.SatSub | src/tui.rs:144 | `saturating_sub` is the difference clamped at 0 |
| Tui.WrapMul | src/tui.rs:142 | a u16 product is exact when it fits and otherwise congruent to it modulo 2^16 |
| Tui.CenteredGridArea | src/tui.rs:139-147 | the grid is min(2*cols, parent width) wide and min(rows, parent height) tall. It is never left of or above the parent, and a grid that fits lies inside it |
| Tui.CenteredMargins | src/tui.rs:144-146 | a grid that fits is centered: the right margin equals the left margin or exceeds it by one column, and likewise for rows |
| Tui.InnerArea | src/tui.rs:195-198 | the inner rectangle starts one further right and down, saturating at 65535, and is two narrower and shorter, saturating at 0 |
| Tui.InnerInside | src/tui.rs:195-198 | every point of the inner rectangle lies strictly inside the area's border |
| Tui.PosToCell | src/tui.rs:200-208 | None left of or above the inner area. A returned cell is inside the board, and the position is one of that cell's two screen columns in its screen row |
| Tui.PosToCellRoundTrip | src/tui.rs:202-207 | both screen columns of cell (c, r) map back to (c, r) |
| Tui.PosToCellExactly | src/tui.rs:200-208 | a position maps to a cell exactly when it is at or right of and below the inner corner and within cols*2 columns and rows rows of it |
| Tui.BorderClickAsWritten | src/tui.rs:139-147 | for a 9x9 board in an 80x24 parent the inner area is only 16x7, and a click on the bottom border maps to the hidden row 7 |
| Tui.BorderedGridExact | src/tui.rs:139-147 | with the border reserved, the inner area is exactly the board's size, and a position maps to a cell exactly when it lies inside the inner area |

## Left out

- `seed_from_time` (src/engine.rs:199-203) reads the wall clock. `Engine.New` takes its value as the parameter `clockSeed`.
- Engine.New: `width * height` is computed on unbounded integers. A `usize` overflow of the product, which would panic or wrap in Rust, is not modelled.
- Prng.NextUsize: usize is taken to be 64 bits. On a 32-bit target the `as usize` cast at src/engine.rs:187 keeps only the low 32 bits of the shifted value, which gives a different mine layout for the same seed.
- Prng.NextU64: the full period of xorshift64 is not proved. Only the facts the shuffle needs are stated: the state stays nonzero, and each drawn index is in range.
- Prng.Shuffle: the source's in-place loop over a slice is written as a recursive function over a sequence. It has the same order of draws and swaps, and it returns the final generator state.
- Render.Display, Render.Render, Render.Header, Render.HeaderLabels, Render.Rows and Render.RowLine compute the text and carry no contract of their own. Their properties are stated by lemmas: `RenderLines`, `RenderRowAt`, `RenderGlyphAt`, `DisplayGlyphAt`, `HeaderOneLine`, `LabelReadsBack`, `RowsSplit`, `RowLineOneLine` and `RowLineGlyph`. No lemma compares the whole string character by character.
- Render.Pad2: the padding is modelled for the decimal labels only, which is all `render` formats. Writes into the `String` cannot fail there, and the ignored `fmt::Result` is left out.
- Tui.CenteredGridArea: debug builds panic on `cols * 2` overflow, while the model wraps as a release build does. The `usize as u16` casts at the call sites (src/tui.rs:126 for `centered_grid_area`, src/tui.rs:67 for `pos_to_cell`) are outside the modelled functions, and the model takes `cols` and `rows` as `u16`.
- src/tui.rs: `run_tui`, `ui`, `draw_board`, `number_style` and `TermGuard` are the terminal event loop, drawing, colours and terminal-mode side effects of foreign libraries. They are not modelled.
- src/main.rs: the argument parsing and the text prompt loop are I/O plumbing. They are not part of this model.
- tests/engine_tests.rs is not part of this model. Its two checks appear as contracts:
  - the first reveal is safe (`Engine.Reveal`);
  - the counts match the neighbour mines and there are exactly `mines` mines (`Engine.Initialize`, `Adjacency.ComputeAdjacency`).

## Findings

| source | as written | input that shows it | evidently intended | confidence | as-written member | corrected member |
|---|---|---|---|---|---|---|
| src/tui.rs:139-147 | `centered_grid_area` sizes the area for the grid alone, `2*cols` by `rows`. The board is then drawn inside a `Borders::ALL` block, and `inner_area` shrinks that area by one cell on every side. The last board column and the last two board rows are cut off, and `pos_to_cell`, which bounds only by `cols` and `rows`, maps clicks on the bottom border and past the inner area to hidden cells | a 9x9 board centered in an 80x24 parent at (0, 0): the area is (31, 7, 18, 9) and the inner area is (32, 8, 16, 7). A click at (32, 15), on the bottom border, maps to cell (0, 7) | reserve the border: `2*cols + 2` by `rows + 2`, so that the inner area is exactly `2*cols` by `rows` and a click maps to a cell exactly when it lies inside the inner area | medium, not executed | Tui.BorderClickAsWritten | Tui.BorderedGridExact |
