# Chess board snapshot — a verified Dafny model

This project models the board layer of an early snapshot of a Rust chess program (`src/main.rs`):

- the `BoardPos` grid coordinates and their linear index `col + row * 8` (`to_idx`, `from_idx`);
- the pieces (`PieceType`, `Color`, `Piece`) and the glyph a piece is drawn with (`to_char`);
- the `ChessBoard` (64 optional pieces and the side to move) and `ChessBoard::new`, which builds the starting position.

Modules, one per concern of the source file:

- `wrappers.dfy` — `Wrappers.Option`, Rust's `Option`.
- `position.dfy` — `Position`: `u8`, `BoardPos`, `ToIdx`, `FromIdx` and the round-trip lemmas.
- `piece.dfy` — `Pieces`: the piece datatypes, `ToChar` as written, and the corrected glyph table (see Findings).
- `board.dfy` — `Board`: the reference starting layout `StartingCells`, the class `ChessBoard` whose constructor `New` runs the source's loops, and the lemmas about the starting position.

`ChessBoard::new` is split the way the source is written. `StartingPieces` is its two collecting loops, which push 32 pieces into a list. `ChessBoard.New` allocates the 64 empty cells, sets the turn to White, then writes each listed piece in place at `ToIdx` of its own position. Its postcondition equates the array with `StartingCells`, a cell-by-cell reference definition (`InitialCell`). The lemmas then state the promised properties of that layout: its rows, its 32 occupied cells, each piece standing in the cell its position names, and the mirror symmetry between the sides.

## Model

| member | source | states |
|---|---|---|
| Position.ToIdx | src/main.rs:24-26 | defined whenever the `u8` sum `col + row * 8` does not overflow; for an on-board position the index is below 64 and its quotient and remainder by 8 give back the row and the column |
| Position.FromIdx | src/main.rs:28-34 | returns `None` exactly when the index is 64 or more; otherwise the position is on the board and `row * 8 + col` equals the index |
| Position.IndexRoundTrip | src/main.rs:24-34 | every index in [0, 64) decodes to a position whose `to_idx` is that index |
| Position.PositionRoundTrip | src/main.rs:24-34 | every on-board position is recovered by `from_idx(to_idx(p))` |
| Position.ToIdxInjective | src/main.rs:24-26 | two on-board positions have the same index exactly when they are equal |
| Pieces.AsciiUpper | src/main.rs:55 | `to_ascii_uppercase` turns an ASCII lower-case letter into its upper-case form (32 code points lower) and keeps any other character |
| Pieces.KindLetter | src/main.rs:46-53 | every kind's letter is ASCII lower-case, and the letter is 'k' exactly for Knight and King |
| Pieces.ToChar | src/main.rs:45-58 | the glyph is an ASCII letter; it is upper-case exactly when the piece is White; its lower-case form is the kind's letter |
| Pieces.GlyphIgnoresPosition | src/main.rs:45-58 | two pieces of the same colour and kind get the same glyph whatever their positions |
| Pieces.GlyphEquality | src/main.rs:45-58 | two pieces share a glyph exactly when they have the same colour and either the same kind or kinds Knight and King |
| Pieces.KnightKingShareGlyph | src/main.rs:49-52 | as written, a Knight and a King of one colour both render as 'K' (White) or 'k' (Black) |
| Pieces.KindLetterIntended | src/main.rs:46-53 | the corrected letter table (Knight is 'n') yields ASCII lower-case letters |
| Pieces.ToCharIntended | src/main.rs:45-58 | the corrected glyph is upper-case exactly for White and lower-cases to the corrected letter |
| Pieces.IntendedGlyphIdentifiesPiece | src/main.rs:45-58 | with the corrected table, two pieces share a glyph exactly when they share colour and kind |
| Pieces.IntendedDiffersOnlyForKnight | src/main.rs:49 | the corrected glyph equals the source's glyph exactly for every kind except Knight |
| Board.StartingPieces | src/main.rs:70-86 | returns 32 pieces in push order: for each column a White pawn on row 6 then a Black pawn on row 1, then for each column a White piece on row 7 then a Black piece on row 0, both of the kind R N B Q K B N R at that column |
| Board.StartingOrderFillsCells | src/main.rs:88-90 | every pushed piece is on the board and is exactly what the reference layout holds at its own index; every occupied reference cell receives some pushed piece |
| Board.ChessBoard.New | src/main.rs:69-92 | a fresh 64-cell array equal, cell by cell, to the reference starting layout, with White to move |
| Board.CountOccupied | src/main.rs:64 | the number of occupied cells is at most the number of cells, zero exactly when all are empty, and full exactly when all are occupied |
| Board.CountOccupiedAppend | src/main.rs:64 | the occupied count of two concatenated runs of cells is the sum of their counts |
| Board.StartingCellAt | src/main.rs:88-90 | the cell at index `to_idx(p)` of the starting array holds the reference content for position p |
| Board.StartingRows | src/main.rs:73-86 | row 6 holds White pawns and row 1 Black pawns; rows 7 and 0 hold White and Black pieces in column order Rook, Knight, Bishop, Queen, King, Bishop, Knight, Rook; rows 2 to 5 are empty |
| Board.StartingOccupancy | src/main.rs:73-90 | exactly 32 cells are occupied in the starting position |
| Board.StartingPositionsMatchCells | src/main.rs:88-90 | every occupied cell i holds a piece whose own position is on the board and has index i, so no two occupied cells hold pieces with the same position |
| Board.InitialCellMirror | src/main.rs:73-86 | in the reference layout, position (r, c) and (7 - r, c) are both empty or both occupied by the same kind in opposite colours; rows 0 and 1 are Black |
| Board.PlacedStep | src/main.rs:88-90 | writing the next listed piece adds exactly its own index to the set of written cells |
| Board.StartingColourSymmetry | src/main.rs:73-86 | cell (r, c) and cell (7 - r, c) are both empty or both occupied, by the same kind in opposite colours, and rows 0 and 1 hold Black pieces |

## Left out

- `ChessBoard::print` (src/main.rs:93-101) is console output. It visits the 64 cells in index order and ends a line after column 7; it is the only consumer of the glyph, and it is not modelled.
- `main` (src/main.rs:104-107) only builds a board and prints it.
- Position.ToIdx: the `u8` addition and multiplication panic on overflow in a debug build and wrap in a release build; the model instead requires `row * 8 + col < 256`, the condition under which neither happens. Every position the program builds is on the board.
- `usize` is modelled as an unbounded `nat`. The `try_into().unwrap()` calls in `from_idx` and `new` cannot fail once the index is below 64 and the column below 8, so they are not modelled as panics.
- The Rust `Vec` of pieces in `ChessBoard::new` is modelled as a `seq` that the loops extend; `Piece` is a `Copy` value, so writing it into a cell is modelled as storing a datatype value.
- Moves, legality rules, captures, turn alternation and a winner field do not exist in this snapshot. They are not modelled.
- The glyph table follows the code, not the conventional table: the code gives the Knight 'k' (src/main.rs:49), where the letter 'n' is conventional. The corrected table is modelled beside it (see Findings).

## Findings

| source | as written | input that shows it | evidently intended | confidence | as-written member | corrected member |
|---|---|---|---|---|---|---|
| src/main.rs:49 | `PieceType::Knight => 'k'`, the same letter as `PieceType::King` (src/main.rs:52) | a White Knight and a White King both render as 'K', so a printed board cannot tell them apart | `'n'` for the Knight, so the glyph identifies colour and kind | not executed; high | Pieces.KnightKingShareGlyph | Pieces.IntendedGlyphIdentifiesPiece |
