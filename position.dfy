/** `BoardPos` (src/main.rs): a cell of the 8x8 grid, and its linear index `col + row * 8`. */
module Position {
  import opened Wrappers

  /** Rust's `u8`. */
  type u8 = x: int | 0 <= x < 256

  /** A (row, col) pair; the fields are `u8`, so nothing in the type keeps them below 8. */
  datatype BoardPos = BoardPos(row: u8, col: u8)

  /** A position on the board: both coordinates in 0..7. */
  predicate ValidPos(p: BoardPos) {
    p.row < 8 && p.col < 8
  }

  /**
   * `to_idx`: the linear index of a position. The sum is computed in `u8`,
   * so the source demands that it does not overflow (`row * 8 + col < 256`);
   * for an on-board position the index lies in [0, 64) and decodes back to
   * the row (quotient by 8) and column (remainder).
   */
  function ToIdx(p: BoardPos): (idx: nat)
    requires p.row * 8 + p.col < 256
    ensures idx < 256
    ensures ValidPos(p) ==> idx < 64 && idx / 8 == p.row && idx % 8 == p.col
  {
    p.col + p.row * 8
  }

  /**
   * `from_idx`: the position of a linear index, or `None` when the index is
   * 64 or more. A returned position is on the board and its row and column
   * recombine to the index.
   */
  function FromIdx(idx: nat): (r: Option<BoardPos>)
    ensures r.None? <==> idx >= 64
    ensures r.Some? ==> ValidPos(r.value) && r.value.row * 8 + r.value.col == idx
  {
    if idx >= 64 then None
    else Some(BoardPos(idx / 8, idx % 8))
  }

  /** Every index in [0, 64) is the index of the position it decodes to. */
  lemma IndexRoundTrip(idx: nat)
    requires idx < 64
    ensures FromIdx(idx).Some?
    ensures ToIdx(FromIdx(idx).value) == idx
  {
  }

  /** Every on-board position is recovered from its index. */
  lemma PositionRoundTrip(p: BoardPos)
    requires ValidPos(p)
    ensures FromIdx(ToIdx(p)) == Some(p)
  {
  }

  /** Distinct on-board positions have distinct indices. */
  lemma ToIdxInjective(p: BoardPos, q: BoardPos)
    requires ValidPos(p) && ValidPos(q)
    ensures ToIdx(p) == ToIdx(q) <==> p == q
  {
  }
}
