/**
 * `ChessBoard` (src/main.rs): 64 optional pieces indexed by `ToIdx`, and the
 * side to move. `New` builds the starting position the way `ChessBoard::new`
 * does: it collects the 32 pieces in two loops, then writes each one into the
 * cell its own position names.
 */
module Board {
  import opened Wrappers
  import opened Position
  import opened Pieces

  /** The back rank from column 0 to column 7: R N B Q K B N R. */
  const BackRankOrder: seq<PieceType> := [Rook, Knight, Bishop, Queen, King, Bishop, Knight, Rook]

  /** The row of a side's pawns at the start. */
  function PawnRow(c: Color): u8 {
    if c == White then 6 else 1
  }

  /** The row of a side's other pieces at the start. */
  function BackRow(c: Color): u8 {
    if c == White then 7 else 0
  }

  /** The other side. */
  function Opponent(c: Color): Color {
    if c == White then Black else White
  }

  /** Reference definition of the starting position, cell by cell. */
  function InitialCell(p: BoardPos): Option<Piece>
    requires ValidPos(p)
  {
    if p.row == PawnRow(White) then Some(Piece(White, Pawn, p))
    else if p.row == PawnRow(Black) then Some(Piece(Black, Pawn, p))
    else if p.row == BackRow(White) then Some(Piece(White, BackRankOrder[p.col], p))
    else if p.row == BackRow(Black) then Some(Piece(Black, BackRankOrder[p.col], p))
    else None
  }

  /** The 64 cells of the starting position, in index order. */
  function StartingCells(): (cells: seq<Option<Piece>>)
    ensures |cells| == 64
  {
    seq(64, i requires 0 <= i < 64 => InitialCell(FromIdx(i).value))
  }

  /** The content of the cell at an on-board position. */
  function CellAt(cells: seq<Option<Piece>>, p: BoardPos): Option<Piece>
    requires |cells| == 64 && ValidPos(p)
  {
    cells[ToIdx(p)]
  }

  /** The cell in the same column on the other side's half: row r faces row 7 - r. */
  function Mirror(p: BoardPos): (q: BoardPos)
    requires ValidPos(p)
    ensures ValidPos(q) && q.col == p.col && p.row + q.row == 7
  {
    BoardPos(7 - p.row, p.col)
  }

  /** The side pushed at position j of the piece list: White first, then Black, alternately. */
  function PushedSide(j: nat): Color {
    if j % 2 == 0 then White else Black
  }

  /**
   * The order in which `ChessBoard::new` pushes its 32 pieces: for each
   * column a White and a Black pawn, then for each column a White and a
   * Black back-rank piece.
   */
  ghost predicate StartingOrder(list: seq<Piece>) {
    |list| == 32 &&
    (forall j :: 0 <= j < 16 ==>
      list[j] == Piece(PushedSide(j), Pawn, BoardPos(PawnRow(PushedSide(j)), j / 2))) &&
    (forall j :: 16 <= j < 32 ==>
      list[j] == Piece(PushedSide(j), BackRankOrder[(j - 16) / 2], BoardPos(BackRow(PushedSide(j)), (j - 16) / 2)))
  }

  /** The two collecting loops of `ChessBoard::new`: the pawns, then the back ranks. */
  method StartingPieces() returns (list: seq<Piece>)
    ensures StartingOrder(list)
  {
    list := [];
    var col: u8 := 0;
    while col < 8
      invariant col <= 8
      invariant |list| == 2 * col
      invariant forall j :: 0 <= j < |list| ==>
        list[j] == Piece(PushedSide(j), Pawn, BoardPos(PawnRow(PushedSide(j)), j / 2))
    {
      list := list + [Piece(White, Pawn, BoardPos(6, col))];
      list := list + [Piece(Black, Pawn, BoardPos(1, col))];
      col := col + 1;
    }
    var kinds := BackRankOrder;
    col := 0;
    while col < 8
      invariant col <= 8
      invariant |list| == 16 + 2 * col
      invariant forall j :: 0 <= j < 16 ==>
        list[j] == Piece(PushedSide(j), Pawn, BoardPos(PawnRow(PushedSide(j)), j / 2))
      invariant forall j :: 16 <= j < |list| ==>
        list[j] == Piece(PushedSide(j), kinds[(j - 16) / 2], BoardPos(BackRow(PushedSide(j)), (j - 16) / 2))
    {
      var piece := kinds[col];
      list := list + [Piece(White, piece, BoardPos(7, col))];
      list := list + [Piece(Black, piece, BoardPos(0, col))];
      col := col + 1;
    }
  }

  /** Cell i has been written by one of the first k pieces of the list. */
  ghost predicate Placed(list: seq<Piece>, k: nat, i: nat) {
    exists j :: 0 <= j < k && j < |list| && ValidPos(list[j].pos) && ToIdx(list[j].pos) == i
  }

  /**
   * Writing the pushed pieces at their own indices yields the reference
   * layout: every pushed piece is what the reference puts in its cell, and
   * every occupied reference cell receives some pushed piece.
   */
  lemma StartingOrderFillsCells(list: seq<Piece>)
    requires StartingOrder(list)
    ensures forall j :: 0 <= j < |list| ==>
      ValidPos(list[j].pos) && StartingCells()[ToIdx(list[j].pos)] == Some(list[j])
    ensures forall i :: 0 <= i < 64 && StartingCells()[i].Some? ==> Placed(list, |list|, i)
  {
    forall j | 0 <= j < |list|
      ensures ValidPos(list[j].pos) && StartingCells()[ToIdx(list[j].pos)] == Some(list[j])
    {
      PositionRoundTrip(list[j].pos);
    }
    forall i | 0 <= i < 64 && StartingCells()[i].Some?
      ensures Placed(list, |list|, i)
    {
      IndexRoundTrip(i);
      var p := FromIdx(i).value;
      var j := if p.row == 6 then 2 * p.col
               else if p.row == 1 then 2 * p.col + 1
               else if p.row == 7 then 16 + 2 * p.col
               else 17 + 2 * p.col;
      assert list[j].pos == p;
    }
  }

  /** The number of occupied cells. */
  function CountOccupied(cells: seq<Option<Piece>>): (n: nat)
    ensures n <= |cells|
    ensures n == 0 <==> forall i :: 0 <= i < |cells| ==> cells[i].None?
    ensures n == |cells| <==> forall i :: 0 <= i < |cells| ==> cells[i].Some?
  {
    if cells == [] then 0
    else (if cells[0].Some? then 1 else 0) + CountOccupied(cells[1..])
  }

  /** Counting distributes over concatenation. */
  lemma {:induction false} CountOccupiedAppend(a: seq<Option<Piece>>, b: seq<Option<Piece>>)
    ensures CountOccupied(a + b) == CountOccupied(a) + CountOccupied(b)
  {
    if a == [] {
      assert a + b == b;
    } else {
      assert (a + b)[1..] == a[1..] + b;
      CountOccupiedAppend(a[1..], b);
    }
  }

  /** The reference layout, read through cell indices. */
  lemma StartingCellAt(p: BoardPos)
    requires ValidPos(p)
    ensures CellAt(StartingCells(), p) == InitialCell(p)
  {
    PositionRoundTrip(p);
  }

  /**
   * Row by row: White pawns on row 6 and Black pawns on row 1, White and
   * Black back-rank pieces in the order R N B Q K B N R on rows 7 and 0,
   * and rows 2 to 5 empty.
   */
  lemma StartingRows()
    ensures BackRankOrder == [Rook, Knight, Bishop, Queen, King, Bishop, Knight, Rook]
    ensures forall p :: ValidPos(p) && p.row == 6 ==>
      CellAt(StartingCells(), p) == Some(Piece(White, Pawn, p))
    ensures forall p :: ValidPos(p) && p.row == 1 ==>
      CellAt(StartingCells(), p) == Some(Piece(Black, Pawn, p))
    ensures forall p :: ValidPos(p) && p.row == 7 ==>
      CellAt(StartingCells(), p) == Some(Piece(White, BackRankOrder[p.col], p))
    ensures forall p :: ValidPos(p) && p.row == 0 ==>
      CellAt(StartingCells(), p) == Some(Piece(Black, BackRankOrder[p.col], p))
    ensures forall p :: ValidPos(p) && 2 <= p.row <= 5 ==> CellAt(StartingCells(), p) == None
  {
    forall p | ValidPos(p)
      ensures CellAt(StartingCells(), p) == InitialCell(p)
    {
      StartingCellAt(p);
    }
  }

  /** Exactly 32 cells are occupied at the start: rows 0, 1, 6 and 7 full, rows 2 to 5 empty. */
  lemma StartingOccupancy()
    ensures CountOccupied(StartingCells()) == 32
  {
    var s := StartingCells();
    assert s == s[..16] + s[16..48] + s[48..];
    forall i | 0 <= i < 16
      ensures s[..16][i].Some?
    {
      IndexRoundTrip(i);
    }
    forall i | 0 <= i < 32
      ensures s[16..48][i].None?
    {
      IndexRoundTrip(16 + i);
    }
    forall i | 0 <= i < 16
      ensures s[48..][i].Some?
    {
      IndexRoundTrip(48 + i);
    }
    CountOccupiedAppend(s[..16], s[16..48]);
    CountOccupiedAppend(s[..16] + s[16..48], s[48..]);
  }

  /**
   * Every placed piece sits in the cell its own position names, so no two
   * cells hold pieces claiming the same position.
   */
  lemma StartingPositionsMatchCells()
    ensures forall i :: 0 <= i < 64 && StartingCells()[i].Some? ==>
      ValidPos(StartingCells()[i].value.pos) && ToIdx(StartingCells()[i].value.pos) == i
    ensures forall i, j ::
      (0 <= i < 64 && 0 <= j < 64 && StartingCells()[i].Some? && StartingCells()[j].Some? &&
       StartingCells()[i].value.pos == StartingCells()[j].value.pos) ==> i == j
  {
    forall i | 0 <= i < 64 && StartingCells()[i].Some?
      ensures ValidPos(StartingCells()[i].value.pos) && ToIdx(StartingCells()[i].value.pos) == i
    {
      IndexRoundTrip(i);
    }
  }

  /** The reference layout is mirror-symmetric at one position. */
  lemma InitialCellMirror(p: BoardPos)
    requires ValidPos(p)
    ensures InitialCell(p).Some? <==> InitialCell(Mirror(p)).Some?
    ensures InitialCell(p).Some? ==>
      InitialCell(Mirror(p)).value.piece == InitialCell(p).value.piece &&
      InitialCell(Mirror(p)).value.color == Opponent(InitialCell(p).value.color)
    ensures p.row < 2 ==> InitialCell(p).Some? && InitialCell(p).value.color == Black
  {
    var q := Mirror(p);
    if p.row == 0 {
      assert q.row == 7;
    } else if p.row == 1 {
      assert q.row == 6;
    } else if p.row == 6 {
      assert q.row == 1;
    } else if p.row == 7 {
      assert q.row == 0;
    } else {
      assert 2 <= q.row <= 5;
    }
  }

  /**
   * The two sides mirror each other: a cell and the cell in the same column
   * on the other half are both empty or both occupied, by the same kind in
   * opposite colours, Black on rows 0 and 1 and White on rows 6 and 7.
   */
  lemma StartingColourSymmetry()
    ensures forall p :: ValidPos(p) ==>
      (CellAt(StartingCells(), p).Some? <==> CellAt(StartingCells(), Mirror(p)).Some?)
    ensures forall p :: ValidPos(p) && CellAt(StartingCells(), p).Some? ==>
      CellAt(StartingCells(), Mirror(p)).value.piece == CellAt(StartingCells(), p).value.piece &&
      CellAt(StartingCells(), Mirror(p)).value.color == Opponent(CellAt(StartingCells(), p).value.color)
    ensures forall p :: ValidPos(p) && p.row < 2 ==>
      CellAt(StartingCells(), p).Some? && CellAt(StartingCells(), p).value.color == Black
  {
    forall p | ValidPos(p)
      ensures CellAt(StartingCells(), p) == InitialCell(p)
      ensures CellAt(StartingCells(), Mirror(p)) == InitialCell(Mirror(p))
      ensures InitialCell(p).Some? <==> InitialCell(Mirror(p)).Some?
      ensures InitialCell(p).Some? ==>
        InitialCell(Mirror(p)).value.piece == InitialCell(p).value.piece &&
        InitialCell(Mirror(p)).value.color == Opponent(InitialCell(p).value.color)
      ensures p.row < 2 ==> InitialCell(p).Some? && InitialCell(p).value.color == Black
    {
      StartingCellAt(p);
      StartingCellAt(Mirror(p));
      InitialCellMirror(p);
    }
  }

  /** Writing the k-th piece marks exactly its own cell as placed. */
  lemma PlacedStep(list: seq<Piece>, k: nat, i: nat)
    requires k < |list| && ValidPos(list[k].pos)
    ensures Placed(list, k + 1, i) <==> Placed(list, k, i) || ToIdx(list[k].pos) == i
  {
    if Placed(list, k + 1, i) && !Placed(list, k, i) {
      var j :| 0 <= j < k + 1 && j < |list| && ValidPos(list[j].pos) && ToIdx(list[j].pos) == i;
      assert j == k;
    }
  }

  class ChessBoard {
    var pieces: array<Option<Piece>>
    var turn: Color

    ghost predicate Valid()
      reads this
    {
      pieces.Length == 64
    }

    /** `ChessBoard::new`: the standard starting position, White to move. */
    constructor New()
      ensures Valid() && fresh(pieces)
      ensures turn == White
      ensures pieces[..] == StartingCells()
    {
      pieces := new Option<Piece>[64](_ => None);
      turn := White;
      new;
      var list := StartingPieces();
      StartingOrderFillsCells(list);
      var k := 0;
      while k < |list|
        invariant 0 <= k <= |list|
        invariant fresh(pieces) && pieces.Length == 64 && turn == White
        invariant forall i :: 0 <= i < 64 ==>
          pieces[i] == if Placed(list, k, i) then StartingCells()[i] else None
      {
        var piece := list[k];
        var target := ToIdx(piece.pos);
        forall i | 0 <= i < 64
          ensures Placed(list, k + 1, i) <==> Placed(list, k, i) || target == i
        {
          PlacedStep(list, k, i);
        }
        pieces[target] := Some(piece);
        k := k + 1;
      }
      assert forall i :: 0 <= i < 64 ==> pieces[i] == StartingCells()[i];
    }
  }
}
