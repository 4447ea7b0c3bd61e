/** `PieceType`, `Color`, `Piece` and the one-character glyph of a piece (src/main.rs). */
module Pieces {
  import opened Position

  datatype PieceType = Pawn | Bishop | Knight | Rook | Queen | King

  datatype Color = White | Black

  /** A piece records its colour, its kind (the source's field `piece`) and the cell it stands on. */
  datatype Piece = Piece(color: Color, piece: PieceType, pos: BoardPos)

  predicate IsAsciiLower(ch: char) {
    'a' <= ch <= 'z'
  }

  predicate IsAsciiUpper(ch: char) {
    'A' <= ch <= 'Z'
  }

  /** Rust's `char::to_ascii_uppercase`: ASCII lower-case letters move up, every other char is kept. */
  function AsciiUpper(ch: char): (r: char)
    ensures IsAsciiLower(ch) ==> IsAsciiUpper(r) && r as int + 32 == ch as int
    ensures !IsAsciiLower(ch) ==> r == ch
  {
    if IsAsciiLower(ch) then (ch as int - 32) as char else ch
  }

  /** Rust's `char::to_ascii_lowercase`, the inverse of AsciiUpper on letters. */
  function AsciiLower(ch: char): (r: char)
    ensures IsAsciiUpper(ch) ==> IsAsciiLower(r) && r as int == ch as int + 32
    ensures !IsAsciiUpper(ch) ==> r == ch
  {
    if IsAsciiUpper(ch) then (ch as int + 32) as char else ch
  }

  /**
   * The lower-case letter the source assigns to each kind. As written the
   * source gives the Knight the letter 'k', the same as the King.
   */
  function KindLetter(t: PieceType): (ch: char)
    ensures IsAsciiLower(ch)
    ensures ch == 'k' <==> t == Knight || t == King
  {
    match t
    case Pawn => 'p'
    case Bishop => 'b'
    case Knight => 'k'
    case Rook => 'r'
    case Queen => 'q'
    case King => 'k'
  }

  /**
   * `to_char`: the glyph of a piece. It is an ASCII letter, upper-case
   * exactly for White, whose lower-case form is the kind's letter.
   */
  function ToChar(p: Piece): (ch: char)
    ensures IsAsciiLower(ch) || IsAsciiUpper(ch)
    ensures IsAsciiUpper(ch) <==> p.color == White
    ensures AsciiLower(ch) == KindLetter(p.piece)
  {
    var ch := KindLetter(p.piece);
    match p.color
    case White => AsciiUpper(ch)
    case Black => ch
  }

  /** The glyph depends only on colour and kind, never on the position. */
  lemma GlyphIgnoresPosition(p: Piece, q: Piece)
    requires p.color == q.color && p.piece == q.piece
    ensures ToChar(p) == ToChar(q)
  {
  }

  /**
   * Two pieces share a glyph exactly when they have the same colour and
   * either the same kind or the kinds Knight and King: the glyph recovers
   * the colour, and the kind only up to that one collision.
   */
  lemma GlyphEquality(p: Piece, q: Piece)
    ensures ToChar(p) == ToChar(q) <==>
      p.color == q.color &&
      (p.piece == q.piece || (p.piece in {Knight, King} && q.piece in {Knight, King}))
  {
    if ToChar(p) == ToChar(q) {
      assert AsciiLower(ToChar(p)) == AsciiLower(ToChar(q));
    }
  }

  /** As written, a Knight and a King of the same colour are drawn with the same glyph. */
  lemma KnightKingShareGlyph(color: Color, at: BoardPos, at': BoardPos)
    ensures ToChar(Piece(color, Knight, at)) == ToChar(Piece(color, King, at'))
    ensures ToChar(Piece(color, Knight, at)) == (if color == White then 'K' else 'k')
  {
  }

  /** The letter table with the Knight's conventional letter 'n'. */
  function KindLetterIntended(t: PieceType): (ch: char)
    ensures IsAsciiLower(ch)
  {
    match t
    case Pawn => 'p'
    case Bishop => 'b'
    case Knight => 'n'
    case Rook => 'r'
    case Queen => 'q'
    case King => 'k'
  }

  /** The glyph with the corrected letter table; case is chosen by colour exactly as in ToChar. */
  function ToCharIntended(p: Piece): (ch: char)
    ensures IsAsciiUpper(ch) <==> p.color == White
    ensures AsciiLower(ch) == KindLetterIntended(p.piece)
  {
    var ch := KindLetterIntended(p.piece);
    match p.color
    case White => AsciiUpper(ch)
    case Black => ch
  }

  /** With the corrected table the glyph identifies both the colour and the kind of a piece. */
  lemma IntendedGlyphIdentifiesPiece(p: Piece, q: Piece)
    ensures ToCharIntended(p) == ToCharIntended(q) <==> p.color == q.color && p.piece == q.piece
  {
    if ToCharIntended(p) == ToCharIntended(q) {
      assert KindLetterIntended(p.piece) == KindLetterIntended(q.piece);
    }
  }

  /** The corrected glyph differs from the source's only for Knights. */
  lemma IntendedDiffersOnlyForKnight(p: Piece)
    ensures ToCharIntended(p) == ToChar(p) <==> p.piece != Knight
  {
  }
}
