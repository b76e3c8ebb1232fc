/** Chess moves as python-chess represents them, their UCI text (the book's key for a
    move inside a position) and the 16-bit move index of the Polyglot record
    (create_polyglot.py, `save_as_polyglot`). */
module Moves {
  import opened Wrappers

  /** Squares 0..63: a1 = 0, b1 = 1, ..., h8 = 63. */
  type Square = s: int | 0 <= s < 64

  /** python-chess piece types: PAWN = 1, KNIGHT, BISHOP, ROOK, QUEEN, KING = 6. */
  type PieceType = p: int | 1 <= p <= 6 witness 1

  const Pawn: PieceType := 1

  datatype Color = White | Black

  datatype Move = Move(from: Square, to: Square, promotion: Option<PieceType>)

  /** No move of any chess variant promotes to a pawn. */
  predicate PromotesLegally(m: Move)
  {
    m.promotion != Some(Pawn)
  }

  function SquareName(s: Square): (r: string)
    ensures |r| == 2
  {
    [('a' as int + s % 8) as char, ('1' as int + s / 8) as char]
  }

  function PieceSymbol(p: PieceType): char
  {
    "pnbrqk"[p - 1]
  }

  /** `Move.uci()`: origin and destination square names and the promotion letter;
      the null move (from a1 to a1, no promotion) prints as "0000". */
  function Uci(m: Move): (r: string)
  {
    if m.promotion.Some? then SquareName(m.from) + SquareName(m.to) + [PieceSymbol(m.promotion.value)]
    else if m.from != 0 || m.to != 0 then SquareName(m.from) + SquareName(m.to)
    else "0000"
  }

  /** The move index of a book record: `to + (from << 6)`, plus `(promotion - 1) << 12`
      when the move promotes. It always fits the record's 2 bytes; the largest, a king
      promotion from h8 to h8, is 24575. */
  function MoveIndex(m: Move): (mi: nat)
    ensures mi <= 24575 < 0x1_0000
  {
    m.to + m.from * 64 + (if m.promotion.Some? then (m.promotion.value - 1) * 4096 else 0)
  }

  /** Reads a move index back: bits 0-5 the destination, 6-11 the origin, 12-14 the
      promotion (0 for none). */
  function DecodeMoveIndex(mi: nat): (m: Move)
    requires mi < 6 * 4096
  {
    var promo := mi / 4096;
    Move((mi / 64) % 64, mi % 64, if promo == 0 then None else Some(promo + 1))
  }

  /** Decoding a move index gives back the move. */
  lemma MoveIndexRoundTrip(m: Move)
    requires PromotesLegally(m)
    ensures MoveIndex(m) < 6 * 4096
    ensures DecodeMoveIndex(MoveIndex(m)) == m
  {
    var p := if m.promotion.Some? then m.promotion.value - 1 else 0;
    assert MoveIndex(m) == p * 4096 + m.from * 64 + m.to;
    assert MoveIndex(m) / 4096 == p;
    assert (MoveIndex(m) / 64) % 64 == m.from;
    assert MoveIndex(m) % 64 == m.to;
  }

  /** Distinct moves get distinct move indices. */
  lemma MoveIndexInjective(m1: Move, m2: Move)
    requires PromotesLegally(m1) && PromotesLegally(m2)
    requires MoveIndex(m1) == MoveIndex(m2)
    ensures m1 == m2
  {
    MoveIndexRoundTrip(m1);
    MoveIndexRoundTrip(m2);
  }

  /** A pawn "promotion" would collide with the plain move: why PromotesLegally is needed. */
  lemma PawnPromotionCollides(from: Square, to: Square)
    ensures MoveIndex(Move(from, to, Some(Pawn))) == MoveIndex(Move(from, to, None))
  {
  }
}
