/** Board vocabulary shared by the evaluator and the search: colours, piece
    roles and squares, numbered the way the chess library the engine uses
    numbers them. */
module Chess {

  /** A side: the colour of a piece or the side to move. */
  datatype Color = White | Black {

    function Other(): (c: Color)
      ensures c != this
    {
      if White? then Black else White
    }

    /** Picks the first argument for White and the second for Black. */
    function FoldWb<T>(white: T, black: T): T
    {
      if White? then white else black
    }
  }

  /** The library's numeric value of a colour: Black is 0 and White is 1. */
  function ColorNumber(c: Color): (n: nat)
    ensures n < 2
    ensures n == 1 <==> c == White
  {
    if c == White then 1 else 0
  }

  datatype Role = Pawn | Knight | Bishop | Rook | Queen | King

  /** The library's numeric value of a role: Pawn is 1 up to King, 6. */
  function RoleNumber(r: Role): (n: nat)
    ensures 1 <= n <= 6
    ensures n == 1 <==> r == Pawn
  {
    match r
    case Pawn => 1
    case Knight => 2
    case Bishop => 3
    case Rook => 4
    case Queen => 5
    case King => 6
  }

  lemma RoleNumberInjective(a: Role, b: Role)
    requires RoleNumber(a) == RoleNumber(b)
    ensures a == b
  {
  }

  /** A square, A1 = 0, B1 = 1, ..., H8 = 63: file in the low three bits,
      rank in the high three. */
  type Square = s: int | 0 <= s < 64

  /** The same file on the mirrored rank (A1 <-> A8). */
  function FlipVertical(sq: Square): (r: Square)
    ensures r % 8 == sq % 8
    ensures r / 8 == 7 - sq / 8
  {
    56 - 8 * (sq / 8) + sq % 8
  }

  lemma FlipVerticalInvolution(sq: Square)
    ensures FlipVertical(FlipVertical(sq)) == sq
  {
  }
}
