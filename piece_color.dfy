/** The contents of one square: a piece of either side, or nothing. */
module PieceColors {

  datatype PieceColor = White | Black | Empty

  /** The other side; an empty square stays empty. */
  function Opposite(c: PieceColor): (r: PieceColor)
    ensures c != Empty ==> r != Empty && r != c
    ensures c == Empty <==> r == Empty
  {
    match c
    case White => Black
    case Black => White
    case Empty => Empty
  }

  lemma OppositeTwice(c: PieceColor)
    ensures Opposite(Opposite(c)) == c
  {
  }
}
