/** Texts as lists of pieces: single characters, layout, string literals and comments. */
module JsonPieces {

  /** A literal is given by its units: a character, or a backslash with the character behind it.
      A line comment is ended by a line feed or by the end of the text. The code also takes the
      three characters of ShortComment for a comment, its star being the one that ends it. */
  datatype Piece =
    | Single(c: char)
    | Slash
    | Blank(c: char)
    | Literal(units: seq<string>)
    | LineComment(body: string, ended: bool)
    | BlockComment(body: string)
    | ShortComment

  predicate IsUnit(u: string) {
    (|u| == 1 && u[0] != '"' && u[0] != '\\') || (|u| == 2 && u[0] == '\\')
  }

  function Joined(us: seq<string>): string {
    if us == [] then "" else us[0] + Joined(us[1..])
  }

  /** Nothing in the text ends a comment. */
  predicate NoEnd(s: string) {
    forall k :: 0 <= k < |s| - 1 && s[k] == '*' ==> s[k + 1] != '/'
  }

  predicate IsPiece(p: Piece) {
    match p
    case Single(c) => c != ' ' && c != '\t' && c != '\r' && c != '\n' && c != '/' && c != '"'
    case Slash => true
    case Blank(c) => c == ' ' || c == '\t' || c == '\r' || c == '\n'
    case Literal(us) => forall u :: u in us ==> IsUnit(u)
    case LineComment(b, _) => '\n' !in b
    case BlockComment(b) => NoEnd("*" + b)
    case ShortComment => true
  }

  function PieceText(p: Piece): string {
    match p
    case Single(c) => [c]
    case Slash => "/"
    case Blank(c) => [c]
    case Literal(us) => "\"" + Joined(us) + "\""
    case LineComment(b, ended) => "//" + b + (if ended then "\n" else "")
    case BlockComment(b) => "/*" + b + "*/"
    case ShortComment => "/*/"
  }

  /** What minifying leaves of a piece: layout and comments go, the rest stays as it is. */
  function PieceKept(p: Piece): string {
    match p
    case Single(c) => [c]
    case Slash => "/"
    case Literal(us) => "\"" + Joined(us) + "\""
    case _ => ""
  }

  function TextOf(ps: seq<Piece>): string {
    if ps == [] then "" else PieceText(ps[0]) + TextOf(ps[1..])
  }

  function KeptOf(ps: seq<Piece>): string {
    if ps == [] then "" else PieceKept(ps[0]) + KeptOf(ps[1..])
  }

  /** A slash on its own opens no comment, and only the end of the text saves a line feed. */
  predicate IsPieces(ps: seq<Piece>) {
    ps == [] || (
      && IsPiece(ps[0]) && IsPieces(ps[1..])
      && (ps[0].Slash? ==> TextOf(ps[1..]) == "" || (TextOf(ps[1..])[0] != '/' && TextOf(ps[1..])[0] != '*'))
      && (ps[0].LineComment? && !ps[0].ended ==> TextOf(ps[1..]) == ""))
  }
}
