/** The four move directions of the snake, the string tokens that
    `Snake.move_combo` dispatches on, and the integer codes that
    `convert_moves_to_string` translates into those tokens. */
module Directions {

  datatype Direction = Right | Left | Up | Down

  datatype Option<T> = None | Some(value: T)

  /** The token `move_combo` recognises for each direction. */
  function Token(d: Direction): (s: string)
    ensures ParseToken(s) == Some(d)
  {
    match d
    case Right => "right"
    case Left => "left"
    case Up => "up"
    case Down => "down"
  }

  /** The if-chain of `move_combo`: the direction a token names, or None
      for a token on which it raises. */
  function ParseToken(s: string): (r: Option<Direction>)
    ensures r.Some? <==> (s == "right" || s == "left" || s == "up" || s == "down")
  {
    if s == "right" then Some(Right)
    else if s == "left" then Some(Left)
    else if s == "up" then Some(Up)
    else if s == "down" then Some(Down)
    else None
  }

  /** Token and ParseToken are inverse: a token is accepted exactly when it
      is the token of a direction, and then it names that direction. */
  lemma TokenRoundTrip(s: string, d: Direction)
    ensures ParseToken(s) == Some(d) <==> s == Token(d)
  {
  }

  /** The integer code of each direction in `convert_moves_to_string`. */
  function Code(d: Direction): (c: int)
    ensures 0 <= c <= 3
  {
    match d
    case Right => 0
    case Left => 1
    case Up => 2
    case Down => 3
  }

  /** The direction an integer code stands for: 0 right, 1 left, 2 up,
      3 down, and no direction for any other code. */
  function FromCode(c: int): (r: Option<Direction>)
    ensures r.Some? <==> 0 <= c <= 3
    ensures r.Some? ==> Code(r.value) == c
  {
    if c == 0 then Some(Right)
    else if c == 1 then Some(Left)
    else if c == 2 then Some(Up)
    else if c == 3 then Some(Down)
    else None
  }

  /** The opposite direction: right and left, up and down. */
  function Opposite(d: Direction): (o: Direction)
    ensures o != d
  {
    match d
    case Right => Left
    case Left => Right
    case Up => Down
    case Down => Up
  }
}
