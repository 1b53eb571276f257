/** `convert_moves_to_string`: integer move codes to direction tokens. */
module MoveConversion {
  import opened Directions

  /** The converted tokens, or the first code that is not a move (the
      source raises an exception carrying it). */
  datatype Result<T> = Ok(value: T) | InvalidCode(code: int)

  /** Fills a list of the input's length position by position with the token
      of each code, and stops at the first code outside 0..3. Every token it
      produces is accepted by `move_combo` and names the code's direction. */
  method ConvertMovesToString(moves: seq<int>) returns (r: Result<seq<string>>)
    ensures r.Ok? <==> forall i :: 0 <= i < |moves| ==> 0 <= moves[i] <= 3
    ensures r.Ok? ==> |r.value| == |moves|
    ensures r.Ok? ==> forall i :: 0 <= i < |moves| ==>
      FromCode(moves[i]).Some? && r.value[i] == Token(FromCode(moves[i]).value)
    ensures r.Ok? ==> forall i :: 0 <= i < |moves| ==> ParseToken(r.value[i]) == FromCode(moves[i])
    ensures r.InvalidCode? ==>
      exists k :: 0 <= k < |moves| && r.code == moves[k] && !(0 <= moves[k] <= 3) &&
        forall j :: 0 <= j < k ==> 0 <= moves[j] <= 3
  {
    var strMove := new string[|moves|];
    for i := 0 to |moves|
      invariant forall j :: 0 <= j < i ==> 0 <= moves[j] <= 3
      invariant forall j :: 0 <= j < i ==> strMove[j] == Token(FromCode(moves[j]).value)
    {
      var move := moves[i];
      if move == 0 {
        strMove[i] := "right";
      } else if move == 1 {
        strMove[i] := "left";
      } else if move == 2 {
        strMove[i] := "up";
      } else if move == 3 {
        strMove[i] := "down";
      } else {
        return InvalidCode(move);
      }
    }
    forall i | 0 <= i < |moves|
      ensures ParseToken(strMove[i]) == FromCode(moves[i])
    {
      TokenRoundTrip(strMove[i], FromCode(moves[i]).value);
    }
    return Ok(strMove[..]);
  }
}
