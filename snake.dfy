/** The `Snake` class: a fixed array of body parts, head first, and a move
    counter, both updated in place by its methods. */
module SnakeObjects {
  import opened Directions
  import opened SnakeModel

  /** How `move_combo` ends: every token applied, or an exception on the
      first token that is not a move, carrying that token. */
  datatype Outcome = Pass | InvalidMove(token: string)

  class Snake {
    const snakeLength: int
    var numMoves: nat
    const body: array<BodyPart>

    /** The body never changes length after construction, and part i keeps
        ID i and is the head exactly when i is 0. */
    ghost predicate Valid()
      reads this, body
    {
      body.Length == PartCount(snakeLength) && WellFormed(body[..])
    }

    /** The snake's current parts and counter, as a value. */
    function State(): SnakeState
      reads this, body
    {
      SnakeState(body[..], numMoves)
    }

    /** `__init__` with `__initialise_snake_body`: a vertical line of
        max(1, snakeLength) parts with the head at (0,0), and no moves. */
    constructor (snakeLength: int)
      ensures Valid() && fresh(body)
      ensures this.snakeLength == snakeLength
      ensures State() == Initial(snakeLength)
    {
      var n := PartCount(snakeLength);
      var parts := new BodyPart[n];
      parts[0] := BodyPart(0, 0, 0, true);
      for i := 1 to n
        invariant parts[..i] == InitialBody(i)
      {
        parts[i] := BodyPart(i, 0, -i, false);
        assert parts[..i + 1] == parts[..i] + [parts[i]];
      }
      assert parts[..] == parts[..n];
      InitialLayout(snakeLength);
      InitialWellFormed(snakeLength);
      this.snakeLength := snakeLength;
      numMoves := 0;
      body := parts;
    }

    /** `update_body_positions`: walking from the tail to the head, each
        part i >= 1 takes the position part i-1 held before the call; the
        head, every ID and head flag, and the counter are unchanged. */
    method UpdateBodyPositions()
      requires Valid()
      modifies body
      ensures Valid()
      ensures body[..] == Shift(old(body[..]))
      ensures body[0] == old(body[0])
      ensures forall j :: 1 <= j < body.Length ==> CellOf(body[j]) == old(CellOf(body[j - 1]))
    {
      ghost var before := body[..];
      var i := body.Length - 1;
      while i > 0
        invariant 0 <= i < body.Length
        invariant ShiftFrom(body[..], i) == Shift(before)
      {
        body[i] := body[i].(x := body[i - 1].x, y := body[i - 1].y);
        i := i - 1;
      }
      ShiftSpec(before);
    }

    /** `move_right`: shift the body, count the move, head one unit right. */
    method MoveRight()
      requires Valid()
      modifies this, body
      ensures Valid()
      ensures State() == Move(old(State()), Right)
      ensures numMoves == old(numMoves) + 1
      ensures CellOf(body[0]) == Cell(old(body[0].x) + 1, old(body[0].y))
    {
      UpdateBodyPositions();
      numMoves := numMoves + 1;
      body[0] := body[0].(x := body[0].x + 1);
      MoveInvariants(old(State()), Right);
    }

    /** `move_left`: shift the body, count the move, head one unit left. */
    method MoveLeft()
      requires Valid()
      modifies this, body
      ensures Valid()
      ensures State() == Move(old(State()), Left)
      ensures numMoves == old(numMoves) + 1
      ensures CellOf(body[0]) == Cell(old(body[0].x) - 1, old(body[0].y))
    {
      UpdateBodyPositions();
      numMoves := numMoves + 1;
      body[0] := body[0].(x := body[0].x - 1);
      MoveInvariants(old(State()), Left);
    }

    /** `move_up`: shift the body, count the move, head one unit up. */
    method MoveUp()
      requires Valid()
      modifies this, body
      ensures Valid()
      ensures State() == Move(old(State()), Up)
      ensures numMoves == old(numMoves) + 1
      ensures CellOf(body[0]) == Cell(old(body[0].x), old(body[0].y) + 1)
    {
      UpdateBodyPositions();
      numMoves := numMoves + 1;
      body[0] := body[0].(y := body[0].y + 1);
      MoveInvariants(old(State()), Up);
    }

    /** `move_down`: shift the body, count the move, head one unit down. */
    method MoveDown()
      requires Valid()
      modifies this, body
      ensures Valid()
      ensures State() == Move(old(State()), Down)
      ensures numMoves == old(numMoves) + 1
      ensures CellOf(body[0]) == Cell(old(body[0].x), old(body[0].y) - 1)
    {
      UpdateBodyPositions();
      numMoves := numMoves + 1;
      body[0] := body[0].(y := body[0].y - 1);
      MoveInvariants(old(State()), Down);
    }

    /** `get_head`: the head part, which is part 0 and carries ID 0. */
    method GetHead() returns (head: BodyPart)
      requires Valid()
      ensures head == body[0]
      ensures head.isHead && head.id == 0
    {
      head := body[0];
    }

    /** `move_combo`: applies the tokens in order until the first one that
        is not a move. The moves of the tokens before it stay applied, that
        token and everything after it change nothing, and the counter grows
        by the number of moves applied. */
    method MoveCombo(tokens: seq<string>) returns (outcome: Outcome)
      requires Valid()
      modifies this, body
      ensures Valid()
      ensures FirstInvalid(tokens) <= |tokens|
      ensures State() == Run(old(State()), Parse(tokens[..FirstInvalid(tokens)]))
      ensures numMoves == old(numMoves) + FirstInvalid(tokens)
      ensures outcome ==
        if FirstInvalid(tokens) < |tokens| then InvalidMove(tokens[FirstInvalid(tokens)]) else Pass
    {
      ghost var st0 := State();
      for i := 0 to |tokens|
        invariant Valid()
        invariant forall j :: 0 <= j < i ==> ParseToken(tokens[j]).Some?
        invariant State() == Run(st0, Parse(tokens[..i]))
      {
        var move := tokens[i];
        if move == "right" {
          RunStep(st0, tokens, i);
          MoveRight();
        } else if move == "left" {
          RunStep(st0, tokens, i);
          MoveLeft();
        } else if move == "up" {
          RunStep(st0, tokens, i);
          MoveUp();
        } else if move == "down" {
          RunStep(st0, tokens, i);
          MoveDown();
        } else {
          ComboStopsAt(st0, tokens, i);
          return InvalidMove(move);
        }
      }
      ComboCompletes(st0, tokens);
      return Pass;
    }
  }
}
