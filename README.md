# Snake chain on an integer grid

A Dafny model of the `Snake` class of the Python snake tutorial
(`classes_snake.py`). A snake is a chain of body parts on an integer grid:
part 0 is the head, and each later part follows the part ahead of it. Every
move shifts the body one step along the chain, counts the move, and then
moves the head one unit. The file also holds `convert_moves_to_string`,
which turns integer move codes into the string tokens that `move_combo`
dispatches on.

Files:

- `directions.dfy` (module `Directions`): the four directions, the tokens
  `"right"`, `"left"`, `"up"`, `"down"`, and the integer codes 0 to 3.
- `move_conversion.dfy` (module `MoveConversion`): `convert_moves_to_string`
  as a method that fills a preallocated array in a loop.
- `snake_model.dfy` (module `SnakeModel`): the snake as a value. A
  `SnakeBodyPart` becomes the datatype `BodyPart(id, x, y, isHead)`. The
  module defines the initial layout, the shift (`ShiftFrom` follows the
  descending loop of `update_body_positions` index by index), a move, and a
  run of moves. It also holds the lemmas about them.
- `snake.dfy` (module `SnakeObjects`): the class `Snake`. It has a constant
  array of parts and a `numMoves` counter, both updated in place. Each
  method is proved against the value model through `State()`.

Two behaviours of the code that a reader might not expect:

- A move followed by the opposite move does not restore the whole snake. It
  restores the head only; part 1 ends on the cell the head visited in
  between (`MoveThenOpposite`, `RightLeftMovesBody`).
- Construction with a length of 0 or less is not an error. The head is
  always appended, so such a snake has exactly one part (`PartCount`,
  `InitialLayout`).

The main properties proved:

- The body is the trail of the head. After m moves, part j sits where the
  head was m - j moves earlier, or where part j - m was before the moves
  when j > m (`RunTrail`).
- Consecutive parts stay exactly one unit apart, as they start
  (`InitialWellFormed`, `MoveInvariants`, `RunInvariants`).
- `move_combo` applies the moves of the recognised prefix of its tokens. It
  stops at the first unrecognised token and reports it (`MoveCombo`).

## Model

| member | source | states |
|---|---|---|
| `Directions.ParseToken` | classes_snake.py:128-137 | a token is recognised exactly when it is one of "right", "left", "up", "down" |
| `Directions.Token` | classes_snake.py:128-134 | the token of each direction ("right", "left", "up", "down", also the strings written at lines 183-189) is recognised as that direction |
| `Directions.TokenRoundTrip` | classes_snake.py:128-135 | a token parses to direction d if and only if it is d's token |
| `Directions.Code` | classes_snake.py:182-188 | the code of each direction lies in 0..3; `FromCode` maps it back to that direction |
| `Directions.FromCode` | classes_snake.py:182-191 | a code names a direction exactly when it is in 0..3, and that direction's code is the input |
| `MoveConversion.ConvertMovesToString` | classes_snake.py:174-193 | succeeds exactly when every code is in 0..3; then the output has the input's length and position i holds the token of code i (0 right, 1 left, 2 up, 3 down), which `move_combo` parses back to that code's direction; otherwise it fails with the first code outside 0..3 |
| `SnakeModel.InitialBody` | classes_snake.py:19-29 | the initial body has max(1, snake_length) parts and its part 0 is the head with ID 0 at (0,0); see `InitialLayout` for part i = BodyPart(i, 0, -i, i == 0) |
| `SnakeModel.Initial` | classes_snake.py:14-17 | a new snake's state is the initial body with no moves, and that body is well formed and its parts one unit apart |
| `SnakeModel.InitialLayout` | classes_snake.py:19-29 | the initial body has max(1, snake_length) parts, and part i is BodyPart(i, 0, -i, i == 0) |
| `SnakeModel.InitialWellFormed` | classes_snake.py:19-29 | the initial body has ID i at index i and its only head at index 0, and its parts are one unit apart |
| `SnakeModel.ShiftFrom` | classes_snake.py:45-47 | the remaining loop from index i down to 1 keeps the body's length |
| `SnakeModel.ShiftFromSpec` | classes_snake.py:45-47 | after the loop runs from i down to 1, each part j in 1..i has the position part j-1 had before, and every other part is unchanged |
| `SnakeModel.Shift` | classes_snake.py:40-47 | the shift keeps the body's length |
| `SnakeModel.ShiftSpec` | classes_snake.py:40-47 | after the shift, IDs and head flags are unchanged, the head is unchanged, and part j >= 1 holds part j-1's old position |
| `SnakeModel.Move` | classes_snake.py:49-83 | a move keeps the body's length |
| `SnakeModel.MoveSpec` | classes_snake.py:49-83 | a move counts one, moves the head one unit in its direction, puts part j >= 1 on part j-1's old cell, and keeps every ID and head flag |
| `SnakeModel.Step` | classes_snake.py:56-83 | the head update of each move (xpos += 1, xpos -= 1, ypos += 1, ypos -= 1) changes the cell; right and left change only x, up and down change only y |
| `SnakeModel.StepOpposite` | classes_snake.py:49-83 | a step and the opposite step cancel, and a step moves exactly one unit |
| `SnakeModel.MoveInvariants` | classes_snake.py:49-83 | a move keeps the body well formed and its parts one unit apart |
| `SnakeModel.MoveThenOpposite` | classes_snake.py:49-83 | a move then the opposite move returns the head to its cell and counts two, but leaves part 1 on the cell the head visited |
| `SnakeModel.RightLeftMovesBody` | classes_snake.py:49-65 | right then left does not restore the body of a two-part snake |
| `SnakeModel.Run` | classes_snake.py:125-135 | a run of moves keeps the body's length |
| `SnakeModel.HeadPath` | classes_snake.py:49-83 | the head's path has one cell more than there are moves and starts on the head's cell |
| `SnakeModel.RunInvariants` | classes_snake.py:125-135 | a run of m moves raises the counter by m and keeps the body well formed and its parts one unit apart |
| `SnakeModel.RunTrail` | classes_snake.py:40-83 | after m moves, part j is where the head was m - j moves ago if j <= m, else where part j - m was before |
| `SnakeModel.ThreePartExample` | classes_snake.py:14-83 | a three-part snake moved right is at (1,0),(0,0),(0,-1); moved right then up it is at (1,1),(1,0),(0,0) with two moves counted |
| `SnakeModel.MoveExample` | classes_snake.py:49-83 | a three-part state equals the move of another when the counter, the head's step, the followers' cells, the IDs and the head flags agree with the move |
| `SnakeModel.FirstInvalid` | classes_snake.py:125-137 | the result is the index of the first token that is not a move, or the length of the sequence when all tokens are moves |
| `SnakeModel.Parse` | classes_snake.py:128-135 | the directions of recognised tokens, one per token, whose tokens are the input |
| `SnakeModel.ParseSnoc` | classes_snake.py:125-135 | reading one more recognised token appends its direction |
| `SnakeModel.RunStep` | classes_snake.py:125-135 | one more recognised token extends the run by that token's move |
| `SnakeModel.FirstInvalidAt` | classes_snake.py:125-137 | an unrecognised token after recognised ones is the first invalid token, whatever follows it |
| `SnakeModel.ComboStopsAt` | classes_snake.py:136-137 | when token i is the first unrecognised one, the scan stops at i and i moves were counted |
| `SnakeModel.ComboCompletes` | classes_snake.py:125-135 | when every token is recognised, no token is invalid and one move was counted per token |
| `SnakeObjects.Snake.constructor` | classes_snake.py:14-29 | the new snake has the initial layout, no moves, and a fresh body array |
| `SnakeObjects.Snake.UpdateBodyPositions` | classes_snake.py:40-47 | the body becomes the shift of the old body: the head is unchanged and part j >= 1 holds part j-1's old position |
| `SnakeObjects.Snake.MoveRight` | classes_snake.py:49-56 | the new state is the right move of the old state: counter + 1, head x + 1 |
| `SnakeObjects.Snake.MoveLeft` | classes_snake.py:58-65 | the new state is the left move of the old state: counter + 1, head x - 1 |
| `SnakeObjects.Snake.MoveUp` | classes_snake.py:67-74 | the new state is the up move of the old state: counter + 1, head y + 1 |
| `SnakeObjects.Snake.MoveDown` | classes_snake.py:76-83 | the new state is the down move of the old state: counter + 1, head y - 1 |
| `SnakeObjects.Snake.GetHead` | classes_snake.py:85-90 | returns part 0, which is the head and has ID 0 |
| `SnakeObjects.Snake.MoveCombo` | classes_snake.py:120-137 | the new state is the run of the moves of the tokens before the first unrecognised one, and the counter grows by their number; it reports that token, or success when there is none |

## Left out

- `plot_snake_position` and the `plot_moves` branch of `move_combo`: grid rendering with numpy and matplotlib, and directory and file writes. `State()` exposes every part's position for such a renderer.
- The `tqdm` progress wrapper around the token loop of `move_combo`: it only decorates the iteration.
- `print_snake_info` and `print_info`: console output only.
- `create_random_moves`: it draws from `random.randint`. `ConvertMovesToString` and `MoveCombo` take arbitrary sequences instead.
- `main`: the driver script.
- `SnakeObjects.Snake.GetHead`: returns the head part as a value. In Python it returns a reference to the mutable part object, so a caller could move the head through it; that aliasing is not modelled.
- Body parts are values stored in the snake's array, not separate objects, so aliasing between parts is not modelled. The source never shares a part between snakes or slots, and only writes the positions of parts in place.
- The exception text ("Invalid move: ...") is not modelled. The error outcomes carry the offending token or code instead.
- Python's dynamic typing is not modelled. Tokens are strings and codes are integers, so, for example, `0.0` or `False` used as a code is outside the model.
