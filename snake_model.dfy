/** The snake as a value: its body parts and move counter, the
    follow-the-leader shift, the four moves and a run of moves. The class
    `SnakeObjects.Snake` is proved against these definitions. */
module SnakeModel {
  import opened Directions

  /** A `SnakeBodyPart`: its ID, its position on the grid, and whether it is
      the head. Only the position ever changes. */
  datatype BodyPart = BodyPart(id: int, x: int, y: int, isHead: bool)

  datatype Cell = Cell(x: int, y: int)

  function CellOf(p: BodyPart): Cell
  {
    Cell(p.x, p.y)
  }

  /** The cell one unit away in direction d: right and left change x by +1
      and -1, up and down change y by +1 and -1. */
  function Step(c: Cell, d: Direction): (r: Cell)
    ensures r != c
    ensures r.y == c.y <==> (d == Right || d == Left)
    ensures r.x == c.x <==> (d == Up || d == Down)
  {
    match d
    case Right => Cell(c.x + 1, c.y)
    case Left => Cell(c.x - 1, c.y)
    case Up => Cell(c.x, c.y + 1)
    case Down => Cell(c.x, c.y - 1)
  }

  function Abs(n: int): nat
  {
    if n < 0 then -n else n
  }

  /** Manhattan distance between two cells. */
  function Distance(a: Cell, b: Cell): nat
  {
    Abs(a.x - b.x) + Abs(a.y - b.y)
  }

  /** A step and the opposite step cancel; a step goes exactly one unit. */
  lemma StepOpposite(c: Cell, d: Direction)
    ensures Step(Step(c, d), Opposite(d)) == c
    ensures Distance(Step(c, d), c) == 1
  {
  }

  /** The state of a `Snake`: its parts, head first, and `num_moves`. */
  datatype SnakeState = SnakeState(body: seq<BodyPart>, numMoves: nat)

  /** Part i carries ID i, and the head is part 0 and no other. */
  predicate WellFormed(body: seq<BodyPart>)
  {
    |body| >= 1 &&
    forall i :: 0 <= i < |body| ==> body[i].id == i && body[i].isHead == (i == 0)
  }

  /** Consecutive parts are one unit apart. */
  predicate Connected(body: seq<BodyPart>)
  {
    forall i :: 1 <= i < |body| ==> Distance(CellOf(body[i - 1]), CellOf(body[i])) == 1
  }

  /** How many parts a snake built with `snake_length` has: the head is
      always there, then one part for each i in range(1, snake_length). */
  function PartCount(snakeLength: int): nat
  {
    if snakeLength < 1 then 1 else snakeLength
  }

  // ----- Construction -----

  /** `__initialise_snake_body`: the head at (0,0), then part i appended at
      (0,-i) for i from 1 while i < snakeLength. */
  function InitialBody(snakeLength: int): (r: seq<BodyPart>)
    ensures |r| == PartCount(snakeLength)
    ensures r[0] == BodyPart(0, 0, 0, true)
    decreases snakeLength
  {
    if snakeLength <= 1 then [BodyPart(0, 0, 0, true)]
    else InitialBody(snakeLength - 1) + [BodyPart(snakeLength - 1, 0, -(snakeLength - 1), false)]
  }

  /** A freshly constructed snake: its initial body and no moves. Its body
      is well formed and its parts are one unit apart. */
  function Initial(snakeLength: int): (r: SnakeState)
    ensures WellFormed(r.body) && Connected(r.body)
  {
    InitialWellFormed(snakeLength);
    SnakeState(InitialBody(snakeLength), 0)
  }

  /** The initial body has max(1, snakeLength) parts; part i has ID i, is
      the head exactly when i is 0, and sits at (0,-i). */
  lemma {:induction false} InitialLayout(snakeLength: int)
    ensures |InitialBody(snakeLength)| == PartCount(snakeLength)
    ensures forall i :: 0 <= i < |InitialBody(snakeLength)| ==>
      InitialBody(snakeLength)[i] == BodyPart(i, 0, -i, i == 0)
  {
    if snakeLength > 1 {
      InitialLayout(snakeLength - 1);
    }
  }

  /** The initial body is well formed and its parts are one unit apart. */
  lemma InitialWellFormed(snakeLength: int)
    ensures WellFormed(InitialBody(snakeLength))
    ensures Connected(InitialBody(snakeLength))
  {
    InitialLayout(snakeLength);
  }

  // ----- The shift of `update_body_positions` -----

  /** Part j with the position of part j-1 copied into it. */
  function Follower(body: seq<BodyPart>, j: nat): BodyPart
    requires 1 <= j < |body|
  {
    body[j].(x := body[j - 1].x, y := body[j - 1].y)
  }

  /** The loop of `update_body_positions` at index i, going down to 1: part i
      takes the position part i-1 holds now, then the loop goes on at i-1. */
  function ShiftFrom(body: seq<BodyPart>, i: nat): (r: seq<BodyPart>)
    requires i < |body|
    ensures |r| == |body|
    decreases i
  {
    if i == 0 then body
    else ShiftFrom(body[i := Follower(body, i)], i - 1)
  }

  /** The whole loop, from the tail index down to 1. */
  function Shift(body: seq<BodyPart>): (r: seq<BodyPart>)
    ensures |r| == |body|
  {
    if |body| == 0 then body else ShiftFrom(body, |body| - 1)
  }

  /** Part j once the loop has run from index i down to 1. */
  function ShiftedPart(body: seq<BodyPart>, i: nat, j: nat): BodyPart
    requires j < |body|
  {
    if 1 <= j <= i then Follower(body, j) else body[j]
  }

  /** Running the loop from index i down to 1 gives each part j in 1..i the
      position part j-1 had when the loop reached i, and leaves every other
      part as it was. Each part reads its predecessor before the
      predecessor is overwritten, because the index descends. */
  lemma {:induction false} ShiftFromSpec(body: seq<BodyPart>, i: nat)
    requires i < |body|
    decreases i
    ensures forall j :: 0 <= j < |body| ==> ShiftFrom(body, i)[j] == ShiftedPart(body, i, j)
  {
    if i > 0 {
      var next := body[i := Follower(body, i)];
      ShiftFromSpec(next, i - 1);
      assert ShiftFrom(body, i) == ShiftFrom(next, i - 1);
      forall j | 0 <= j < |body|
        ensures ShiftFrom(body, i)[j] == ShiftedPart(body, i, j)
      {
        assert ShiftFrom(next, i - 1)[j] == ShiftedPart(next, i - 1, j);
      }
    }
  }

  /** After the shift, every part keeps its ID and head flag, the head keeps
      its position, and every other part holds its predecessor's old
      position. */
  lemma ShiftSpec(body: seq<BodyPart>)
    ensures forall j :: 0 <= j < |body| ==>
      Shift(body)[j].id == body[j].id && Shift(body)[j].isHead == body[j].isHead
    ensures |body| > 0 ==> Shift(body)[0] == body[0]
    ensures forall j :: 1 <= j < |body| ==> CellOf(Shift(body)[j]) == CellOf(body[j - 1])
  {
    if |body| > 0 {
      ShiftFromSpec(body, |body| - 1);
    }
  }

  // ----- The four moves -----

  /** `move_right`, `move_left`, `move_up`, `move_down`: shift the body,
      count the move, then move the head one unit. */
  function Move(st: SnakeState, d: Direction): (r: SnakeState)
    requires |st.body| >= 1
    ensures |r.body| == |st.body|
  {
    var shifted := Shift(st.body);
    var head := Step(CellOf(shifted[0]), d);
    SnakeState(shifted[0 := shifted[0].(x := head.x, y := head.y)], st.numMoves + 1)
  }

  /** A move counts one, keeps every ID and head flag, moves the head by one
      unit in its direction, and puts every other part where its
      predecessor was before the move. */
  lemma MoveSpec(st: SnakeState, d: Direction)
    requires |st.body| >= 1
    ensures Move(st, d).numMoves == st.numMoves + 1
    ensures CellOf(Move(st, d).body[0]) == Step(CellOf(st.body[0]), d)
    ensures forall j :: 1 <= j < |st.body| ==> CellOf(Move(st, d).body[j]) == CellOf(st.body[j - 1])
    ensures forall j :: 0 <= j < |st.body| ==>
      Move(st, d).body[j].id == st.body[j].id && Move(st, d).body[j].isHead == st.body[j].isHead
  {
    ShiftSpec(st.body);
  }

  /** A move keeps a body well formed and keeps its parts one unit apart. */
  lemma MoveInvariants(st: SnakeState, d: Direction)
    requires |st.body| >= 1
    ensures WellFormed(st.body) ==> WellFormed(Move(st, d).body)
    ensures Connected(st.body) ==> Connected(Move(st, d).body)
  {
    MoveSpec(st, d);
    var b := Move(st, d).body;
    if Connected(st.body) {
      forall j | 1 <= j < |b|
        ensures Distance(CellOf(b[j - 1]), CellOf(b[j])) == 1
      {
        if j == 1 {
          StepOpposite(CellOf(st.body[0]), d);
        } else {
          assert CellOf(b[j - 1]) == CellOf(st.body[j - 2]);
        }
      }
    }
  }

  /** A move followed by the opposite move puts the head back on its cell
      and counts two moves, but part 1 is left on the cell the head visited
      in between: the pair undoes the head only. */
  lemma MoveThenOpposite(st: SnakeState, d: Direction)
    requires |st.body| >= 1
    ensures CellOf(Move(Move(st, d), Opposite(d)).body[0]) == CellOf(st.body[0])
    ensures Move(Move(st, d), Opposite(d)).numMoves == st.numMoves + 2
    ensures |st.body| >= 2 ==> CellOf(Move(Move(st, d), Opposite(d)).body[1]) == Step(CellOf(st.body[0]), d)
  {
    MoveSpec(st, d);
    MoveSpec(Move(st, d), Opposite(d));
    StepOpposite(CellOf(st.body[0]), d);
  }

  /** Right then left does not restore the body of a two-part snake. */
  lemma RightLeftMovesBody()
    ensures Move(Move(Initial(2), Right), Left).body != InitialBody(2)
  {
    var s0 := SnakeState([BodyPart(0, 0, 0, true), BodyPart(1, 0, -1, false)], 0);
    assert Initial(2) == s0 by {
      InitialLayout(2);
    }
    assert CellOf(Move(Move(s0, Right), Left).body[1]) == Cell(1, 0) by {
      MoveThenOpposite(s0, Right);
    }
  }

  // ----- Runs of moves -----

  /** The moves ds applied one after another, first to last. */
  function Run(st: SnakeState, ds: seq<Direction>): (r: SnakeState)
    requires |st.body| >= 1
    ensures |r.body| == |st.body|
  {
    if ds == [] then st else Move(Run(st, ds[..|ds| - 1]), ds[|ds| - 1])
  }

  /** The cells the head visits when it starts on h and takes the steps ds. */
  function HeadPath(h: Cell, ds: seq<Direction>): (path: seq<Cell>)
    ensures |path| == |ds| + 1
    ensures path[0] == h
  {
    if ds == [] then [h]
    else
      var p := HeadPath(h, ds[..|ds| - 1]);
      p + [Step(p[|p| - 1], ds[|ds| - 1])]
  }

  /** A run counts one move per direction and keeps the body well formed
      and its parts one unit apart. */
  lemma {:induction false} RunInvariants(st: SnakeState, ds: seq<Direction>)
    requires |st.body| >= 1
    ensures Run(st, ds).numMoves == st.numMoves + |ds|
    ensures WellFormed(st.body) ==> WellFormed(Run(st, ds).body)
    ensures Connected(st.body) ==> Connected(Run(st, ds).body)
  {
    if ds != [] {
      var init := ds[..|ds| - 1];
      RunInvariants(st, init);
      MoveSpec(Run(st, init), ds[|ds| - 1]);
      MoveInvariants(Run(st, init), ds[|ds| - 1]);
    }
  }

  /** The body is the trail of the head: after a run of m moves, part j
      stands where the head stood m - j moves ago when j <= m, and where
      part j - m stood before the run otherwise. */
  lemma {:induction false} RunTrail(st: SnakeState, ds: seq<Direction>)
    requires |st.body| >= 1
    ensures forall j :: 0 <= j < |st.body| ==>
      CellOf(Run(st, ds).body[j]) ==
        if j <= |ds| then HeadPath(CellOf(st.body[0]), ds)[|ds| - j] else CellOf(st.body[j - |ds|])
  {
    if ds != [] {
      var m := |ds| - 1;
      var init, d := ds[..m], ds[m];
      var h := CellOf(st.body[0]);
      RunTrail(st, init);
      MoveSpec(Run(st, init), d);
      assert Run(st, ds) == Move(Run(st, init), d);
      assert HeadPath(h, ds) == HeadPath(h, init) + [Step(HeadPath(h, init)[m], d)];
      forall j | 0 <= j < |st.body|
        ensures CellOf(Run(st, ds).body[j]) ==
          if j <= |ds| then HeadPath(h, ds)[|ds| - j] else CellOf(st.body[j - |ds|])
      {
        if j > 0 {
          assert CellOf(Run(st, ds).body[j]) == CellOf(Run(st, init).body[j - 1]);
        }
      }
    }
  }

  /** The example run of a three-part snake: right gives (1,0), (0,0),
      (0,-1); right then up gives (1,1), (1,0), (0,0). */
  lemma ThreePartExample()
    ensures Run(Initial(3), [Right]).body ==
      [BodyPart(0, 1, 0, true), BodyPart(1, 0, 0, false), BodyPart(2, 0, -1, false)]
    ensures Run(Initial(3), [Right, Up]).body ==
      [BodyPart(0, 1, 1, true), BodyPart(1, 1, 0, false), BodyPart(2, 0, 0, false)]
    ensures Run(Initial(3), [Right, Up]).numMoves == 2
  {
    var s0 := SnakeState([BodyPart(0, 0, 0, true), BodyPart(1, 0, -1, false), BodyPart(2, 0, -2, false)], 0);
    var s1 := SnakeState([BodyPart(0, 1, 0, true), BodyPart(1, 0, 0, false), BodyPart(2, 0, -1, false)], 1);
    var s2 := SnakeState([BodyPart(0, 1, 1, true), BodyPart(1, 1, 0, false), BodyPart(2, 0, 0, false)], 2);
    assert Initial(3) == s0 by {
      InitialLayout(3);
    }
    MoveExample(s0, Right, s1);
    MoveExample(s1, Up, s2);
    assert [Right, Up][..1] == [Right];
  }

  /** A move of a three-part snake, checked part by part against MoveSpec. */
  lemma MoveExample(st: SnakeState, d: Direction, next: SnakeState)
    requires |st.body| == 3 && |next.body| == 3
    requires next.numMoves == st.numMoves + 1
    requires CellOf(next.body[0]) == Step(CellOf(st.body[0]), d)
    requires CellOf(next.body[1]) == CellOf(st.body[0]) && CellOf(next.body[2]) == CellOf(st.body[1])
    requires forall j :: 0 <= j < 3 ==> next.body[j].id == st.body[j].id && next.body[j].isHead == st.body[j].isHead
    ensures Move(st, d) == next
  {
    MoveSpec(st, d);
    var m := Move(st, d);
    assert m.body[0] == next.body[0] && m.body[1] == next.body[1] && m.body[2] == next.body[2];
  }

  // ----- Token sequences of `move_combo` -----

  /** The index of the first token `move_combo` does not recognise, or the
      length of the sequence when it recognises all of them. */
  function FirstInvalid(tokens: seq<string>): (k: nat)
    ensures k <= |tokens|
    ensures forall j :: 0 <= j < k ==> ParseToken(tokens[j]).Some?
    ensures k < |tokens| ==> ParseToken(tokens[k]).None?
  {
    if tokens == [] || ParseToken(tokens[0]).None? then 0
    else 1 + FirstInvalid(tokens[1..])
  }

  /** The directions a sequence of recognised tokens names. */
  function Parse(tokens: seq<string>): (ds: seq<Direction>)
    requires forall j :: 0 <= j < |tokens| ==> ParseToken(tokens[j]).Some?
    ensures |ds| == |tokens|
    ensures forall j :: 0 <= j < |ds| ==> Token(ds[j]) == tokens[j]
  {
    if tokens == [] then []
    else
      var d := ParseToken(tokens[0]).value;
      TokenRoundTrip(tokens[0], d);
      [d] + Parse(tokens[1..])
  }

  /** Parsing one more recognised token appends its direction; the moves of
      `move_combo` are thus the run of the tokens read so far. */
  lemma ParseSnoc(tokens: seq<string>, i: nat)
    requires i < |tokens|
    requires forall j :: 0 <= j <= i ==> ParseToken(tokens[j]).Some?
    ensures Parse(tokens[..i + 1]) == Parse(tokens[..i]) + [ParseToken(tokens[i]).value]
  {
    var a, b := Parse(tokens[..i + 1]), Parse(tokens[..i]) + [ParseToken(tokens[i]).value];
    forall j | 0 <= j <= i
      ensures a[j] == b[j]
    {
      TokenRoundTrip(tokens[j], a[j]);
      TokenRoundTrip(tokens[j], b[j]);
    }
  }

  /** One more recognised token extends the run by its move. */
  lemma RunStep(st: SnakeState, tokens: seq<string>, i: nat)
    requires |st.body| >= 1
    requires i < |tokens|
    requires forall j :: 0 <= j <= i ==> ParseToken(tokens[j]).Some?
    ensures Run(st, Parse(tokens[..i + 1])) == Move(Run(st, Parse(tokens[..i])), ParseToken(tokens[i]).value)
  {
    ParseSnoc(tokens, i);
    var ds := Parse(tokens[..i]) + [ParseToken(tokens[i]).value];
    assert ds[..|ds| - 1] == Parse(tokens[..i]);
  }

  /** `move_combo` stopped at token i: it is the first token not recognised,
      and the i moves before it were counted. */
  lemma ComboStopsAt(st: SnakeState, tokens: seq<string>, i: nat)
    requires |st.body| >= 1
    requires i < |tokens|
    requires forall j :: 0 <= j < i ==> ParseToken(tokens[j]).Some?
    requires ParseToken(tokens[i]).None?
    ensures FirstInvalid(tokens) == i
    ensures Run(st, Parse(tokens[..i])).numMoves == st.numMoves + i
  {
    assert tokens == tokens[..i] + [tokens[i]] + tokens[i + 1..];
    FirstInvalidAt(tokens[..i], tokens[i], tokens[i + 1..]);
    RunInvariants(st, Parse(tokens[..i]));
  }

  /** `move_combo` got through all tokens: none is invalid and one move was
      counted per token. */
  lemma ComboCompletes(st: SnakeState, tokens: seq<string>)
    requires |st.body| >= 1
    requires forall j :: 0 <= j < |tokens| ==> ParseToken(tokens[j]).Some?
    ensures FirstInvalid(tokens) == |tokens|
    ensures Run(st, Parse(tokens[..|tokens|])).numMoves == st.numMoves + |tokens|
  {
    assert tokens[..|tokens|] == tokens;
    RunInvariants(st, Parse(tokens));
  }

  /** A token that is not recognised stops the scan there: what follows it is
      never looked at. */
  lemma FirstInvalidAt(pre: seq<string>, bad: string, post: seq<string>)
    requires forall j :: 0 <= j < |pre| ==> ParseToken(pre[j]).Some?
    requires ParseToken(bad).None?
    ensures FirstInvalid(pre + [bad] + post) == |pre|
  {
    assert (pre + [bad] + post)[|pre|] == bad;
  }
}
