/**
 * The rules of the two-player snake game (snake_2player_cip.py) on a grid of
 * `SIZE`-pixel cells. A snake is the list of its segments' top-left corners,
 * head last; each tick it picks a direction from the key presses, appends a
 * new head one cell further and never loses a segment. A game ends at the
 * first tick on which a snake leaves the field or runs into something.
 */
module Snake2Player {
  import opened Common

  const SIZE: int := 15
  const CANVAS_WIDTH: int := SIZE * 30
  const PLAY_HEIGHT: int := SIZE * 30

  /** The four directions a key map can name. */
  const DIRECTIONS: set<string> := {"L", "R", "U", "D"}

  const P1_KEY_MAP: map<string, string> :=
    map["w" := "U", "W" := "U", "a" := "L", "A" := "L", "s" := "D", "S" := "D", "d" := "R", "D" := "R"]

  const P2_KEY_MAP: map<string, string> :=
    map["ArrowLeft" := "L", "Left" := "L", "ArrowRight" := "R", "Right" := "R",
        "ArrowUp" := "U", "Up" := "U", "ArrowDown" := "D", "Down" := "D"]

  /** The top-left corner of a segment. */
  type Cell = (int, int)

  function Min(a: int, b: int): int
  {
    if a <= b then a else b
  }

  function Max(a: int, b: int): int
  {
    if a >= b then a else b
  }

  /** A key map sends keys to directions only. */
  predicate SteersOnly(keyMap: map<string, string>)
  {
    forall k :: k in keyMap ==> keyMap[k] in DIRECTIONS
  }

  lemma KeyMapsSteerOnly()
    ensures SteersOnly(P1_KEY_MAP) && SteersOnly(P2_KEY_MAP)
    ensures P1_KEY_MAP.Keys !! P2_KEY_MAP.Keys
  {
  }

  // ---------------------------------------------------------------------
  // One step
  // ---------------------------------------------------------------------

  /** `_get_new_location`: the head moved by one cell in `direction`, then `min(x, x + SIZE), min(y, y + SIZE)`. */
  function NewLocation(head: Cell, direction: string): (r: Cell)
    ensures r.0 == head.0 || r.1 == head.1
  {
    var x := if direction == "L" then head.0 - SIZE else if direction == "R" then head.0 + SIZE else head.0;
    var y := if direction == "L" || direction == "R" then head.1
             else if direction == "U" then head.1 - SIZE else if direction == "D" then head.1 + SIZE else head.1;
    (Min(x, x + SIZE), Min(y, y + SIZE))
  }

  /**
   * A step moves the head exactly one cell along the axis of its direction,
   * and any other direction leaves it where it is.
   */
  lemma NewLocationSteps(head: Cell, direction: string)
    ensures direction == "L" ==> NewLocation(head, direction) == (head.0 - SIZE, head.1)
    ensures direction == "R" ==> NewLocation(head, direction) == (head.0 + SIZE, head.1)
    ensures direction == "U" ==> NewLocation(head, direction) == (head.0, head.1 - SIZE)
    ensures direction == "D" ==> NewLocation(head, direction) == (head.0, head.1 + SIZE)
    ensures direction !in DIRECTIONS ==> NewLocation(head, direction) == head
  {
  }

  /** The direction back. */
  function Opposite(direction: string): (r: string)
    ensures r in DIRECTIONS && r != direction
  {
    if direction == "L" then "R" else if direction == "R" then "L" else if direction == "U" then "D" else "U"
  }

  /**
   * Opposite directions undo each other, and from one cell two directions
   * lead to the same cell only when they are the same direction.
   */
  lemma OppositeUndoes(head: Cell, d: string, e: string)
    requires d in DIRECTIONS && e in DIRECTIONS
    ensures Opposite(d) in DIRECTIONS && NewLocation(NewLocation(head, d), Opposite(d)) == head
    ensures NewLocation(head, d) == NewLocation(head, e) <==> d == e
  {
  }

  /** A cell on the `SIZE` grid. */
  predicate Aligned(c: Cell)
  {
    c.0 % SIZE == 0 && c.1 % SIZE == 0
  }

  /** The wall part of `check_for_collisions`. */
  predicate HitsWall(c: Cell)
  {
    c.0 < 0 || c.0 + SIZE > CANVAS_WIDTH || c.1 < 0 || c.1 + SIZE > PLAY_HEIGHT
  }

  /** On the grid, the walls enclose exactly the 30 x 30 cells of the field, and steps stay on the grid. */
  lemma WallsBoundTheGrid(c: Cell, direction: string)
    requires Aligned(c)
    ensures !HitsWall(c) <==> 0 <= c.0 / SIZE < 30 && 0 <= c.1 / SIZE < 30
    ensures Aligned(NewLocation(c, direction))
  {
  }

  /**
   * `render`: the first segment of a snake. Heading right it starts at
   * `max(SIZE, SIZE * r)`, otherwise at `min(CANVAS_WIDTH - 2 * SIZE,
   * CANVAS_WIDTH - SIZE * r)`, and its row is `min(PLAY_HEIGHT - SIZE, SIZE * r2)`,
   * with `r` and `r2` the two `random.randint` draws.
   */
  function StartCell(direction: string, r: int, r2: int): Cell
  {
    var x := if direction == "R" then Max(SIZE, SIZE * r) else Min(CANVAS_WIDTH - 2 * SIZE, CANVAS_WIDTH - SIZE * r);
    (x, Min(PLAY_HEIGHT - SIZE, SIZE * r2))
  }

  /** `randint(0, CANVAS_WIDTH // 2 // SIZE)` and `randint(0, PLAY_HEIGHT // SIZE)`. */
  predicate Draws(r: int, r2: int)
  {
    0 <= r <= CANVAS_WIDTH / 2 / SIZE && 0 <= r2 <= PLAY_HEIGHT / SIZE
  }

  /**
   * Every start is a grid cell inside the walls, the snake heading right in
   * the left half and the other one in the right half.
   */
  lemma StartInside(direction: string, r: int, r2: int)
    requires Draws(r, r2)
    ensures Aligned(StartCell(direction, r, r2)) && !HitsWall(StartCell(direction, r, r2))
    ensures direction == "R" ==> StartCell(direction, r, r2).0 <= CANVAS_WIDTH / 2
    ensures direction != "R" ==> StartCell(direction, r, r2).0 >= CANVAS_WIDTH / 2
  {
  }

  // ---------------------------------------------------------------------
  // Steering
  // ---------------------------------------------------------------------

  /** The position of the last key of `keys` that the key map knows, the one `for key in reversed(keys)` stops at. */
  function LastMapped(keys: seq<string>, keyMap: map<string, string>): (r: Option<nat>)
    ensures r.Some? ==> r.value < |keys| && keys[r.value] in keyMap
    ensures r.Some? ==> forall j :: r.value < j < |keys| ==> keys[j] !in keyMap
    ensures r.None? ==> forall j :: 0 <= j < |keys| ==> keys[j] !in keyMap
  {
    if keys == [] then None
    else if keys[|keys| - 1] in keyMap then Some(|keys| - 1)
    else LastMapped(keys[..|keys| - 1], keyMap)
  }

  /**
   * The direction and the new head `move_and_grow` settles on, from the
   * current direction, the segments and the keys pressed since the last tick.
   */
  function Steer(direction: string, segments: seq<Cell>, keyMap: map<string, string>, keys: seq<string>): (string, Cell)
    requires |segments| > 0
  {
    var head := segments[|segments| - 1];
    match LastMapped(keys, keyMap)
    case None => (direction, NewLocation(head, direction))
    case Some(i) =>
      var d := keyMap[keys[i]];
      var c := NewLocation(head, d);
      if |segments| > 1 && c == segments[|segments| - 2] then (direction, NewLocation(head, direction))
      else (d, c)
  }

  /** The head always moves in the direction the snake ends up with, and that direction is one of the four. */
  lemma SteerFollowsDirection(direction: string, segments: seq<Cell>, keyMap: map<string, string>, keys: seq<string>)
    requires |segments| > 0 && direction in DIRECTIONS && SteersOnly(keyMap)
    ensures var (d, c) := Steer(direction, segments, keyMap, keys);
      d in DIRECTIONS && c == NewLocation(segments[|segments| - 1], d)
  {
  }

  /**
   * Only the most recent key of the snake's own map counts: keys of the
   * other map and earlier keys change nothing.
   */
  lemma SteerUsesLastKey(direction: string, segments: seq<Cell>, keyMap: map<string, string>, keys: seq<string>)
    requires |segments| > 0
    ensures LastMapped(keys, keyMap).None? ==>
      Steer(direction, segments, keyMap, keys) == (direction, NewLocation(segments[|segments| - 1], direction))
    ensures LastMapped(keys, keyMap).Some? ==>
      Steer(direction, segments, keyMap, keys) == Steer(direction, segments, keyMap, [keys[LastMapped(keys, keyMap).value]])
  {
  }

  /** The snake's last move went in its current direction. */
  predicate Moved(direction: string, segments: seq<Cell>)
  {
    |segments| > 1 ==> segments[|segments| - 1] == NewLocation(segments[|segments| - 2], direction)
  }

  /**
   * With more than one segment, a key is obeyed exactly when it does not ask
   * the snake to turn back into itself; a snake of one segment obeys any key.
   */
  lemma ReversalRejected(direction: string, segments: seq<Cell>, keyMap: map<string, string>, keys: seq<string>)
    requires |segments| > 0 && direction in DIRECTIONS && SteersOnly(keyMap) && Moved(direction, segments)
    requires LastMapped(keys, keyMap).Some?
    ensures var asked := keyMap[keys[LastMapped(keys, keyMap).value]];
      var d := Steer(direction, segments, keyMap, keys).0;
      (|segments| > 1 ==> (d == asked <==> asked != Opposite(direction)))
      && (|segments| > 1 && asked == Opposite(direction) ==> d == direction)
      && (|segments| == 1 ==> d == asked)
  {
    var asked := keyMap[keys[LastMapped(keys, keyMap).value]];
    var head := segments[|segments| - 1];
    if |segments| > 1 {
      var second := segments[|segments| - 2];
      OppositeUndoes(second, direction, direction);
      OppositeUndoes(head, asked, Opposite(direction));
    }
  }

  /**
   * The direction and segments a snake reaches from `direction` and
   * `segments` by one `move_and_grow` for each of the first `n` ticks, in
   * order, each steered by the keys pressed before that tick. Each tick lays
   * exactly one new segment on top of those already laid.
   */
  function Run(direction: string, segments: seq<Cell>, keyMap: map<string, string>, ticks: seq<Tick>, n: nat): (r: (string, seq<Cell>))
    requires |segments| > 0 && n <= |ticks|
    ensures |r.1| == |segments| + n && r.1[..|segments|] == segments
  {
    if n == 0 then (direction, segments)
    else
      var before := Run(direction, segments, keyMap, ticks, n - 1);
      var next := Steer(before.0, before.1, keyMap, ticks[n - 1].keys);
      (next.0, before.1 + [next.1])
  }

  /** Segments laid by the first `k` ticks are never changed by the ticks after them. */
  lemma {:induction false} RunKeepsLaid(direction: string, segments: seq<Cell>, keyMap: map<string, string>, ticks: seq<Tick>, k: nat, n: nat)
    requires |segments| > 0 && k <= n <= |ticks|
    ensures Run(direction, segments, keyMap, ticks, k).1 == Run(direction, segments, keyMap, ticks, n).1[..|segments| + k]
    decreases n
  {
    if k < n {
      RunKeepsLaid(direction, segments, keyMap, ticks, k, n - 1);
    }
  }

  /** `b` is one cell away from `a` in one of the four directions. */
  predicate Adjacent(a: Cell, b: Cell)
  {
    b == NewLocation(a, "L") || b == NewLocation(a, "R") || b == NewLocation(a, "U") || b == NewLocation(a, "D")
  }

  /**
   * A snake heading one of the four ways keeps doing so, and each segment a
   * tick lays is one cell away from the head before it.
   */
  lemma {:induction false} RunSteps(direction: string, segments: seq<Cell>, keyMap: map<string, string>, ticks: seq<Tick>, n: nat)
    requires |segments| > 0 && n <= |ticks| && direction in DIRECTIONS && SteersOnly(keyMap)
    ensures var r := Run(direction, segments, keyMap, ticks, n);
      r.0 in DIRECTIONS && forall i :: |segments| <= i < |r.1| ==> Adjacent(r.1[i - 1], r.1[i])
    decreases n
  {
    if n > 0 {
      RunSteps(direction, segments, keyMap, ticks, n - 1);
      var before := Run(direction, segments, keyMap, ticks, n - 1);
      SteerFollowsDirection(before.0, before.1, keyMap, ticks[n - 1].keys);
    }
  }

  // ---------------------------------------------------------------------
  // The snake
  // ---------------------------------------------------------------------

  class Snake {
    var direction: string
    const keyMap: map<string, string>
    /** The segments' corners, head last; the canvas rectangles are never moved or deleted. */
    var segments: seq<Cell>

    constructor (direction: string, keyMap: map<string, string>)
      ensures this.direction == direction && this.keyMap == keyMap && segments == []
    {
      this.direction := direction;
      this.keyMap := keyMap;
      segments := [];
    }

    /** The rules keep a snake on the grid, heading one of the four ways, its last step taken in its direction. */
    predicate Valid()
      reads this
    {
      direction in DIRECTIONS && SteersOnly(keyMap) && |segments| > 0 && Moved(direction, segments)
      && forall i :: 0 <= i < |segments| ==> Aligned(segments[i])
    }

    /** `get_coords`. */
    function Head(): Cell
      requires |segments| > 0
      reads this
    {
      segments[|segments| - 1]
    }

    /** `render`: the first segment, at the start the two draws give. */
    method Render(r: int, r2: int)
      requires Draws(r, r2) && segments == [] && direction in DIRECTIONS && SteersOnly(keyMap)
      modifies this
      ensures segments == [StartCell(direction, r, r2)] && direction == old(direction) && Valid()
      ensures !HitsWall(Head())
    {
      StartInside(direction, r, r2);
      segments := segments + [StartCell(direction, r, r2)];
    }

    /**
     * `move_and_grow`: steer by the keys pressed, then append exactly one
     * segment, the new head, leaving every other segment as it was.
     */
    method MoveAndGrow(keys: seq<string>)
      requires Valid()
      modifies this
      ensures |segments| == |old(segments)| + 1 && segments[..|old(segments)|] == old(segments)
      ensures (direction, Head()) == Steer(old(direction), old(segments), keyMap, keys) && Valid()
    {
      var newCell: Option<Cell> := None;
      var i := |keys|;
      while i > 0
        invariant 0 <= i <= |keys| && newCell.None? && direction == old(direction)
        invariant LastMapped(keys, keyMap) == LastMapped(keys[..i], keyMap)
        decreases i
      {
        i := i - 1;
        if keys[i] in keyMap {
          var d := keyMap[keys[i]];
          var c := NewLocation(Head(), d);
          if |segments| > 1 {
            var second := segments[|segments| - 2];
            if c == second {
              c := NewLocation(Head(), direction);
            } else {
              direction := d;
            }
          } else {
            direction := d;
          }
          newCell := Some(c);
          assert keys[..i + 1][..i] == keys[..i];
          break;
        }
        assert keys[..i + 1][..i] == keys[..i];
      }
      if newCell.None? || newCell.value.0 == 0 {
        newCell := Some(NewLocation(Head(), direction));
      }
      SteerFollowsDirection(old(direction), old(segments), keyMap, keys);
      WallsBoundTheGrid(Head(), direction);
      segments := segments + [newCell.value];
    }

    /** `check_for_collisions`: a wall, or whatever `find_overlapping` reports under the head (`bodyHit`). */
    function Collides(bodyHit: bool): (r: bool)
      requires |segments| > 0
      reads this
      ensures !bodyHit ==> (r <==> HitsWall(Head()))
      ensures HitsWall(Head()) ==> r
    {
      if HitsWall(Head()) then true else bodyHit
    }
  }

  // ---------------------------------------------------------------------
  // Games and scores
  // ---------------------------------------------------------------------

  /**
   * The winner rule of `play_snake`: the game is over once a snake collides;
   * both colliding is a draw (`None`), otherwise the other player wins.
   */
  function Decide(p1Collided: bool, p2Collided: bool): (r: (bool, Option<nat>))
    ensures r.0 <==> p1Collided || p2Collided
    ensures r.1 == None || r.1 == Some(1) || r.1 == Some(2)
  {
    if p1Collided && p2Collided then (true, None)
    else if p1Collided then (true, Some(2))
    else if p2Collided then (true, Some(1))
    else (false, None)
  }

  /** The counters in `main`: the winner's score goes up by one, a draw changes neither. */
  function Tally(scores: (nat, nat), winner: Option<nat>): (r: (nat, nat))
    ensures scores.0 <= r.0 && scores.1 <= r.1 && r.0 + r.1 <= scores.0 + scores.1 + 1
  {
    if winner == Some(1) then (scores.0 + 1, scores.1)
    else if winner == Some(2) then (scores.0, scores.1 + 1)
    else scores
  }

  /**
   * A player who collides never scores, the other player scores exactly when
   * only the loser collided, and a game that goes on changes no score.
   */
  lemma LoserNeverScores(scores: (nat, nat), p1Collided: bool, p2Collided: bool)
    ensures var (over, winner) := Decide(p1Collided, p2Collided);
      var s := Tally(scores, winner);
      (over <==> p1Collided || p2Collided)
      && (p1Collided ==> s.0 == scores.0) && (p2Collided ==> s.1 == scores.1)
      && (s.0 == scores.0 + 1 <==> p2Collided && !p1Collided)
      && (s.1 == scores.1 + 1 <==> p1Collided && !p2Collided)
      && (!over ==> s == scores)
  {
  }

  /** `display_game_over`: `"DRAW!"` when there is no winner, otherwise `"PLAYER n WINS!"`. */
  function GameOverLabel(winner: Option<nat>): string
  {
    if winner == None || winner == Some(0) then "DRAW!" else "PLAYER " + Digits(winner.value) + " WINS!"
  }

  /** The label tells the three results apart. */
  lemma GameOverLabels()
    ensures GameOverLabel(None) == "DRAW!"
    ensures GameOverLabel(Some(1)) == "PLAYER 1 WINS!" && GameOverLabel(Some(2)) == "PLAYER 2 WINS!"
    ensures GameOverLabel(Some(1)) != GameOverLabel(Some(2)) && GameOverLabel(Some(1)) != GameOverLabel(None)
  {
    assert Digits(1) == "1";
    assert Digits(2) == "2";
  }

  /** The head cell `c` is out of bounds, or `find_overlapping` reported something under it. */
  predicate Crashed(c: Cell, bodyHit: bool)
  {
    HitsWall(c) || bodyHit
  }

  /** Segment `i` exists and crashed, with `bodyHit` what `find_overlapping` reported under it. */
  predicate CrashedAt(segments: seq<Cell>, bodyHit: bool, i: nat)
  {
    i < |segments| && Crashed(segments[i], bodyHit)
  }

  /** Neither snake crashed on any of the first `m` ticks: head `k + 1` is the one laid by tick `k`. */
  predicate NoCrashBefore(segments1: seq<Cell>, segments2: seq<Cell>, ticks: seq<Tick>, m: nat)
    requires m <= |ticks|
  {
    forall k :: 0 <= k < m ==>
      !CrashedAt(segments1, ticks[k].bodyHit1, k + 1) && !CrashedAt(segments2, ticks[k].bodyHit2, k + 1)
  }

  /**
   * Laying one more head on each snake keeps the earlier ticks crash-free,
   * and if the new heads did not crash either, tick `m` is crash-free too.
   */
  lemma SurviveTick(segments1: seq<Cell>, segments2: seq<Cell>, head1: Cell, head2: Cell, ticks: seq<Tick>, m: nat, survived: bool)
    requires m < |ticks| && |segments1| == m + 1 && |segments2| == m + 1
    requires NoCrashBefore(segments1, segments2, ticks, m)
    requires survived ==> !Crashed(head1, ticks[m].bodyHit1) && !Crashed(head2, ticks[m].bodyHit2)
    ensures NoCrashBefore(segments1 + [head1], segments2 + [head2], ticks, if survived then m + 1 else m)
  {
    var next1, next2 := segments1 + [head1], segments2 + [head2];
    forall k | 0 <= k < m
      ensures !CrashedAt(next1, ticks[k].bodyHit1, k + 1) && !CrashedAt(next2, ticks[k].bodyHit2, k + 1)
    {
      assert next1[k + 1] == segments1[k + 1] && next2[k + 1] == segments2[k + 1];
    }
  }

  /** The input of one tick: the keys pressed since the last one and what `find_overlapping` reports under each head. */
  datatype Tick = Tick(keys: seq<string>, bodyHit1: bool, bodyHit2: bool)

  /** `move_and_grow` on the keys of tick `n`: one more step of `Run`, laying one new head. */
  method Advance(p: Snake, ticks: seq<Tick>, n: nat, ghost direction: string, ghost start: seq<Cell>)
    requires p.Valid() && n < |ticks| && |start| > 0
    requires (p.direction, p.segments) == Run(direction, start, p.keyMap, ticks, n)
    modifies p
    ensures p.Valid() && p.segments == old(p.segments) + [p.Head()]
    ensures (p.direction, p.segments) == Run(direction, start, p.keyMap, ticks, n + 1)
  {
    p.MoveAndGrow(ticks[n].keys);
    assert p.segments == old(p.segments) + [p.Head()];
  }

  /**
   * One pass of the animation loop of `play_snake`: both snakes move and
   * grow on the keys of tick `n`, which makes their state `Run` of the first
   * `n + 1` ticks, and the collisions decide whether the game is over and
   * who won.
   */
  method PlayTick(player1: Snake, player2: Snake, ticks: seq<Tick>, n: nat,
                  ghost direction1: string, ghost start1: seq<Cell>, ghost direction2: string, ghost start2: seq<Cell>)
    returns (isGameOver: bool, winner: Option<nat>)
    requires player1 != player2 && player1.Valid() && player2.Valid() && n < |ticks| && |start1| > 0 && |start2| > 0
    requires (player1.direction, player1.segments) == Run(direction1, start1, player1.keyMap, ticks, n)
    requires (player2.direction, player2.segments) == Run(direction2, start2, player2.keyMap, ticks, n)
    requires |start1| == |start2| == 1 && NoCrashBefore(player1.segments, player2.segments, ticks, n)
    modifies player1, player2
    ensures player1.Valid() && player2.Valid()
    ensures NoCrashBefore(player1.segments, player2.segments, ticks, if isGameOver then n else n + 1)
    ensures player1.segments == old(player1.segments) + [player1.Head()] && player2.segments == old(player2.segments) + [player2.Head()]
    ensures (player1.direction, player1.segments) == Run(direction1, start1, player1.keyMap, ticks, n + 1)
    ensures (player2.direction, player2.segments) == Run(direction2, start2, player2.keyMap, ticks, n + 1)
    ensures player1.Collides(ticks[n].bodyHit1) == Crashed(player1.Head(), ticks[n].bodyHit1)
    ensures player2.Collides(ticks[n].bodyHit2) == Crashed(player2.Head(), ticks[n].bodyHit2)
    ensures (isGameOver, winner)
      == Decide(CrashedAt(player1.segments, ticks[n].bodyHit1, |start1| + n), CrashedAt(player2.segments, ticks[n].bodyHit2, |start2| + n))
  {
    var tick := ticks[n];
    ghost var before1, before2 := player1.segments, player2.segments;
    Advance(player1, ticks, n, direction1, start1);
    Advance(player2, ticks, n, direction2, start2);
    var p1GameOver := player1.Collides(tick.bodyHit1);
    var p2GameOver := player2.Collides(tick.bodyHit2);
    if p1GameOver && p2GameOver {
      isGameOver, winner := true, None;
    } else if p1GameOver {
      isGameOver, winner := true, Some(2);
    } else if p2GameOver {
      isGameOver, winner := true, Some(1);
    } else {
      isGameOver, winner := false, None;
    }
    SurviveTick(before1, before2, player1.Head(), player2.Head(), ticks, n, !isGameOver);
  }

  /**
   * The animation loop of `play_snake`: both snakes move and grow, then the
   * collisions decide. The loop stops at the first tick on which a snake
   * collides, unless the ticks run out first (`waiting`). Each snake is then
   * `Run` of the keys of the ticks played, so `RunKeepsLaid` says no segment
   * laid is ever changed, and no head crashed before the last tick.
   */
  method PlaySnake(player1: Snake, player2: Snake, ticks: seq<Tick>) returns (winner: Option<nat>, played: nat, waiting: bool)
    requires player1 != player2 && player1.Valid() && player2.Valid()
    requires |player1.segments| == 1 && |player2.segments| == 1
    modifies player1, player2
    ensures played <= |ticks| && player1.Valid() && player2.Valid()
    ensures (player1.direction, player1.segments)
      == Run(old(player1.direction), old(player1.segments), player1.keyMap, ticks, played)
    ensures (player2.direction, player2.segments)
      == Run(old(player2.direction), old(player2.segments), player2.keyMap, ticks, played)
    ensures !waiting ==> (played > 0 &&
      (true, winner) == Decide(CrashedAt(player1.segments, ticks[played - 1].bodyHit1, played),
                               CrashedAt(player2.segments, ticks[played - 1].bodyHit2, played)))
    ensures waiting ==> played == |ticks| && winner == None
    ensures NoCrashBefore(player1.segments, player2.segments, ticks, if waiting then played else played - 1)
  {
    ghost var direction1, start1, direction2, start2 := player1.direction, player1.segments, player2.direction, player2.segments;
    var isGameOver := false;
    winner := None;
    played := 0;
    waiting := false;
    while !isGameOver
      invariant played <= |ticks| && player1.Valid() && player2.Valid()
      invariant |player1.segments| == 1 + played && |player2.segments| == 1 + played
      invariant (player1.direction, player1.segments) == Run(direction1, start1, player1.keyMap, ticks, played)
      invariant (player2.direction, player2.segments) == Run(direction2, start2, player2.keyMap, ticks, played)
      invariant isGameOver ==> (played > 0 &&
        (true, winner) == Decide(CrashedAt(player1.segments, ticks[played - 1].bodyHit1, played),
                                 CrashedAt(player2.segments, ticks[played - 1].bodyHit2, played)))
      invariant !isGameOver ==> winner == None
      invariant NoCrashBefore(player1.segments, player2.segments, ticks, if isGameOver then played - 1 else played)
      decreases |ticks| - played, !isGameOver
    {
      if played == |ticks| {
        waiting := true;
        break;
      }
      isGameOver, winner := PlayTick(player1, player2, ticks, played, direction1, start1, direction2, start2);
      played := played + 1;
    }
  }

  /** A new game: both snakes created and rendered from the draws. */
  method NewGame(r1: int, r1y: int, r2: int, r2y: int) returns (player1: Snake, player2: Snake)
    requires Draws(r1, r1y) && Draws(r2, r2y)
    ensures fresh(player1) && fresh(player2) && player1 != player2 && player1.Valid() && player2.Valid()
    ensures player1.keyMap == P1_KEY_MAP && player2.keyMap == P2_KEY_MAP
    ensures player1.segments == [StartCell("R", r1, r1y)] && player2.segments == [StartCell("L", r2, r2y)]
  {
    KeyMapsSteerOnly();
    player1 := new Snake("R", P1_KEY_MAP);
    player1.Render(r1, r1y);
    player2 := new Snake("L", P2_KEY_MAP);
    player2.Render(r2, r2y);
  }

  /**
   * The score loop of `main` over the results of the games played: player 1
   * has won every game whose winner is 1, player 2 every game whose winner is 2.
   */
  method TallyScores(winners: seq<Option<nat>>) returns (player1Score: nat, player2Score: nat)
    ensures player1Score == Count(winners, Some(1)) && player2Score == Count(winners, Some(2))
  {
    player1Score, player2Score := 0, 0;
    for i := 0 to |winners|
      invariant player1Score == Count(winners[..i], Some(1)) && player2Score == Count(winners[..i], Some(2))
    {
      assert winners[..i + 1] == winners[..i] + [winners[i]];
      var s := Tally((player1Score, player2Score), winners[i]);
      player1Score, player2Score := s.0, s.1;
    }
    assert winners[..|winners|] == winners;
  }
}
