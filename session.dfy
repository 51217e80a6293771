/** One game session: the start-cell and dot initialisers, the session state (score,
    lives, game-over flag, player position, dots) and its transitions on a key press,
    a touch, and the dot-collection step that follows every change of position. */
module Session {
  import opened Constants
  import opened Maze

  /** The start-cell initialiser: walks the rows in order and, for each row holding a
      'P', moves the start to that row's first 'P'. */
  method FindStart(layout: seq<string>) returns (p: Position)
    ensures p == StartPosition(layout)
  {
    p := Position(0, 0);
    var y := 0;
    while y < |layout|
      invariant 0 <= y <= |layout|
      invariant p == StartScan(layout, y)
    {
      var x := IndexOf(layout[y], 'P');
      if x != -1 {
        p := Position(x, y);
      }
      y := y + 1;
    }
  }

  /** The dots initialiser: walks the rows, and each row's characters, pushing an
      uneaten dot for every ' '. */
  method BuildDots(layout: seq<string>) returns (dots: seq<Dot>)
    ensures dots == InitialDots(layout)
  {
    dots := [];
    var y := 0;
    while y < |layout|
      invariant 0 <= y <= |layout|
      invariant dots == LayoutDots(layout, y)
    {
      var row := layout[y];
      var x := 0;
      while x < |row|
        invariant 0 <= x <= |row|
        invariant dots == LayoutDots(layout, y) + RowDots(row, y, x)
      {
        if row[x] == ' ' {
          dots := dots + [Dot(x, y, false)];
        }
        x := x + 1;
      }
      y := y + 1;
    }
  }

  /** The mapping pass of the collection step: walks the dots in order, marking each
      uneaten dot on cell `p` as eaten and counting it (each count is one 10-point
      score update), and flags whether any dot was eaten. */
  method EatDots(prev: seq<Dot>, p: Position) returns (newDots: seq<Dot>, updated: bool, eaten: nat)
    ensures newDots == EatAt(prev, p)
    ensures eaten == EdibleCount(prev, p)
    ensures updated <==> eaten > 0
  {
    newDots := [];
    updated := false;
    eaten := 0;
    var i := 0;
    while i < |prev|
      invariant 0 <= i <= |prev|
      invariant newDots == EatAt(prev[..i], p)
      invariant eaten == EdibleCount(prev[..i], p)
      invariant updated <==> eaten > 0
    {
      var dot := prev[i];
      assert prev[..i + 1][..i] == prev[..i];
      if !dot.eaten && dot.x == p.x && dot.y == p.y {
        eaten := eaten + 1;
        updated := true;
        newDots := newDots + [dot.(eaten := true)];
      } else {
        newDots := newDots + [dot];
      }
      i := i + 1;
    }
    assert prev[..|prev|] == prev;
  }

  /** The two state initialisers of a fresh session, run on this maze: the start cell
      and the dot list, with what they amount to. */
  method InitialState() returns (start: Position, initial: seq<Dot>)
    ensures start == StartPosition(MAZE_LAYOUT) && initial == InitialDots(MAZE_LAYOUT)
    ensures start == Position(1, 1) && IsValidMove(start.x, start.y)
    ensures Consistent(initial, initial, 0, INITIAL_LIVES, false) && EdibleCount(initial, start) == 0
  {
    start := FindStart(MAZE_LAYOUT);
    initial := BuildDots(MAZE_LAYOUT);
    InitialStateConsistent(start, initial);
  }

  /** The part of the session invariant that does not depend on where the player
      stands: the dots sit where the 99 initial ones did, some of them eaten; the score
      is 10 per eaten dot; the lives never change; and the game is over exactly when
      every dot is eaten. */
  ghost predicate Consistent(dots: seq<Dot>, initialDots: seq<Dot>, score: int, lives: int, gameOver: bool)
  {
    SameCells(dots, initialDots) && |initialDots| == 99 &&
    score == 10 * EatenCount(dots) &&
    lives == INITIAL_LIVES &&
    gameOver == AllEaten(dots)
  }

  /** The initialisers' results on this maze form a consistent fresh session: the
      player starts on the legal cell (1, 1), the 99 dots are all uneaten, and none
      lies under the player. */
  lemma InitialStateConsistent(start: Position, ds: seq<Dot>)
    requires start == StartPosition(MAZE_LAYOUT) && ds == InitialDots(MAZE_LAYOUT)
    ensures start == Position(1, 1) && IsValidMove(start.x, start.y)
    ensures Consistent(ds, ds, 0, INITIAL_LIVES, false) && EdibleCount(ds, start) == 0
  {
    MazeStart();
    MazeDotCount();
    SingleStartMark();
    StartCellHasNoDot(MAZE_LAYOUT);
    LayoutDotsSound(MAZE_LAYOUT, |MAZE_LAYOUT|);
    NoneEatenCount(ds);
    assert !ds[0].eaten;
  }

  /** The collection step at `p` keeps a running session consistent: the eaten dots
      grow by those at `p`, the score by 10 for each, the game ends exactly when this
      step ate a dot and none is left, and no uneaten dot remains at `p`. */
  lemma CollectKeepsConsistent(ds: seq<Dot>, initialDots: seq<Dot>, score: int, lives: int, p: Position)
    requires Consistent(ds, initialDots, score, lives, false)
    ensures var eaten := EdibleCount(ds, p);
      Consistent(EatAt(ds, p), initialDots, score + 10 * eaten, lives, eaten > 0 && AllEaten(EatAt(ds, p))) &&
      EdibleCount(EatAt(ds, p), p) == 0
  {
    EatAtCounts(ds, p);
    if EdibleCount(ds, p) == 0 {
      EatAtNothingThere(ds, p);
    }
  }

  /** Once every dot is eaten, none is left to eat anywhere. */
  lemma AllEatenNothingLeft(ds: seq<Dot>, p: Position)
    requires AllEaten(ds)
    ensures EdibleCount(ds, p) == 0 && EatAt(ds, p) == ds
  {
    EdibleCountPositive(ds, p);
    EatAtNothingThere(ds, p);
  }

  /** The dots of any layout sit on distinct cells, so however many of them are eaten,
      one collection step eats at most one dot and adds at most 10 to the score. */
  lemma AtMostOneDotPerStep(ds: seq<Dot>, layout: seq<string>, p: Position)
    requires SameCells(ds, InitialDots(layout))
    ensures EdibleCount(ds, p) <= 1
  {
    var init := InitialDots(layout);
    LayoutDotsOrdered(layout, |layout|);
    forall i, j | 0 <= i < j < |ds| ensures Before(ds[i], ds[j]) {
      assert Before(init[i], init[j]);
    }
    EdibleCountAtMostOne(ds, p);
  }

  /** However many dots of this maze are eaten, their score stays below SCORE_THRESHOLD:
      the maze has 99 dots, worth 990 points. */
  lemma ScoreStaysBelowThreshold(ds: seq<Dot>)
    requires SameCells(ds, InitialDots(MAZE_LAYOUT))
    ensures 0 <= 10 * EatenCount(ds) <= 990 < SCORE_THRESHOLD
  {
    MazeDotCount();
    AllEatenCount(ds);
  }

  class Game {
    var score: int
    var lives: int
    var gameOver: bool
    var playerPos: Position
    var dots: seq<Dot>
    /** The dot list the session started with: InitialDots of the maze, 99 dots. */
    ghost const initialDots: seq<Dot>

    /** The session invariant: the state is consistent, the player stands on a legal
        cell, and no uneaten dot is left under the player. */
    ghost predicate Valid()
      reads this
    {
      Consistent(dots, initialDots, score, lives, gameOver) &&
      IsValidMove(playerPos.x, playerPos.y) &&
      EdibleCount(dots, playerPos) == 0
    }

    /** The outcome of the collection step at `p`: nothing changes once the game is
        over; otherwise every uneaten dot at `p` is eaten, the score grows by 10 per
        dot eaten, and the game ends exactly when this step ate a dot and none is left. */
    twostate predicate CollectedAt(p: Position)
      reads this
    {
      if old(gameOver) then
        dots == old(dots) && score == old(score) && gameOver
      else
        dots == EatAt(old(dots), p) &&
        score == old(score) + 10 * EdibleCount(old(dots), p) &&
        gameOver == (EdibleCount(old(dots), p) > 0 && AllEaten(dots))
    }

    /** A fresh session: score 0, INITIAL_LIVES lives, the player on the start cell and
        one uneaten dot on every open cell. */
    constructor ()
      ensures Valid()
      ensures score == 0 && lives == INITIAL_LIVES && !gameOver
      ensures playerPos == StartPosition(MAZE_LAYOUT) && playerPos == Position(1, 1)
      ensures dots == InitialDots(MAZE_LAYOUT) && initialDots == dots
    {
      var start, initial := InitialState();
      score := 0;
      lives := INITIAL_LIVES;
      gameOver := false;
      playerPos := start;
      dots := initial;
      initialDots := initial;
    }

    /** movePlayer: step by (dx, dy) when the target is legal, else stay. */
    method MovePlayer(dx: int, dy: int)
      modifies this`playerPos
      ensures playerPos == TryMove(old(playerPos), dx, dy)
    {
      var target := Position(playerPos.x + dx, playerPos.y + dy);
      if IsValidMove(target.x, target.y) {
        playerPos := target;
      }
    }

    /** The dot-collection step: once the game is over it does nothing; otherwise it
        eats the uneaten dots under the player, adds 10 to the score for each, and
        ends the game if it ate a dot and no dot is left. The dot list is replaced
        only when a dot was eaten. A consistent state stays consistent, with no
        uneaten dot left under the player. */
    method Collect()
      modifies this`dots, this`score, this`gameOver
      ensures CollectedAt(playerPos)
      ensures old(Consistent(dots, initialDots, score, lives, gameOver)) ==>
        Consistent(dots, initialDots, score, lives, gameOver) && EdibleCount(dots, playerPos) == 0
    {
      if gameOver {
        if Consistent(dots, initialDots, score, lives, gameOver) {
          AllEatenNothingLeft(dots, playerPos);
        }
        return;
      }
      var prev := dots;
      var newDots, updated, eaten := EatDots(prev, playerPos);
      score := score + 10 * eaten;
      if updated && AllEaten(newDots) {
        gameOver := true;
      }
      if !updated {
        EatAtNothingThere(prev, playerPos);
      }
      dots := if updated then newDots else prev;
      if old(Consistent(dots, initialDots, score, lives, gameOver)) {
        CollectKeepsConsistent(prev, initialDots, old(score), lives, playerPos);
      }
    }

    /** A key press: an arrow key asks for a one-cell step; when the player's position
        changes, the collection step runs. Keys still move the player after the game
        is over, but then nothing is eaten. */
    method HandleKeyDown(key: string)
      modifies this`playerPos, this`dots, this`score, this`gameOver
      ensures playerPos == KeyStep(old(playerPos), key)
      ensures playerPos != old(playerPos) ==> CollectedAt(playerPos)
      ensures playerPos == old(playerPos) ==> unchanged(this)
      ensures old(Valid()) ==> Valid() && CollectedAt(playerPos)
    {
      var before := playerPos;
      match KeyDelta(key) {
        case Some(d) => MovePlayer(d.0, d.1);
        case None =>
      }
      if old(Valid()) {
        KeyStepIsLegalUnitStep(before, key);
      }
      if playerPos != before {
        Collect();
      } else if old(Valid()) {
        EatAtNothingThere(dots, playerPos);
      }
    }

    /** A touch at pixel offset (offX, offY): the player jumps to the touched cell when
        it is legal, adjacent or not, and the collection step runs. */
    method HandleTouch(offX: int, offY: int)
      modifies this`playerPos, this`dots, this`score, this`gameOver
      ensures playerPos == JumpTo(old(playerPos), TouchCell(offX, offY))
      ensures IsValidMove(TouchCell(offX, offY).x, TouchCell(offX, offY).y) ==> CollectedAt(playerPos)
      ensures !IsValidMove(TouchCell(offX, offY).x, TouchCell(offX, offY).y) ==> unchanged(this)
      ensures old(Valid()) ==> Valid() && CollectedAt(playerPos)
    {
      var c := TouchCell(offX, offY);
      if IsValidMove(c.x, c.y) {
        playerPos := c;
        Collect();
      } else if old(Valid()) {
        EatAtNothingThere(dots, playerPos);
      }
    }

    /** Whether the game-over screen of this session shows the win line. */
    function WinLineShown(): bool
      reads this
    {
      gameOver && score >= SCORE_THRESHOLD
    }

    /** The win line never shows: even with every dot eaten the score is 990. */
    lemma WinLineNeverShown()
      requires Valid()
      ensures !WinLineShown() && 0 <= score < SCORE_THRESHOLD
    {
      AllEatenCount(dots);
    }
  }
}
