/** The pure logic of the maze game: reading the layout, the legality check on a
    target cell, the arrow-key and touch inputs, the start cell and the initial dots,
    and the dot-collection step on a list of dots. */
module Maze {
  import opened Constants

  datatype Option<T> = None | Some(value: T)

  /** A cell of the grid: column `x`, row `y`. */
  datatype Position = Position(x: int, y: int)

  /** A dot at column `x`, row `y`, and whether the player has eaten it. */
  datatype Dot = Dot(x: int, y: int, eaten: bool)

  // ---------------------------------------------------------------------------
  // Reading the layout

  /** First index of `c` in `row`, or -1 when `c` does not occur (string indexOf). */
  function IndexOf(row: string, c: char): (i: int)
    ensures -1 <= i < |row|
    ensures i >= 0 ==> row[i] == c && forall j :: 0 <= j < i ==> row[j] != c
    ensures i == -1 <==> c !in row
  {
    if row == [] then -1
    else if row[0] == c then 0
    else
      var k := IndexOf(row[1..], c);
      assert forall j :: 1 <= j < |row| ==> row[j] == row[1..][j - 1];
      if k == -1 then -1 else k + 1
  }

  /** The character at column `x` of row `y` of the maze, or None when `x` lies past
      the end of that row (reading there yields `undefined`). */
  function CellAt(x: nat, y: nat): Option<char>
    requires y < MAZE_HEIGHT
  {
    if x < |MAZE_LAYOUT[y]| then Some(MAZE_LAYOUT[y][x]) else None
  }

  /** The legality check on a target cell: inside the MAZE_WIDTH x MAZE_HEIGHT grid and
      not a wall. A column past the end of a short row is not a wall. */
  predicate IsValidMove(x: int, y: int)
  {
    0 <= x < MAZE_WIDTH && 0 <= y < MAZE_HEIGHT && CellAt(x, y) != Some('#')
  }

  /** The legal cells of this maze are exactly its open and start cells, plus the
      column-14 cells of the thirteen short rows, which lie past the row's end. */
  lemma ValidMoveCells(x: int, y: int)
    ensures IsValidMove(x, y) <==>
      0 <= y < MAZE_HEIGHT &&
      ((0 <= x < |MAZE_LAYOUT[y]| && MAZE_LAYOUT[y][x] in {' ', 'P'}) ||
       (x == MAZE_WIDTH - 1 && 1 <= y < MAZE_HEIGHT - 1))
  {
    LayoutAlphabet();
    BorderRowsAreWalls();
    InnerRowsAreOneShort();
  }

  /** Every cell of the layout that is not a wall is legal. */
  lemma OpenCellIsValid(x: int, y: int)
    requires 0 <= y < |MAZE_LAYOUT| && 0 <= x < |MAZE_LAYOUT[y]| && MAZE_LAYOUT[y][x] != '#'
    ensures IsValidMove(x, y)
  {
    RowsFitWidth();
  }

  /** Columns 0 and 13 are walls in every row. */
  lemma WallColumns(y: int)
    requires 0 <= y < MAZE_HEIGHT
    ensures !IsValidMove(0, y) && !IsValidMove(MAZE_WIDTH - 2, y)
  {
    BorderRowsAreWalls();
    InnerRowsAreOneShort();
  }

  // ---------------------------------------------------------------------------
  // Moving

  /** The step an arrow key asks for; every other key asks for none. */
  function KeyDelta(key: string): (d: Option<(int, int)>)
    ensures d.Some? <==> key in {"ArrowLeft", "ArrowRight", "ArrowUp", "ArrowDown"}
    ensures d.Some? ==> (if d.value.0 == 0 then d.value.1 in {-1, 1} else d.value.0 in {-1, 1} && d.value.1 == 0)
  {
    match key
    case "ArrowLeft" => Some((-1, 0))
    case "ArrowRight" => Some((1, 0))
    case "ArrowUp" => Some((0, -1))
    case "ArrowDown" => Some((0, 1))
    case _ => None
  }

  /** The player's next position when asked to move by (dx, dy) from `p`: the target
      if it is legal, `p` itself otherwise. */
  function TryMove(p: Position, dx: int, dy: int): (r: Position)
    ensures IsValidMove(p.x, p.y) ==> IsValidMove(r.x, r.y)
    ensures IsValidMove(p.x + dx, p.y + dy) ==> r == Position(p.x + dx, p.y + dy)
    ensures r != p ==> r == Position(p.x + dx, p.y + dy)
  {
    if IsValidMove(p.x + dx, p.y + dy) then Position(p.x + dx, p.y + dy) else p
  }

  /** The player's position after a key press from `p`. */
  function KeyStep(p: Position, key: string): Position
  {
    match KeyDelta(key)
    case None => p
    case Some(d) => TryMove(p, d.0, d.1)
  }

  /** A key press keeps the player on a legal cell, moves it by at most one cell, and
      leaves it where it is unless the key is an arrow whose target is legal. */
  lemma KeyStepIsLegalUnitStep(p: Position, key: string)
    requires IsValidMove(p.x, p.y)
    ensures var r := KeyStep(p, key);
      IsValidMove(r.x, r.y) &&
      (r == p || (key in {"ArrowLeft", "ArrowRight", "ArrowUp", "ArrowDown"} &&
                  (if r.x == p.x then r.y - p.y in {-1, 1} else r.x - p.x in {-1, 1} && r.y == p.y)))
  {
  }

  /** An arrow key moves the player onto its target exactly when that target is legal. */
  lemma KeyStepTakesLegalTarget(p: Position, key: string)
    requires KeyDelta(key).Some?
    ensures var d := KeyDelta(key).value;
      KeyStep(p, key) == Position(p.x + d.0, p.y + d.1) <==> IsValidMove(p.x + d.0, p.y + d.1)
  {
  }

  /** Arrow keys never carry the player out of columns 1..12 into the touch-only column:
      columns 0 and 13 are walls in every row. */
  lemma KeyStepKeepsInnerColumns(p: Position, key: string)
    requires IsValidMove(p.x, p.y) && p.x <= MAZE_WIDTH - 3
    ensures 1 <= KeyStep(p, key).x <= MAZE_WIDTH - 3
  {
    WallColumns(p.y);
    var r := KeyStep(p, key);
    if r.x != p.x {
      assert r.y == p.y;
      WallColumns(r.y);
    }
  }

  /** The cell under a pixel offset (offX, offY) from the top-left corner of the
      touched element. Dafny's `/` by the positive CELL_SIZE rounds down, like
      `Math.floor` of the quotient. */
  function TouchCell(offX: int, offY: int): (c: Position)
    ensures c.x * CELL_SIZE <= offX < (c.x + 1) * CELL_SIZE
    ensures c.y * CELL_SIZE <= offY < (c.y + 1) * CELL_SIZE
  {
    Position(offX / CELL_SIZE, offY / CELL_SIZE)
  }

  /** The player's position after touching cell `c`: `c` when it is legal, whether or
      not it is next to `p`; otherwise `p`. */
  function JumpTo(p: Position, c: Position): (r: Position)
    ensures IsValidMove(p.x, p.y) ==> IsValidMove(r.x, r.y)
    ensures r == p || r == c
  {
    if IsValidMove(c.x, c.y) then c else p
  }

  /** A touch keeps the player on a legal cell: it lands on the touched cell or stays. */
  lemma JumpToIsLegal(p: Position, offX: int, offY: int)
    requires IsValidMove(p.x, p.y)
    ensures var r := JumpTo(p, TouchCell(offX, offY));
      IsValidMove(r.x, r.y) && (r == p || r == TouchCell(offX, offY))
  {
  }

  /** The offset (20x + 10, 20y + 10) selects cell (x, y): when that cell is legal the
      player moves there, from anywhere. */
  lemma TouchReachesEveryLegalCell(p: Position, c: Position)
    requires IsValidMove(c.x, c.y)
    ensures JumpTo(p, TouchCell(c.x * CELL_SIZE + CELL_SIZE / 2, c.y * CELL_SIZE + CELL_SIZE / 2)) == c
  {
    var t := TouchCell(c.x * CELL_SIZE + CELL_SIZE / 2, c.y * CELL_SIZE + CELL_SIZE / 2);
    assert t.x == c.x by {
      assert t.x * CELL_SIZE <= c.x * CELL_SIZE + CELL_SIZE / 2 < (t.x + 1) * CELL_SIZE;
    }
    assert t.y == c.y by {
      assert t.y * CELL_SIZE <= c.y * CELL_SIZE + CELL_SIZE / 2 < (t.y + 1) * CELL_SIZE;
    }
  }

  /** In the touch-only column 14, arrow keys move the player only along that column:
      its left neighbour, column 13, is a wall and column 15 is off the grid. */
  lemma KeyStepInTouchColumn(y: int, key: string)
    requires IsValidMove(MAZE_WIDTH - 1, y)
    ensures var r := KeyStep(Position(MAZE_WIDTH - 1, y), key);
      r.x == MAZE_WIDTH - 1 && IsValidMove(r.x, r.y)
  {
    WallColumns(y);
  }

  /** Where a run of key presses from the start cell `s` leaves the player. */
  function KeyPath(s: Position, keys: seq<string>): Position
    decreases |keys|
  {
    if keys == [] then s else KeyStep(KeyPath(s, keys[..|keys| - 1]), keys[|keys| - 1])
  }

  /** From a legal cell in columns 1..12, no run of key presses reaches column 14:
      that column is reachable by touch only. */
  lemma {:induction false} KeyPathStaysInnerColumns(s: Position, keys: seq<string>)
    requires IsValidMove(s.x, s.y) && s.x <= MAZE_WIDTH - 3
    ensures var r := KeyPath(s, keys); IsValidMove(r.x, r.y) && 1 <= r.x <= MAZE_WIDTH - 3
    decreases |keys|
  {
    if keys == [] {
      WallColumns(s.y);
      assert s.x != 0;
    } else {
      var q := KeyPath(s, keys[..|keys| - 1]);
      KeyPathStaysInnerColumns(s, keys[..|keys| - 1]);
      KeyStepIsLegalUnitStep(q, keys[|keys| - 1]);
      KeyStepKeepsInnerColumns(q, keys[|keys| - 1]);
    }
  }

  // ---------------------------------------------------------------------------
  // The start cell

  /** The start cell after scanning the first `k` rows: each row holding a 'P' moves it
      to that row's first 'P'; it starts at (0, 0). */
  function StartScan(layout: seq<string>, k: nat): (p: Position)
    requires k <= |layout|
    ensures (p == Position(0, 0) && forall y :: 0 <= y < k ==> 'P' !in layout[y]) ||
            (0 <= p.y < k && 0 <= p.x < |layout[p.y]| && layout[p.y][p.x] == 'P' &&
             (forall j :: 0 <= j < p.x ==> layout[p.y][j] != 'P') &&
             (forall y :: p.y < y < k ==> 'P' !in layout[y]))
  {
    if k == 0 then Position(0, 0)
    else
      var x := IndexOf(layout[k - 1], 'P');
      if x != -1 then Position(x, k - 1) else StartScan(layout, k - 1)
  }

  /** The start cell: the first 'P' of the last row that holds one, or (0, 0). */
  function StartPosition(layout: seq<string>): Position
  {
    StartScan(layout, |layout|)
  }

  /** In this maze the player starts at column 1 of row 1, a legal cell. */
  lemma MazeStart()
    ensures StartPosition(MAZE_LAYOUT) == Position(1, 1)
    ensures IsValidMove(1, 1)
  {
    SingleStartMark();
    var p := StartPosition(MAZE_LAYOUT);
    assert 'P' in MAZE_LAYOUT[1];
    assert p.y == 1 && p.x == 1;
  }

  // ---------------------------------------------------------------------------
  // The initial dots

  /** The dots of the first `n` characters of `row`, which is row `y`: one uneaten dot
      per ' ', left to right. */
  function RowDots(row: string, y: int, n: nat): seq<Dot>
    requires n <= |row|
  {
    if n == 0 then []
    else RowDots(row, y, n - 1) + (if row[n - 1] == ' ' then [Dot(n - 1, y, false)] else [])
  }

  /** The dots of the first `k` rows of `layout`, row by row. */
  function LayoutDots(layout: seq<string>, k: nat): seq<Dot>
    requires k <= |layout|
  {
    if k == 0 then [] else LayoutDots(layout, k - 1) + RowDots(layout[k - 1], k - 1, |layout[k - 1]|)
  }

  /** The dot list a game starts with. */
  function InitialDots(layout: seq<string>): seq<Dot>
  {
    LayoutDots(layout, |layout|)
  }

  /** Dot `a` comes strictly before dot `b` in row-major order. */
  predicate Before(a: Dot, b: Dot)
  {
    a.y < b.y || (a.y == b.y && a.x < b.x)
  }

  /** Cell (x, y) of `layout` is an open cell, marked ' '. */
  predicate IsOpenCell(layout: seq<string>, x: int, y: int)
  {
    0 <= y < |layout| && 0 <= x < |layout[y]| && layout[y][x] == ' '
  }

  /** Some dot of `ds` is at column `x` of row `y`. */
  predicate HasDotAt(ds: seq<Dot>, x: int, y: int)
  {
    exists i :: 0 <= i < |ds| && ds[i].x == x && ds[i].y == y
  }

  /** The number of ' ' characters in `row`. */
  function OpenCells(row: string): nat
  {
    multiset(row)[' ']
  }

  /** The number of ' ' characters in the first `k` rows. */
  function SpaceCount(layout: seq<string>, k: nat): nat
    requires k <= |layout|
  {
    if k == 0 then 0 else SpaceCount(layout, k - 1) + OpenCells(layout[k - 1])
  }

  /** A row prefix yields as many dots as it has ' ' characters. */
  lemma {:induction false} RowDotsCount(row: string, y: int, n: nat)
    requires n <= |row|
    ensures |RowDots(row, y, n)| == OpenCells(row[..n])
  {
    if n > 0 {
      RowDotsCount(row, y, n - 1);
      assert row[..n] == row[..n - 1] + [row[n - 1]];
    }
  }

  /** Each dot of a row prefix is uneaten and sits on a ' ' of that prefix, and the
      dots come left to right. */
  lemma {:induction false} RowDotsSound(row: string, y: int, n: nat)
    requires n <= |row|
    ensures forall i :: 0 <= i < |RowDots(row, y, n)| ==>
      var d := RowDots(row, y, n)[i]; !d.eaten && d.y == y && 0 <= d.x < n && row[d.x] == ' '
    ensures forall i, j :: 0 <= i < j < |RowDots(row, y, n)| ==>
      RowDots(row, y, n)[i].x < RowDots(row, y, n)[j].x
  {
    if n > 0 {
      RowDotsSound(row, y, n - 1);
    }
  }

  /** Every ' ' of a row prefix has a dot. */
  lemma {:induction false} RowDotsComplete(row: string, y: int, n: nat)
    requires n <= |row|
    ensures forall x :: 0 <= x < n && row[x] == ' ' ==> HasDotAt(RowDots(row, y, n), x, y)
  {
    if n > 0 {
      RowDotsComplete(row, y, n - 1);
      var ds := RowDots(row, y, n);
      var prev := RowDots(row, y, n - 1);
      forall x | 0 <= x < n && row[x] == ' ' ensures HasDotAt(ds, x, y) {
        if x < n - 1 {
          var i :| 0 <= i < |prev| && prev[i].x == x && prev[i].y == y;
          assert ds[i] == prev[i];
        } else {
          assert ds[|ds| - 1] == Dot(x, y, false);
        }
      }
    }
  }

  /** The first `k` rows yield as many dots as they have ' ' characters. */
  lemma {:induction false} LayoutDotsCount(layout: seq<string>, k: nat)
    requires k <= |layout|
    ensures |LayoutDots(layout, k)| == SpaceCount(layout, k)
  {
    if k > 0 {
      LayoutDotsCount(layout, k - 1);
      var row := layout[k - 1];
      RowDotsCount(row, k - 1, |row|);
      assert row[..|row|] == row;
    }
  }

  /** Each dot of the first `k` rows is uneaten and sits on a ' ' cell of those rows. */
  lemma {:induction false} LayoutDotsSound(layout: seq<string>, k: nat)
    requires k <= |layout|
    ensures forall i :: 0 <= i < |LayoutDots(layout, k)| ==>
      var d := LayoutDots(layout, k)[i]; !d.eaten && d.y < k && IsOpenCell(layout, d.x, d.y)
  {
    if k > 0 {
      LayoutDotsSound(layout, k - 1);
      var row := layout[k - 1];
      RowDotsSound(row, k - 1, |row|);
      var prev := LayoutDots(layout, k - 1);
      var rd := RowDots(row, k - 1, |row|);
      var ds := LayoutDots(layout, k);
      forall i | 0 <= i < |ds| ensures !ds[i].eaten && ds[i].y < k && IsOpenCell(layout, ds[i].x, ds[i].y) {
        if i < |prev| { assert ds[i] == prev[i]; } else { assert ds[i] == rd[i - |prev|]; }
      }
    }
  }

  /** The dots of the first `k` rows come in strict row-major order, so no two share
      a cell. */
  lemma {:induction false} LayoutDotsOrdered(layout: seq<string>, k: nat)
    requires k <= |layout|
    ensures forall i, j :: 0 <= i < j < |LayoutDots(layout, k)| ==>
      Before(LayoutDots(layout, k)[i], LayoutDots(layout, k)[j])
  {
    if k > 0 {
      LayoutDotsOrdered(layout, k - 1);
      LayoutDotsSound(layout, k - 1);
      var row := layout[k - 1];
      RowDotsSound(row, k - 1, |row|);
      var prev := LayoutDots(layout, k - 1);
      var rd := RowDots(row, k - 1, |row|);
      var ds := LayoutDots(layout, k);
      forall i, j | 0 <= i < j < |ds| ensures Before(ds[i], ds[j]) {
        if j < |prev| {
          assert ds[i] == prev[i] && ds[j] == prev[j];
        } else if i >= |prev| {
          assert ds[i] == rd[i - |prev|] && ds[j] == rd[j - |prev|];
        } else {
          assert ds[i] == prev[i] && ds[j] == rd[j - |prev|];
        }
      }
    }
  }

  /** Every ' ' cell of the first `k` rows has a dot. */
  lemma {:induction false} LayoutDotsComplete(layout: seq<string>, k: nat)
    requires k <= |layout|
    ensures forall y, x :: 0 <= y < k && 0 <= x < |layout[y]| && layout[y][x] == ' ' ==>
      HasDotAt(LayoutDots(layout, k), x, y)
  {
    if k > 0 {
      LayoutDotsComplete(layout, k - 1);
      var row := layout[k - 1];
      RowDotsComplete(row, k - 1, |row|);
      var prev := LayoutDots(layout, k - 1);
      var rd := RowDots(row, k - 1, |row|);
      var ds := LayoutDots(layout, k);
      forall y, x | 0 <= y < k && 0 <= x < |layout[y]| && layout[y][x] == ' '
        ensures HasDotAt(ds, x, y)
      {
        if y < k - 1 {
          var i :| 0 <= i < |prev| && prev[i].x == x && prev[i].y == y;
          assert ds[i] == prev[i];
        } else {
          var i :| 0 <= i < |rd| && rd[i].x == x && rd[i].y == y;
          assert ds[|prev| + i] == rd[i];
        }
      }
    }
  }

  /** The open cells of each row, row by row (the rows are checked two at a time to keep
      each proof small). */
  lemma OpenCellsRows0And13And14()
    ensures OpenCells(MAZE_LAYOUT[0]) == 0 && OpenCells(MAZE_LAYOUT[13]) == 12 && OpenCells(MAZE_LAYOUT[14]) == 0
  {
    assert ' ' !in MAZE_LAYOUT[0] && ' ' !in MAZE_LAYOUT[14];
    assert MAZE_LAYOUT[13] == "#            #";
  }

  lemma OpenCellsRows1And2()
    ensures OpenCells(MAZE_LAYOUT[1]) == 9
    ensures OpenCells(MAZE_LAYOUT[2]) == 5
  {
    assert MAZE_LAYOUT[1] == "#P    #    # #";
    assert MAZE_LAYOUT[2] == "# ### # ## # #";
  }

  lemma OpenCellsRows3And4()
    ensures OpenCells(MAZE_LAYOUT[3]) == 10
    ensures OpenCells(MAZE_LAYOUT[4]) == 4
  {
    assert MAZE_LAYOUT[3] == "#     #    # #";
    assert MAZE_LAYOUT[4] == "# ### #### # #";
  }

  lemma OpenCellsRows5And6()
    ensures OpenCells(MAZE_LAYOUT[5]) == 11
    ensures OpenCells(MAZE_LAYOUT[6]) == 3
  {
    assert MAZE_LAYOUT[5] == "#          # #";
    assert MAZE_LAYOUT[6] == "# ######## # #";
  }

  lemma OpenCellsRows7And8()
    ensures OpenCells(MAZE_LAYOUT[7]) == 12
    ensures OpenCells(MAZE_LAYOUT[8]) == 3
  {
    assert MAZE_LAYOUT[7] == "#            #";
    assert MAZE_LAYOUT[8] == "# ######## # #";
  }

  lemma OpenCellsRows9And10()
    ensures OpenCells(MAZE_LAYOUT[9]) == 11
    ensures OpenCells(MAZE_LAYOUT[10]) == 4
  {
    assert MAZE_LAYOUT[9] == "#          # #";
    assert MAZE_LAYOUT[10] == "# ### #### # #";
  }

  lemma OpenCellsRows11And12()
    ensures OpenCells(MAZE_LAYOUT[11]) == 10
    ensures OpenCells(MAZE_LAYOUT[12]) == 5
  {
    assert MAZE_LAYOUT[11] == "#     #    # #";
    assert MAZE_LAYOUT[12] == "# ### # ## # #";
  }

  /** The first five rows of this maze hold 28 ' ' cells. */
  lemma SpaceCountRows0To4()
    ensures SpaceCount(MAZE_LAYOUT, 5) == 28
  {
    OpenCellsRows0And13And14();
    OpenCellsRows1And2();
    OpenCellsRows3And4();
    assert SpaceCount(MAZE_LAYOUT, 1) == 0;
    assert SpaceCount(MAZE_LAYOUT, 3) == 14;
  }

  /** The first ten rows of this maze hold 68 ' ' cells. */
  lemma SpaceCountRows0To9()
    ensures SpaceCount(MAZE_LAYOUT, 10) == 68
  {
    SpaceCountRows0To4();
    OpenCellsRows5And6();
    OpenCellsRows7And8();
    OpenCellsRows9And10();
    assert SpaceCount(MAZE_LAYOUT, 6) == 39;
    assert SpaceCount(MAZE_LAYOUT, 7) == 42;
    assert SpaceCount(MAZE_LAYOUT, 8) == 54;
    assert SpaceCount(MAZE_LAYOUT, 9) == 57;
  }

  /** The first thirteen rows of this maze hold 87 ' ' cells. */
  lemma SpaceCountRows0To12()
    ensures SpaceCount(MAZE_LAYOUT, 13) == 87
  {
    SpaceCountRows0To9();
    OpenCellsRows9And10();
    OpenCellsRows11And12();
    assert SpaceCount(MAZE_LAYOUT, 11) == 72;
    assert SpaceCount(MAZE_LAYOUT, 12) == 82;
  }

  /** The first fourteen rows of this maze hold all 99 of its ' ' cells. */
  lemma SpaceCountRows0To13()
    ensures SpaceCount(MAZE_LAYOUT, 14) == 99
  {
    SpaceCountRows0To12();
    OpenCellsRows0And13And14();
  }

  /** This maze has 99 ' ' cells. */
  lemma MazeSpaceCount()
    ensures SpaceCount(MAZE_LAYOUT, |MAZE_LAYOUT|) == 99
  {
    SpaceCountRows0To13();
    OpenCellsRows0And13And14();
  }

  /** This maze starts with 99 dots, none of them eaten. */
  lemma MazeDotCount()
    ensures |InitialDots(MAZE_LAYOUT)| == 99
    ensures forall i :: 0 <= i < |InitialDots(MAZE_LAYOUT)| ==> !InitialDots(MAZE_LAYOUT)[i].eaten
  {
    LayoutDotsCount(MAZE_LAYOUT, |MAZE_LAYOUT|);
    LayoutDotsSound(MAZE_LAYOUT, |MAZE_LAYOUT|);
    MazeSpaceCount();
  }

  /** Dots that sit on ' ' cells of this maze sit on legal cells other than the start. */
  lemma OpenCellDotsLegal(ds: seq<Dot>)
    requires forall i :: 0 <= i < |ds| ==> IsOpenCell(MAZE_LAYOUT, ds[i].x, ds[i].y)
    ensures forall i :: 0 <= i < |ds| ==> IsValidMove(ds[i].x, ds[i].y) && (ds[i].x, ds[i].y) != (1, 1)
  {
    RowsFitWidth();
    assert MAZE_LAYOUT[1][1] == 'P';
  }

  /** In a layout whose cell (1, 1) is the start mark, no initial dot lies on it. */
  lemma StartCellHasNoDot(layout: seq<string>)
    requires 1 < |layout| && 1 < |layout[1]| && layout[1][1] == 'P'
    ensures EdibleCount(InitialDots(layout), Position(1, 1)) == 0
  {
    var ds := InitialDots(layout);
    LayoutDotsSound(layout, |layout|);
    assert forall i :: 0 <= i < |ds| ==> !EdibleAt(ds[i], Position(1, 1));
    EdibleCountPositive(ds, Position(1, 1));
  }

  // ---------------------------------------------------------------------------
  // The dot-collection step on a list of dots

  /** `d` is uneaten and lies on cell `p`. */
  predicate EdibleAt(d: Dot, p: Position)
  {
    !d.eaten && d.x == p.x && d.y == p.y
  }

  /** The dot list after the player, standing on `p`, eats every uneaten dot there. */
  function EatAt(ds: seq<Dot>, p: Position): (r: seq<Dot>)
    ensures |r| == |ds|
    ensures forall i :: 0 <= i < |ds| ==>
      r[i].x == ds[i].x && r[i].y == ds[i].y && !EdibleAt(r[i], p) &&
      (r[i].eaten <==> ds[i].eaten || EdibleAt(ds[i], p))
  {
    if ds == [] then []
    else
      var d := ds[|ds| - 1];
      EatAt(ds[..|ds| - 1], p) + [if EdibleAt(d, p) then d.(eaten := true) else d]
  }

  /** The number of uneaten dots at `p`. */
  function EdibleCount(ds: seq<Dot>, p: Position): nat
  {
    if ds == [] then 0
    else EdibleCount(ds[..|ds| - 1], p) + (if EdibleAt(ds[|ds| - 1], p) then 1 else 0)
  }

  /** The number of eaten dots. */
  function EatenCount(ds: seq<Dot>): nat
  {
    if ds == [] then 0
    else EatenCount(ds[..|ds| - 1]) + (if ds[|ds| - 1].eaten then 1 else 0)
  }

  /** Every dot is eaten. */
  predicate AllEaten(ds: seq<Dot>)
  {
    forall i :: 0 <= i < |ds| ==> ds[i].eaten
  }

  /** `a` and `b` hold dots at the same cells, in the same order. */
  predicate SameCells(a: seq<Dot>, b: seq<Dot>)
  {
    |a| == |b| && forall i :: 0 <= i < |a| ==> a[i].x == b[i].x && a[i].y == b[i].y
  }

  /** Eating at `p` adds exactly the dots that were uneaten at `p` to the eaten ones. */
  lemma {:induction false} EatAtCounts(ds: seq<Dot>, p: Position)
    ensures EatenCount(EatAt(ds, p)) == EatenCount(ds) + EdibleCount(ds, p)
    ensures EdibleCount(EatAt(ds, p), p) == 0
  {
    if ds != [] {
      var r := EatAt(ds, p);
      EatAtCounts(ds[..|ds| - 1], p);
      assert r[..|r| - 1] == EatAt(ds[..|ds| - 1], p);
    }
  }

  /** With no uneaten dot at `p`, eating at `p` changes nothing. */
  lemma {:induction false} EatAtNothingThere(ds: seq<Dot>, p: Position)
    requires EdibleCount(ds, p) == 0
    ensures EatAt(ds, p) == ds
  {
    if ds != [] {
      EatAtNothingThere(ds[..|ds| - 1], p);
      assert ds == ds[..|ds| - 1] + [ds[|ds| - 1]];
    }
  }

  /** Eating twice at the same cell is the same as eating once. */
  lemma EatAtIdempotent(ds: seq<Dot>, p: Position)
    ensures EatAt(EatAt(ds, p), p) == EatAt(ds, p)
  {
    EatAtCounts(ds, p);
    EatAtNothingThere(EatAt(ds, p), p);
  }

  /** Some uneaten dot lies at `p` exactly when the count of them is positive. */
  lemma {:induction false} EdibleCountPositive(ds: seq<Dot>, p: Position)
    ensures EdibleCount(ds, p) > 0 <==> exists i :: 0 <= i < |ds| && EdibleAt(ds[i], p)
  {
    if ds != [] {
      var init := ds[..|ds| - 1];
      EdibleCountPositive(init, p);
      if EdibleCount(init, p) > 0 {
        var i :| 0 <= i < |init| && EdibleAt(init[i], p);
        assert ds[i] == init[i];
      }
      if exists i :: 0 <= i < |ds| && EdibleAt(ds[i], p) {
        var i :| 0 <= i < |ds| && EdibleAt(ds[i], p);
        if i < |ds| - 1 { assert init[i] == ds[i]; }
      }
    }
  }

  /** Every dot is eaten exactly when the eaten count is the length of the list. */
  lemma {:induction false} AllEatenCount(ds: seq<Dot>)
    ensures EatenCount(ds) <= |ds|
    ensures AllEaten(ds) <==> EatenCount(ds) == |ds|
  {
    if ds != [] {
      var init := ds[..|ds| - 1];
      AllEatenCount(init);
      if AllEaten(init) && ds[|ds| - 1].eaten {
        assert forall i :: 0 <= i < |ds| - 1 ==> ds[i] == init[i];
      }
      if AllEaten(ds) {
        assert forall i :: 0 <= i < |init| ==> init[i] == ds[i];
      }
    }
  }

  /** A list whose dots are all uneaten has none eaten. */
  lemma {:induction false} NoneEatenCount(ds: seq<Dot>)
    requires forall i :: 0 <= i < |ds| ==> !ds[i].eaten
    ensures EatenCount(ds) == 0
  {
    if ds != [] {
      NoneEatenCount(ds[..|ds| - 1]);
    }
  }

  /** A list whose dots sit on distinct cells has at most one uneaten dot at `p`. */
  lemma {:induction false} EdibleCountAtMostOne(ds: seq<Dot>, p: Position)
    requires forall i, j :: 0 <= i < j < |ds| ==> Before(ds[i], ds[j])
    ensures EdibleCount(ds, p) <= 1
  {
    if ds != [] {
      var init := ds[..|ds| - 1];
      EdibleCountAtMostOne(init, p);
      if EdibleAt(ds[|ds| - 1], p) {
        forall i | 0 <= i < |init| ensures !EdibleAt(init[i], p) {
          assert Before(ds[i], ds[|ds| - 1]);
        }
        EdibleCountPositive(init, p);
      }
    }
  }
}
