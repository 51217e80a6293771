/** The game's configuration: score threshold, lives, cell size, grid size and the
    compiled-in maze. `'#'` is a wall, `' '` an open cell that holds a dot at the start
    and `'P'` the player's start cell. */
module Constants {

  const SCORE_THRESHOLD: int := 2000
  const INITIAL_LIVES: int := 3
  /** Side of one maze cell, in pixels. */
  const CELL_SIZE: int := 20
  const MAZE_WIDTH: int := 15
  const MAZE_HEIGHT: int := 15

  /** The rows of the maze, top to bottom. The border rows are MAZE_WIDTH characters
      long; the thirteen rows between them are one character shorter. */
  const ROW_0: string := "###############"
  const ROW_1: string := "#P    #    # #"
  const ROW_2: string := "# ### # ## # #"
  const ROW_3: string := "#     #    # #"
  const ROW_4: string := "# ### #### # #"
  const ROW_5: string := "#          # #"
  const ROW_6: string := "# ######## # #"
  const ROW_7: string := "#            #"
  const ROW_8: string := "# ######## # #"
  const ROW_9: string := "#          # #"
  const ROW_10: string := "# ### #### # #"
  const ROW_11: string := "#     #    # #"
  const ROW_12: string := "# ### # ## # #"
  const ROW_13: string := "#            #"
  const ROW_14: string := "###############"
  const MAZE_LAYOUT: seq<string> := [
    ROW_0,
    ROW_1,
    ROW_2,
    ROW_3,
    ROW_4,
    ROW_5,
    ROW_6,
    ROW_7,
    ROW_8,
    ROW_9,
    ROW_10,
    ROW_11,
    ROW_12,
    ROW_13,
    ROW_14
  ]

  /** The top and bottom rows are full-width walls. */
  lemma BorderRowsAreWalls()
    ensures |MAZE_LAYOUT| == MAZE_HEIGHT
    ensures |MAZE_LAYOUT[0]| == MAZE_WIDTH && |MAZE_LAYOUT[14]| == MAZE_WIDTH
    ensures forall x :: 0 <= x < MAZE_WIDTH ==> MAZE_LAYOUT[0][x] == '#' && MAZE_LAYOUT[14][x] == '#'
  {
  }

  /** Every inner row is one character short of MAZE_WIDTH and is closed by a wall at
      both ends (columns 0 and MAZE_WIDTH - 2). */
  lemma InnerRowsAreOneShort()
    ensures |MAZE_LAYOUT| == MAZE_HEIGHT
    ensures forall y :: 1 <= y < MAZE_HEIGHT - 1 ==>
      |MAZE_LAYOUT[y]| == MAZE_WIDTH - 1 &&
      MAZE_LAYOUT[y][0] == '#' && MAZE_LAYOUT[y][MAZE_WIDTH - 2] == '#'
  {
  }

  /** The layout uses only the three cell characters. */
  lemma LayoutAlphabet()
    ensures forall y, x :: 0 <= y < |MAZE_LAYOUT| && 0 <= x < |MAZE_LAYOUT[y]| ==>
      MAZE_LAYOUT[y][x] in {'#', ' ', 'P'}
  {
  }

  /** There is exactly one start mark, at column 1 of row 1. */
  lemma SingleStartMark()
    ensures |MAZE_LAYOUT| == MAZE_HEIGHT && |MAZE_LAYOUT[1]| > 1 && MAZE_LAYOUT[1][1] == 'P'
    ensures forall y, x :: 0 <= y < |MAZE_LAYOUT| && 0 <= x < |MAZE_LAYOUT[y]| ==>
      (MAZE_LAYOUT[y][x] == 'P' <==> x == 1 && y == 1)
  {
  }

  /** No row is longer than MAZE_WIDTH. */
  lemma RowsFitWidth()
    ensures |MAZE_LAYOUT| == MAZE_HEIGHT
    ensures forall y :: 0 <= y < |MAZE_LAYOUT| ==> |MAZE_LAYOUT[y]| <= MAZE_WIDTH
  {
  }
}
