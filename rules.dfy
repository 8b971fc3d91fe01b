/** The cell rule of Conway's Game of Life (birth on 3, survival on 2 or 3),
    in the form game_of_life.c applies it: to a count taken over the whole
    3x3 window, the cell itself included. */
module Rules {

  /** The classic rule, stated on the number of live cells among the eight
      neighbours (the cell itself not counted). */
  predicate Conway(alive: bool, neighbours: int) {
    if alive then neighbours == 2 || neighbours == 3 else neighbours == 3
  }

  /** `is_alive`: a nonzero `cell` is live; `window` counts the live cells of
      its 3x3 window including itself. A live cell first takes itself out of
      the count. The answer is the next state as 1 (live) or 0 (dead). */
  function IsAlive(cell: int, window: int): (alive: int)
    ensures alive == 0 || alive == 1
    ensures alive == 1 <==> Conway(cell != 0, if cell != 0 then window - 1 else window)
  {
    if cell != 0 then
      var neighbours := window - 1;
      if neighbours == 2 || neighbours == 3 then 1 else 0
    else
      if window == 3 then 1 else 0
  }

  /** A scan that leaves the centre out and applies the classic rule gives the
      same next state as the window count with the self-correction. */
  lemma ExcludingCentreAgrees(cell: int, neighbours: int)
    ensures IsAlive(cell, neighbours + (if cell != 0 then 1 else 0))
            == (if Conway(cell != 0, neighbours) then 1 else 0)
  {
  }

  /** The rule table over every neighbour count a cell can have. */
  lemma RuleTable(neighbours: int)
    requires 0 <= neighbours <= 8
    ensures IsAlive(1, neighbours + 1) == 1 <==> neighbours in {2, 3}
    ensures IsAlive(0, neighbours) == 1 <==> neighbours == 3
  {
  }
}
