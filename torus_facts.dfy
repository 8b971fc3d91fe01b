/** Facts about the window count and the generation step: the nine
    positions of the window, multiplicity on tiny fields, and still fields. */
module TorusFacts {
  import opened Rules
  import opened Torus

  lemma {:induction false} DeadRowSpan(rows: int, cols: int, row: int, lo: int, hi: int)
    requires rows >= 1 && cols >= 1 && 0 <= row < rows
    ensures RowSpan(Dead(rows, cols), rows, cols, row, lo, hi) == 0
    decreases hi - lo
  {
    if lo < hi {
      DeadRowSpan(rows, cols, row, lo, hi - 1);
    }
  }

  lemma {:induction false} DeadWindowRows(rows: int, cols: int, lo: int, hi: int, x: int)
    requires rows >= 1 && cols >= 1
    ensures WindowRows(Dead(rows, cols), rows, cols, lo, hi, x) == 0
    decreases hi - lo
  {
    if lo < hi {
      DeadWindowRows(rows, cols, lo, hi - 1, x);
      DeadRowSpan(rows, cols, (hi - 1) % rows, x - 1, x + 2);
    }
  }

  /** The window count is the number of nonzero cells among the nine
      positions (y + dy, x + dx), dy and dx in {-1, 0, 1}, taken modulo the
      field's size, each position counted once per time it is reached. */
  lemma WindowNine(g: Field, rows: int, cols: int, y: int, x: int)
    requires Shaped(g, rows, cols)
    ensures WindowCount(g, rows, cols, y, x) ==
      Live(g[(y - 1) % rows][(x - 1) % cols]) + Live(g[(y - 1) % rows][x % cols]) + Live(g[(y - 1) % rows][(x + 1) % cols]) +
      Live(g[y % rows][(x - 1) % cols]) + Live(g[y % rows][x % cols]) + Live(g[y % rows][(x + 1) % cols]) +
      Live(g[(y + 1) % rows][(x - 1) % cols]) + Live(g[(y + 1) % rows][x % cols]) + Live(g[(y + 1) % rows][(x + 1) % cols])
  {
    RowThree(g, rows, cols, (y - 1) % rows, x);
    RowThree(g, rows, cols, y % rows, x);
    RowThree(g, rows, cols, (y + 1) % rows, x);
    assert WindowRows(g, rows, cols, y - 1, y, x) ==
      RowSpan(g, rows, cols, (y - 1) % rows, x - 1, x + 2);
    assert WindowRows(g, rows, cols, y - 1, y + 1, x) ==
      WindowRows(g, rows, cols, y - 1, y, x) + RowSpan(g, rows, cols, y % rows, x - 1, x + 2);
  }

  lemma RowThree(g: Field, rows: int, cols: int, row: int, x: int)
    requires Shaped(g, rows, cols) && 0 <= row < rows
    ensures RowSpan(g, rows, cols, row, x - 1, x + 2) ==
      Live(g[row][(x - 1) % cols]) + Live(g[row][x % cols]) + Live(g[row][(x + 1) % cols])
  {
    assert RowSpan(g, rows, cols, row, x - 1, x + 1) ==
      Live(g[row][(x - 1) % cols]) + Live(g[row][x % cols]);
  }

  /** A dead field stays dead: nothing is born from nothing. */
  lemma DeadStaysDead(rows: int, cols: int)
    requires rows >= 1 && cols >= 1
    ensures Generation(Dead(rows, cols), rows, cols) == Dead(rows, cols)
  {
    var g := Dead(rows, cols);
    forall i, j | 0 <= i < rows && 0 <= j < cols
      ensures Generation(g, rows, cols)[i][j] == g[i][j]
    {
      DeadWindowRows(rows, cols, i - 1, i + 2, j);
    }
    SameCells(Generation(g, rows, cols), g, rows, cols);
  }

  lemma {:induction false} DeadForever(rows: int, cols: int, n: nat)
    requires rows >= 1 && cols >= 1
    ensures Evolve(Dead(rows, cols), rows, cols, n) == Dead(rows, cols)
  {
    if n > 0 {
      DeadForever(rows, cols, n - 1);
      DeadStaysDead(rows, cols);
    }
  }

  /** On a field of one row the window visits that row three times, so every
      live cell of it is counted three times. */
  lemma OneRowCountedThrice(g: Field, cols: int, x: int)
    requires Shaped(g, 1, cols)
    ensures WindowCount(g, 1, cols, 0, x) == 3 * RowSpan(g, 1, cols, 0, x - 1, x + 2)
  {
    assert WindowRows(g, 1, cols, -1, 0, x) == RowSpan(g, 1, cols, 0, x - 1, x + 2);
    assert WindowRows(g, 1, cols, -1, 1, x) == 2 * RowSpan(g, 1, cols, 0, x - 1, x + 2);
  }

  /** On a 1x1 field the window is the one cell nine times: a live cell
      sees itself as eight neighbours and dies, a dead one stays dead. */
  lemma SingleCell(v: int)
    ensures WindowCount([[v]], 1, 1, 0, 0) == 9 * Live(v)
    ensures Generation([[v]], 1, 1) == [[0]]
  {
    var g := [[v]];
    assert RowSpan(g, 1, 1, 0, -1, 2) == 3 * Live(v) by {
      assert RowSpan(g, 1, 1, 0, -1, 0) == Live(v);
      assert RowSpan(g, 1, 1, 0, -1, 1) == 2 * Live(v);
    }
    OneRowCountedThrice(g, 1, 0);
    SameCells(Generation(g, 1, 1), [[0]], 1, 1);
  }

  /** The 2x2 block in the corner of a 4x4 torus. */
  function Block(): Field {
    [[1, 1, 0, 0], [1, 1, 0, 0], [0, 0, 0, 0], [0, 0, 0, 0]]
  }

  lemma BlockRow0(j: int)
    requires 0 <= j < 4
    ensures NextCell(Block(), 4, 4, 0, j) == Block()[0][j]
  {
    var g := Block();
    assert Shaped(g, 4, 4);
    if j == 0 { WindowNine(g, 4, 4, 0, 0); }
    else if j == 1 { WindowNine(g, 4, 4, 0, 1); }
    else if j == 2 { WindowNine(g, 4, 4, 0, 2); }
    else { WindowNine(g, 4, 4, 0, 3); }
  }

  lemma BlockRow1(j: int)
    requires 0 <= j < 4
    ensures NextCell(Block(), 4, 4, 1, j) == Block()[1][j]
  {
    var g := Block();
    assert Shaped(g, 4, 4);
    if j == 0 { WindowNine(g, 4, 4, 1, 0); }
    else if j == 1 { WindowNine(g, 4, 4, 1, 1); }
    else if j == 2 { WindowNine(g, 4, 4, 1, 2); }
    else { WindowNine(g, 4, 4, 1, 3); }
  }

  lemma BlockRow2(j: int)
    requires 0 <= j < 4
    ensures NextCell(Block(), 4, 4, 2, j) == Block()[2][j]
  {
    var g := Block();
    assert Shaped(g, 4, 4);
    if j == 0 { WindowNine(g, 4, 4, 2, 0); }
    else if j == 1 { WindowNine(g, 4, 4, 2, 1); }
    else if j == 2 { WindowNine(g, 4, 4, 2, 2); }
    else { WindowNine(g, 4, 4, 2, 3); }
  }

  lemma BlockRow3(j: int)
    requires 0 <= j < 4
    ensures NextCell(Block(), 4, 4, 3, j) == Block()[3][j]
  {
    var g := Block();
    assert Shaped(g, 4, 4);
    if j == 0 { WindowNine(g, 4, 4, 3, 0); }
    else if j == 1 { WindowNine(g, 4, 4, 3, 1); }
    else if j == 2 { WindowNine(g, 4, 4, 3, 2); }
    else { WindowNine(g, 4, 4, 3, 3); }
  }

  /** The block is a still life: every generation equals the first. */
  lemma BlockIsStill()
    ensures Generation(Block(), 4, 4) == Block()
  {
    var g := Block();
    assert Shaped(g, 4, 4);
    forall i, j | 0 <= i < 4 && 0 <= j < 4
      ensures NextCell(g, 4, 4, i, j) == g[i][j]
    {
      if i == 0 { BlockRow0(j); }
      else if i == 1 { BlockRow1(j); }
      else if i == 2 { BlockRow2(j); }
      else { BlockRow3(j); }
    }
    SameCells(Generation(g, 4, 4), g, 4, 4);
  }

  lemma {:induction false} BlockForever(n: nat)
    ensures Evolve(Block(), 4, 4, n) == Block()
  {
    if n > 0 {
      BlockForever(n - 1);
      BlockIsStill();
    }
  }
}
