/** The wrap-around grid of game_of_life.c and its generation step, as
    values: a field is a sequence of rows, each a sequence of cell values
    (nonzero means live). */
module Torus {
  import opened Rules

  type Field = seq<seq<int>>

  /** `g` has `rows` rows of `cols` cells each, and is not empty. */
  predicate Shaped(g: Field, rows: int, cols: int) {
    rows >= 1 && cols >= 1 && |g| == rows &&
    forall i :: 0 <= i < rows ==> |g[i]| == cols
  }

  /** The all-dead field. */
  function Dead(rows: int, cols: int): (g: Field)
    requires rows >= 1 && cols >= 1
    ensures Shaped(g, rows, cols)
    ensures forall i, j :: 0 <= i < rows && 0 <= j < cols ==> g[i][j] == 0
  {
    seq(rows, _ => seq(cols, _ => 0))
  }

  /** check_cell's wrap-around: an index one step before the start goes to
      the last place, one step past the end goes to the first. Within that
      range it agrees with (Euclidean) modulo and never leaves [0, n). */
  function Wrap(i: int, n: int): (w: int)
    requires n >= 1 && -1 <= i <= n
    ensures 0 <= w < n
    ensures w == i % n
  {
    var once := if i == -1 then n - 1 else i;
    if once == n then 0 else once
  }

  function Live(v: int): nat {
    if v != 0 then 1 else 0
  }

  /** Live cells of row `row` at columns lo, .., hi - 1, each taken modulo
      `cols`, with multiplicity. */
  function RowSpan(g: Field, rows: int, cols: int, row: int, lo: int, hi: int): (s: nat)
    requires Shaped(g, rows, cols) && 0 <= row < rows
    ensures s <= if lo <= hi then hi - lo else 0
    decreases hi - lo
  {
    if hi <= lo then 0
    else RowSpan(g, rows, cols, row, lo, hi - 1) + Live(g[row][(hi - 1) % cols])
  }

  /** Live cells of the three columns x - 1, x, x + 1 over rows lo, .., hi - 1,
      each row and column taken modulo the field's size, with multiplicity. */
  function WindowRows(g: Field, rows: int, cols: int, lo: int, hi: int, x: int): (s: nat)
    requires Shaped(g, rows, cols)
    ensures s <= if lo <= hi then 3 * (hi - lo) else 0
    decreases hi - lo
  {
    if hi <= lo then 0
    else WindowRows(g, rows, cols, lo, hi - 1, x) + RowSpan(g, rows, cols, (hi - 1) % rows, x - 1, x + 2)
  }

  /** The live cells of the 3x3 window around (y, x) on the torus, the
      centre included; on a field with fewer than three rows or columns a
      cell reached twice is counted twice. */
  function WindowCount(g: Field, rows: int, cols: int, y: int, x: int): (n: nat)
    requires Shaped(g, rows, cols)
    ensures n <= 9
  {
    WindowRows(g, rows, cols, y - 1, y + 2, x)
  }

  /** The state of cell (y, x) in the next generation. */
  function NextCell(g: Field, rows: int, cols: int, y: int, x: int): (v: int)
    requires Shaped(g, rows, cols) && 0 <= y < rows && 0 <= x < cols
    ensures v == 0 || v == 1
    ensures v == 1 <==> Conway(g[y][x] != 0, WindowCount(g, rows, cols, y, x) - Live(g[y][x]))
  {
    IsAlive(g[y][x], WindowCount(g, rows, cols, y, x))
  }

  /** One generation: every cell is updated from the old field only. */
  function Generation(g: Field, rows: int, cols: int): (h: Field)
    requires Shaped(g, rows, cols)
    ensures Shaped(h, rows, cols)
    ensures forall i, j :: 0 <= i < rows && 0 <= j < cols ==>
              h[i][j] == NextCell(g, rows, cols, i, j)
  {
    seq(rows, i requires 0 <= i < rows =>
      seq(cols, j requires 0 <= j < cols => NextCell(g, rows, cols, i, j)))
  }

  /** The field after `n` generations. */
  function Evolve(g: Field, rows: int, cols: int, n: nat): (h: Field)
    requires Shaped(g, rows, cols)
    ensures Shaped(h, rows, cols)
  {
    if n == 0 then g else Generation(Evolve(g, rows, cols, n - 1), rows, cols)
  }

  /** The contents of a two-dimensional buffer as a field. */
  ghost function Cells(a: array2<int>): (g: Field)
    reads a
    ensures |g| == a.Length0
    ensures forall i :: 0 <= i < |g| ==> |g[i]| == a.Length1
    ensures forall i, j :: 0 <= i < a.Length0 && 0 <= j < a.Length1 ==> g[i][j] == a[i, j]
  {
    seq(a.Length0, i requires 0 <= i < a.Length0 reads a =>
      seq(a.Length1, j requires 0 <= j < a.Length1 reads a => a[i, j]))
  }

  /** Two fields of one shape that agree cell by cell are equal. */
  lemma SameCells(g: Field, h: Field, rows: int, cols: int)
    requires Shaped(g, rows, cols) && Shaped(h, rows, cols)
    requires forall i, j :: 0 <= i < rows && 0 <= j < cols ==> g[i][j] == h[i][j]
    ensures g == h
  {
    forall i | 0 <= i < rows
      ensures g[i] == h[i]
    {
      assert forall j :: 0 <= j < cols ==> g[i][j] == h[i][j];
    }
  }

  /** `check_cell`: walks the 3x3 window around (posY, posX), patching an
      index of -1 or of the size back onto the grid, counts the nonzero
      cells it reaches and applies the rule to the centre cell. */
  method CheckCell(field: array2<int>, posY: int, posX: int, rows: int, cols: int) returns (alive: int)
    requires rows == field.Length0 && cols == field.Length1
    requires 0 <= posY < rows && 0 <= posX < cols
    ensures alive == NextCell(Cells(field), rows, cols, posY, posX)
  {
    ghost var g := Cells(field);
    var count := 0;
    var r := posY - 1;
    while r < posY + 2
      invariant posY - 1 <= r <= posY + 2
      invariant count == WindowRows(g, rows, cols, posY - 1, r, posX)
    {
      ghost var wr := Wrap(r, rows);
      var row := r;
      var c := posX - 1;
      while c < posX + 2
        invariant posX - 1 <= c <= posX + 2
        invariant row == r || row == wr
        invariant count == WindowRows(g, rows, cols, posY - 1, r, posX)
                           + RowSpan(g, rows, cols, wr, posX - 1, c)
      {
        var col := c;
        if row == -1 { row := rows - 1; }
        if row == rows { row := 0; }
        if col == -1 { col := cols - 1; }
        if col == cols { col := 0; }
        assert row == wr && col == Wrap(c, cols);
        assert RowSpan(g, rows, cols, wr, posX - 1, c + 1)
               == RowSpan(g, rows, cols, wr, posX - 1, c) + Live(field[row, col]);
        if field[row, col] != 0 {
          count := count + 1;
        }
        c := c + 1;
      }
      r := r + 1;
    }
    alive := IsAlive(field[posY, posX], count);
  }
}
