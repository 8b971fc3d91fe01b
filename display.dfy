/** The screen drawn by `draw` in game_of_life.c: a bordered box of
    sizeY x sizeX characters whose interior shows the field, then a line of
    control hints. */
module Display {
  import opened Torus

  const Caption := "Control keys: q - exit, 1 - decrease speed, 2 - increase speed "

  predicate Interior(i: int, j: int, sizeY: int, sizeX: int) {
    1 <= i <= sizeY - 2 && 1 <= j <= sizeX - 2
  }

  predicate Corner(i: int, j: int, sizeY: int, sizeX: int) {
    (i == 0 && j == 0) || (i == sizeY - 1 && j == sizeX - 1) ||
    (i == sizeY - 1 && j == 0) || (i == 0 && j == sizeX - 1)
  }

  /** The character at row i, column j of the box. */
  function Glyph(g: Field, i: int, j: int, sizeY: int, sizeX: int): char
    requires Shaped(g, sizeY - 2, sizeX - 2)
    requires 0 <= i < sizeY && 0 <= j < sizeX
  {
    if Interior(i, j, sizeY, sizeX) then
      if g[i - 1][j - 1] == 1 then '0' else ' '
    else if Corner(i, j, sizeY, sizeX) then '+'
    else if i == 0 || i == sizeY - 1 then '-'
    else if j == 0 || j == sizeX - 1 then '|'
    else assert false; ' '
  }

  /** Inside the border a cell shows '0' exactly when its value is 1 and a
      blank otherwise (a live cell with any other nonzero value is blank). */
  lemma InteriorGlyph(g: Field, i: int, j: int, sizeY: int, sizeX: int)
    requires Shaped(g, sizeY - 2, sizeX - 2)
    requires Interior(i, j, sizeY, sizeX)
    ensures Glyph(g, i, j, sizeY, sizeX) == '0' <==> g[i - 1][j - 1] == 1
    ensures Glyph(g, i, j, sizeY, sizeX) == ' ' <==> g[i - 1][j - 1] != 1
  {
  }

  /** The border: '+' at the four corners, '-' along the top and bottom,
      '|' along the sides; never a character that a cell can show. */
  lemma BorderGlyph(g: Field, i: int, j: int, sizeY: int, sizeX: int)
    requires Shaped(g, sizeY - 2, sizeX - 2)
    requires 0 <= i < sizeY && 0 <= j < sizeX && !Interior(i, j, sizeY, sizeX)
    ensures Corner(i, j, sizeY, sizeX) ==> Glyph(g, i, j, sizeY, sizeX) == '+'
    ensures !Corner(i, j, sizeY, sizeX) && (i == 0 || i == sizeY - 1) ==> Glyph(g, i, j, sizeY, sizeX) == '-'
    ensures !Corner(i, j, sizeY, sizeX) && 0 < i < sizeY - 1 ==> Glyph(g, i, j, sizeY, sizeX) == '|'
    ensures Glyph(g, i, j, sizeY, sizeX) != '0' && Glyph(g, i, j, sizeY, sizeX) != ' '
  {
  }

  /** The full output of `draw` for field `g`: sizeY lines of sizeX
      glyphs, then the caption. */
  function Screen(g: Field, sizeY: int, sizeX: int): seq<string>
    requires Shaped(g, sizeY - 2, sizeX - 2)
  {
    seq(sizeY, i requires 0 <= i < sizeY =>
      seq(sizeX, j requires 0 <= j < sizeX => Glyph(g, i, j, sizeY, sizeX))) + [Caption]
  }

  /** The screen has sizeY lines of sizeX characters, each the glyph of its
      position, and ends with the caption. */
  lemma ScreenLayout(g: Field, sizeY: int, sizeX: int)
    requires Shaped(g, sizeY - 2, sizeX - 2)
    ensures |Screen(g, sizeY, sizeX)| == sizeY + 1 && Screen(g, sizeY, sizeX)[sizeY] == Caption
    ensures forall i :: 0 <= i < sizeY ==> |Screen(g, sizeY, sizeX)[i]| == sizeX
    ensures forall i, j :: 0 <= i < sizeY && 0 <= j < sizeX ==>
              Screen(g, sizeY, sizeX)[i][j] == Glyph(g, i, j, sizeY, sizeX)
  {
  }

  /** The screens drawn for generations 0, .., n - 1 of `g`, in order. */
  function Film(g: Field, rows: int, cols: int, n: nat): seq<seq<string>>
    requires Shaped(g, rows, cols)
  {
    if n == 0 then []
    else Film(g, rows, cols, n - 1) + [Screen(Evolve(g, rows, cols, n - 1), rows + 2, cols + 2)]
  }

  /** Screen m of a film shows generation m: no screen ever shows a
      half-computed generation. */
  lemma {:induction false} FilmAt(g: Field, rows: int, cols: int, n: nat, m: nat)
    requires Shaped(g, rows, cols) && m < n
    ensures |Film(g, rows, cols, n)| == n
    ensures Film(g, rows, cols, n)[m] == Screen(Evolve(g, rows, cols, m), rows + 2, cols + 2)
  {
    if m < n - 1 {
      FilmAt(g, rows, cols, n - 1, m);
    } else {
      FilmLength(g, rows, cols, n - 1);
    }
  }

  lemma {:induction false} FilmLength(g: Field, rows: int, cols: int, n: nat)
    requires Shaped(g, rows, cols)
    ensures |Film(g, rows, cols, n)| == n
  {
    if n > 0 {
      FilmLength(g, rows, cols, n - 1);
    }
  }

  /** `draw`: builds the screen line by line, choosing each character by
      position and, inside the border, by the cell under it. */
  method Draw(field: array2<int>, sizeY: int, sizeX: int) returns (screen: seq<string>)
    requires sizeY >= 3 && sizeX >= 3
    requires field.Length0 == sizeY - 2 && field.Length1 == sizeX - 2
    ensures screen == Screen(Cells(field), sizeY, sizeX)
  {
    ghost var g := Cells(field);
    screen := [];
    for i := 0 to sizeY
      invariant |screen| == i
      invariant forall k :: 0 <= k < i ==>
        |screen[k]| == sizeX &&
        forall j :: 0 <= j < sizeX ==> screen[k][j] == Glyph(g, k, j, sizeY, sizeX)
    {
      var line := "";
      for j := 0 to sizeX
        invariant |line| == j
        invariant forall m :: 0 <= m < j ==> line[m] == Glyph(g, i, m, sizeY, sizeX)
      {
        var ch: char;
        if i >= 1 && i <= sizeY - 2 && j >= 1 && j <= sizeX - 2 {
          ch := if field[i - 1, j - 1] == 1 then '0' else ' ';
        } else if (i == 0 && j == 0) || (i == sizeY - 1 && j == sizeX - 1) ||
                  (i == sizeY - 1 && j == 0) || (i == 0 && j == sizeX - 1) {
          ch := '+';
        } else if i == 0 || i == sizeY - 1 {
          ch := '-';
        } else {
          // here j is 0 or sizeX - 1
          ch := '|';
        }
        line := line + [ch];
      }
      screen := screen + [line];
    }
    screen := screen + [Caption];
    ghost var want := Screen(g, sizeY, sizeX);
    ScreenLayout(g, sizeY, sizeX);
    forall i | 0 <= i <= sizeY
      ensures screen[i] == want[i]
    {
      if i < sizeY {
        assert forall j :: 0 <= j < sizeX ==> screen[i][j] == want[i][j];
      }
    }
  }
}
