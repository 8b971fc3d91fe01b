/** The `play` routine of game_of_life.c: two grid buffers of the same
    size, the delay and the playing flag, and the loop that draws, steps and
    reads a key until the quit key arrives. */
module Simulation {
  import opened Torus
  import opened Controller
  import opened Display

  class Game {
    const rows: int
    const cols: int
    /** `current_field`: the generation on screen. */
    const current: array2<int>
    /** `next_field`: the buffer the next generation is written into. */
    const next: array2<int>
    var milisec: int
    var playing: bool

    ghost predicate Valid() {
      rows >= 1 && cols >= 1 && current != next &&
      current.Length0 == rows && current.Length1 == cols &&
      next.Length0 == rows && next.Length1 == cols
    }

    /** Allocates both buffers (the second one all dead, as `calloc` leaves
        it) and loads the initial pattern into the first. */
    constructor (init: Field, rows: int, cols: int)
      requires Shaped(init, rows, cols)
      ensures Valid() && this.rows == rows && this.cols == cols
      ensures fresh(current) && fresh(next)
      ensures Cells(current) == init && Cells(next) == Dead(rows, cols)
      ensures Controls(milisec, playing) == Start
    {
      this.rows, this.cols := rows, cols;
      current := new int[rows, cols]((i, j) requires 0 <= i < rows && 0 <= j < cols => init[i][j]);
      next := new int[rows, cols]((i, j) => 0);
      milisec, playing := InitialDelay, true;
      new;
      SameCells(Cells(current), init, rows, cols);
      SameCells(Cells(next), Dead(rows, cols), rows, cols);
    }

    /** The first nested loop of a step: every cell of `next` becomes the
        rule applied to `current`, which is only read. */
    method ComputeNext()
      requires Valid()
      modifies next
      ensures unchanged(current)
      ensures Cells(next) == Generation(Cells(current), rows, cols)
    {
      ghost var g := Cells(current);
      for row := 0 to rows
        invariant forall i, j :: 0 <= i < row && 0 <= j < cols ==> next[i, j] == NextCell(g, rows, cols, i, j)
      {
        for col := 0 to cols
          invariant forall i, j :: 0 <= i < row && 0 <= j < cols ==> next[i, j] == NextCell(g, rows, cols, i, j)
          invariant forall j :: 0 <= j < col ==> next[row, j] == NextCell(g, rows, cols, row, j)
        {
          next[row, col] := CheckCell(current, row, col, rows, cols);
        }
      }
      SameCells(Cells(next), Generation(g, rows, cols), rows, cols);
    }

    /** The second nested loop of a step: `next` is copied cell by cell into
        `current` (a copy, not an exchange of the buffers). */
    method CopyBack()
      requires Valid()
      modifies current
      ensures Cells(current) == Cells(next)
    {
      for r := 0 to rows
        invariant forall i, j :: 0 <= i < r && 0 <= j < cols ==> current[i, j] == next[i, j]
      {
        for c := 0 to cols
          invariant forall i, j :: 0 <= i < r && 0 <= j < cols ==> current[i, j] == next[i, j]
          invariant forall j :: 0 <= j < c ==> current[r, j] == next[r, j]
        {
          current[r, c] := next[r, c];
        }
      }
      SameCells(Cells(current), Cells(next), rows, cols);
    }

    /** One generation: afterwards both buffers hold the rule applied to
        the old contents of `current`. */
    method Step()
      requires Valid()
      modifies current, next
      ensures Cells(current) == Generation(old(Cells(current)), rows, cols)
      ensures Cells(next) == Cells(current)
    {
      ComputeNext();
      CopyBack();
    }

    /** `input`: the key switch applied to the delay and the flag. */
    method Input(key: int)
      modifies this`milisec, this`playing
      ensures Controls(milisec, playing) == Respond(old(Controls(milisec, playing)), key)
    {
      if key == SpeedUp {
        if milisec >= 10 {
          milisec := milisec / 2;
        }
      } else if key == SlowDown {
        if milisec <= 250 {
          milisec := milisec * 2;
        }
      } else if key == Quit {
        playing := false;
      }
    }

    /** One iteration of the loop of `play`: draw the current generation,
        step both buffers to the next one and apply one key. */
    method Iteration(key: int) returns (screen: seq<string>)
      requires Valid()
      modifies this`milisec, this`playing, current, next
      ensures screen == Screen(old(Cells(current)), rows + 2, cols + 2)
      ensures Cells(current) == Generation(old(Cells(current)), rows, cols)
      ensures Cells(next) == Cells(current)
      ensures Controls(milisec, playing) == Respond(old(Controls(milisec, playing)), key)
    {
      screen := Draw(current, rows + 2, cols + 2);
      Step();
      Input(key);
    }

    /** `play`: starting at 30 ms and playing, each iteration draws the
        current generation, steps it and reads one key from `keys`. It
        returns the screens drawn, one per generation run. Every screen
        shows a whole generation, the loop runs exactly as `Drive` says, and
        the final field is the initial one advanced that many times. */
    method Play(keys: seq<int>) returns (frames: seq<seq<string>>)
      requires Valid()
      modifies this`milisec, this`playing, current, next
      ensures (Controls(milisec, playing), |frames|) == Drive(Start, keys)
      ensures Cells(current) == Evolve(old(Cells(current)), rows, cols, |frames|)
      ensures frames == Film(old(Cells(current)), rows, cols, |frames|)
      ensures |frames| > 0 ==> Cells(next) == Cells(current)
    {
      ghost var g0 := Cells(current);
      milisec, playing := InitialDelay, true;
      frames := [];
      var k := 0;
      while playing && k < |keys|
        invariant 0 <= k <= |keys| && |frames| == k
        invariant Cells(current) == Evolve(g0, rows, cols, k)
        invariant frames == Film(g0, rows, cols, k)
        invariant k > 0 ==> Cells(next) == Cells(current)
        invariant Drive(Start, keys).0 == Drive(Controls(milisec, playing), keys[k..]).0
        invariant Drive(Start, keys).1 == Drive(Controls(milisec, playing), keys[k..]).1 + k
        decreases |keys| - k
      {
        DriveUnfold(Controls(milisec, playing), keys[k..]);
        assert keys[k..][1..] == keys[k + 1..];
        var screen := Iteration(keys[k]);
        frames := frames + [screen];
        k := k + 1;
      }
    }
  }
}
