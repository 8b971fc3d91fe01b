# Game of Life engine, modelled in Dafny

A model of the simulation engine of `game_of_life.c`, a terminal Game of
Life (birth on 3, survival on 2 or 3) on a wrap-around grid of 23 x 78 cells
drawn inside a 25 x 80 box. The model covers:

- the cell rule `is_alive`, which takes the live count of the whole 3x3
  window (the cell itself included) and takes the cell out of the count only
  when it is live (`rules.dfy`);
- the window count of `check_cell`, whose wrap-around patches an index of -1
  to the last row/column and an index equal to the size to 0, one step and no
  more (`torus.dfy`, `torus_facts.dfy`);
- the generation step inside `play`: a nested loop that fills `next_field`
  from `current_field`, then a nested loop that copies `next_field` back,
  cell by cell, over two `array2<int>` buffers (`simulation.dfy`);
- the speed and quit switch of `input` and the `while (is_playing)` loop
  that drives it, starting at 30 ms and playing (`controller.dfy`,
  `simulation.dfy`);
- the characters `draw` puts on screen (`display.dfy`) and the choice of
  the start file in `choose_start` (`startup.dfy`).

Pure parts are functions and lemmas on values: a field is a `seq<seq<int>>`
(nonzero means live, as in the C `if (field[row][col])`). The parts that
update state in place are the class `Simulation.Game`, which holds the two
buffers, the delay `milisec` and the playing flag; `Torus.CheckCell` and
`Display.Draw` keep the loops of `check_cell` and `draw` as methods, proved
against the functions `Torus.NextCell` and `Display.Screen`.

The window count is stated independently of the code's wrap-around: the
function `Torus.WindowCount` takes every position modulo the size, while
`Torus.CheckCell` keeps the loop of `check_cell`, which patches only an
index of -1 and an index equal to the size; `Torus.Wrap` proves the two agree
on every index the loop forms. On fields of one or two rows (or columns) the
window reaches some cells more than once and counts them each time, exactly
as the C loop does (`TorusFacts.OneRowCountedThrice`, `TorusFacts.SingleCell`).

Behaviour of the code worth knowing when reading the model:

- Delay range. Halving is allowed from 10 down, so 30 -> 15 -> 7, and
  doubling stops above 250, so the largest delay is 480. The delays a run
  from 30 ms can end with are exactly 7, 15 and their doublings up to 448
  and 480: every run stays among them (`Controller.DriveStaysReachable`) and
  each of the thirteen is reached by some sequence of keys
  (`Controller.ReachableIsReached`, `Controller.ReachableExactly`).
- Buffer exchange. `play` copies `next_field` into `current_field` and never
  swaps the buffers, so after a step both buffers hold the new generation
  (`Simulation.Game.Step`, `Simulation.Game.Play`).
- Drawing. A cell is drawn as `0` only when its value is exactly 1
  (`field[i-1][j-1] == 1`), while the rule treats every nonzero value as
  live; only an initial field read from standard input can hold other values.

## Model

| member | source | states |
|---|---|---|
| Rules.IsAlive | game_of_life.c:122-139 | The result is always 0 or 1, and it is 1 exactly when the classic rule holds for the true neighbour count: the window count minus one for a live (nonzero) cell, the window count itself for a dead cell. |
| Rules.ExcludingCentreAgrees | game_of_life.c:122-139 | Counting the centre and taking it off again for a live cell gives the same next state as scanning only the eight neighbours and applying the classic rule. |
| Rules.RuleTable | game_of_life.c:122-139 | For every neighbour count 0..8: a live cell survives exactly with 2 or 3 neighbours, a dead cell is born exactly with 3. |
| Torus.Wrap | game_of_life.c:106-113 | The one-step patching of an index in [-1, n] lands in [0, n) and equals the index modulo n, so no array access of the window is out of bounds. |
| Torus.WindowCount | game_of_life.c:103-118 | The count over the 3x3 window is between 0 and 9. |
| Torus.NextCell | game_of_life.c:103-120 | The next state of a cell is 0 or 1, and 1 exactly when the classic rule holds for the window count less the cell itself. |
| Torus.CheckCell | game_of_life.c:103-120 | The nested loop with its index patching returns the rule applied to the centre cell and to the number of nonzero cells among the nine wrapped window positions. |
| Torus.Generation | game_of_life.c:86-90 | The next generation has the same shape and every cell is the next state computed from the old field alone. |
| TorusFacts.WindowNine | game_of_life.c:104-118 | The window count is the sum, over the nine positions (y+dy, x+dx) with dy, dx in {-1,0,1} taken modulo the field's size, of 1 for each nonzero cell, centre included. |
| TorusFacts.OneRowCountedThrice | game_of_life.c:106-114 | On a field of one row the window reaches that row three times and counts each of its live cells three times. |
| TorusFacts.SingleCell | game_of_life.c:103-139 | On a 1x1 field the window count is nine times the cell, so a live cell sees eight neighbours and dies and a dead one stays dead. |
| TorusFacts.DeadStaysDead | game_of_life.c:86-90 | A step of an all-dead field gives the all-dead field. |
| TorusFacts.DeadForever | game_of_life.c:83-95 | An all-dead field stays all dead after any number of generations. |
| TorusFacts.BlockIsStill | game_of_life.c:86-95 | A 2x2 block on a 4x4 torus is unchanged by a step. |
| TorusFacts.BlockForever | game_of_life.c:83-95 | The 2x2 block on a 4x4 torus is unchanged after any number of generations. |
| Controller.Respond | game_of_life.c:174-193 | Key 50 halves the delay if it is at least 10; key 49 doubles it if it is at most 250; key 113 clears the playing flag; every other key and every guarded-off case leaves both unchanged; the flag is never set again. |
| Controller.RespondKeepsRange | game_of_life.c:176-184 | A delay in [5, 500] is still in [5, 500] after any key. |
| Controller.Drive | game_of_life.c:79-99 | The loop runs no more iterations than there are keys, and runs none exactly when it starts stopped or has no key. |
| Controller.DriveKeepsRange | game_of_life.c:79-99 | Through any run of the loop a delay in [5, 500] stays in [5, 500]. |
| Controller.DriveStaysReachable | game_of_life.c:176-184 | A delay that is 7 or 15 times a power of two (up to 448 and 480) stays such through any run of the loop. |
| Controller.DriveSnoc | game_of_life.c:83-96 | A run still playing after some keys, given one more key, runs one more iteration and ends with the controls that key gives. |
| Controller.ReachableIsReached | game_of_life.c:176-184 | For each of the thirteen delays 7, 15 and their doublings up to 448 and 480, a run from 30 ms on a fixed sequence of keys ends with that delay and still playing. |
| Controller.ReachableExactly | game_of_life.c:176-184 | A delay is one of those thirteen exactly when some sequence of keys leads the loop from 30 ms to it. |
| Controller.DelayFromStart | game_of_life.c:79 | Starting from 30 ms, the delay is always between 7 and 480, so it never reaches 0. |
| Controller.QuitEndsLoop | game_of_life.c:83-96 | If the first quit key is key number q, the loop runs exactly q + 1 iterations and ends with the flag clear. |
| Controller.NoQuitRunsOn | game_of_life.c:83-96 | Without a quit key the loop runs once per key and is still playing afterwards. |
| Controller.KeysAfterQuitIgnored | game_of_life.c:187-188 | Once the loop has stopped on a quit, keys that come later change neither the number of iterations nor the controls. |
| Display.InteriorGlyph | game_of_life.c:144-149 | Inside the border the character is `0` exactly when the cell under it is 1, and a blank exactly otherwise. |
| Display.BorderGlyph | game_of_life.c:150-157 | On the border the corners are `+`, the rest of the top and bottom rows `-`, the rest of the side columns a vertical bar, and no border character is one a cell can show. |
| Display.ScreenLayout | game_of_life.c:141-162 | The screen has one line of sizeX characters per row of the box, each the glyph of its position, followed by the control-keys caption. |
| Display.FilmAt | game_of_life.c:83-85 | The m-th screen drawn by the loop shows generation m of the initial field. |
| Display.Draw | game_of_life.c:141-162 | The nested loop over the box builds exactly the screen of the field in the buffer. |
| Startup.ChooseStart | game_of_life.c:221-251 | Key 64 reads standard input; keys 50 to 53 pick `file_2.txt` to `file_5.txt`; any other key picks `file_1.txt`. |
| Simulation.Game.constructor | game_of_life.c:40-46 | Two fresh, distinct buffers of the given size; the first holds the initial field, the second is all dead; the delay is 30 and the game is playing. |
| Simulation.Game.ComputeNext | game_of_life.c:86-90 | After the first nested loop `next` holds the next generation of `current`, and `current` is untouched. |
| Simulation.Game.CopyBack | game_of_life.c:91-95 | After the second nested loop `current` equals `next` cell by cell. |
| Simulation.Game.Step | game_of_life.c:86-95 | After a step both buffers hold the next generation of the old `current`. |
| Simulation.Game.Input | game_of_life.c:169-194 | The delay and the flag become what `Controller.Respond` gives for the old values and the key. |
| Simulation.Game.Iteration | game_of_life.c:84-96 | One pass of the loop returns the screen of the old `current`, leaves both buffers holding its next generation, and sets the delay and flag to what `Controller.Respond` gives for the key. |
| Simulation.Game.Play | game_of_life.c:78-101 | Starting at 30 ms and playing, the loop runs as many iterations as `Controller.Drive` gives for the keys, ends with its delay and flag, leaves `current` advanced by that many generations, draws one screen per iteration showing each generation in turn, and after at least one iteration both buffers hold the same field. |

## Left out

- Terminal I/O: `initscr`, `nodelay`, `noecho`, `clear`, `refresh`,
  `endwin`, `system("stty raw")` and `getch` are not modelled. The key read
  on each iteration is an input: `Simulation.Game.Play` takes the sequence
  of keys `getch` returns, one per iteration, with its result already
  narrowed to a `char` code (a "no key" result matches no command).
- `printw` output is modelled as the list of lines `draw` would print
  (`Display.Screen`), not as terminal writes.
- Simulation.Game.Play: the C loop runs until the quit key and can run
  forever; the model also stops when the given key sequence runs out, so it
  describes every finite prefix of a run.
- `msleep` / `usleep` pacing is timing only and is left out.
- `read_file`, `read_stdin` and the `freopen` of `/dev/tty` do file and
  stdin I/O (and `read_file` leaves its character uninitialised at end of
  file); the constructor of `Simulation.Game` takes the loaded field instead.
- `alloc_memory` and `clear_memory`: Dafny allocates and reclaims the
  buffers; the constructor stands for the two `calloc` calls.
- `print_start_menu` (fixed text) and `main` (wiring with the 25 x 80 box)
  are not modelled.
- The glider scenario (a glider back in shape after four generations) is
  not proved. The still 2x2 block, on a 4x4 torus only, and the all-dead
  field of any size are proved instead.
- The playing flag is a `bool`; the C `int` only ever holds 1 or 0.
- Integer widths: counts stay within 0..9 and the delay within 7..480, so
  no C `int` overflows; the model uses unbounded integers. The halving of
  `milisec` only happens on values of at least 10, where C's truncating
  division and Dafny's division agree.
