/** The speed and quit control of game_of_life.c: the delay between
    generations in milliseconds and the playing flag, changed one key at a
    time, and the main loop's use of them. */
module Controller {

  /** Key codes recognised by `input`. */
  const SpeedUp := 50    // '2'
  const SlowDown := 49   // '1'
  const Quit := 113      // 'q'

  /** The delay and flag `play` starts with. */
  const InitialDelay := 30

  datatype Controls = Controls(delay: int, playing: bool)

  const Start := Controls(InitialDelay, true)

  /** The key switch of `input`. The delay only ever halves (when at least
      10) or doubles (when at most 250); the playing flag can only be
      cleared, and only by the quit key. */
  function Respond(c: Controls, key: int): (d: Controls)
    ensures d.playing <==> c.playing && key != Quit
    ensures key == SpeedUp ==> d.delay == (if c.delay >= 10 then c.delay / 2 else c.delay)
    ensures key == SlowDown ==> d.delay == (if c.delay <= 250 then c.delay * 2 else c.delay)
    ensures key != SpeedUp && key != SlowDown ==> d.delay == c.delay
  {
    if key == SpeedUp then
      if c.delay >= 10 then c.(delay := c.delay / 2) else c
    else if key == SlowDown then
      if c.delay <= 250 then c.(delay := c.delay * 2) else c
    else if key == Quit then
      c.(playing := false)
    else
      c
  }

  predicate InRange(delay: int) {
    5 <= delay <= 500
  }

  /** A delay in [5, 500] stays there whatever the key. */
  lemma RespondKeepsRange(c: Controls, key: int)
    requires InRange(c.delay)
    ensures InRange(Respond(c, key).delay)
  {
  }

  /** The `while (is_playing)` loop of `play`, fed one key per iteration:
      it stops once the flag is clear or the keys run out, and yields the
      final controls and the number of iterations it ran. */
  function Drive(c: Controls, keys: seq<int>): (r: (Controls, nat))
    ensures r.1 <= |keys|
    ensures r.1 == 0 <==> !c.playing || keys == []
    decreases |keys|
  {
    if !c.playing || keys == [] then (c, 0)
    else
      var rest := Drive(Respond(c, keys[0]), keys[1..]);
      (rest.0, rest.1 + 1)
  }

  /** One iteration of the loop, taken off the front of a run. */
  lemma DriveUnfold(c: Controls, keys: seq<int>)
    requires c.playing && keys != []
    ensures Drive(c, keys).0 == Drive(Respond(c, keys[0]), keys[1..]).0
    ensures Drive(c, keys).1 == Drive(Respond(c, keys[0]), keys[1..]).1 + 1
  {
  }

  /** The delay stays in [5, 500] through any run of the loop. */
  lemma {:induction false} DriveKeepsRange(c: Controls, keys: seq<int>)
    requires InRange(c.delay)
    ensures InRange(Drive(c, keys).0.delay)
    decreases |keys|
  {
    if c.playing && keys != [] {
      RespondKeepsRange(c, keys[0]);
      DriveKeepsRange(Respond(c, keys[0]), keys[1..]);
    }
  }

  /** The delays reachable from the initial 30 ms: 7, 15 and their doublings
      up to 448 and 480. */
  predicate Reachable(delay: int) {
    delay in {7, 14, 28, 56, 112, 224, 448, 15, 30, 60, 120, 240, 480}
  }

  lemma {:induction false} DriveStaysReachable(c: Controls, keys: seq<int>)
    requires Reachable(c.delay)
    ensures Reachable(Drive(c, keys).0.delay)
    decreases |keys|
  {
    if c.playing && keys != [] {
      DriveStaysReachable(Respond(c, keys[0]), keys[1..]);
    }
  }

  /** From the start state the delay is never below 7 ms nor above 480 ms,
      so in particular it never reaches 0. */
  lemma DelayFromStart(keys: seq<int>)
    ensures 7 <= Drive(Start, keys).0.delay <= 480
  {
    DriveStaysReachable(Start, keys);
  }

  /** A sequence of keys that takes the delay from 30 ms to `delay`:
      halve to reach 15 and 7, then double. */
  function KeysTo(delay: int): seq<int>
    requires Reachable(delay)
  {
    if delay == 30 then []
    else if delay == 15 then [SpeedUp]
    else if delay == 7 then [SpeedUp, SpeedUp]
    else KeysTo(delay / 2) + [SlowDown]
  }

  /** A run that is still playing, extended by one more key, takes one
      more iteration and applies that key. */
  lemma {:induction false} DriveSnoc(c: Controls, keys: seq<int>, key: int)
    requires Drive(c, keys).0.playing
    ensures Drive(c, keys + [key]).0 == Respond(Drive(c, keys).0, key)
    ensures Drive(c, keys + [key]).1 == Drive(c, keys).1 + 1
    decreases |keys|
  {
    if keys == [] {
      assert keys + [key] == [key];
    } else {
      assert (keys + [key])[1..] == keys[1..] + [key];
      DriveSnoc(Respond(c, keys[0]), keys[1..], key);
    }
  }

  /** Every delay of the thirteen is reached by some run from the start,
      and the run is still playing. */
  lemma {:induction false} ReachableIsReached(delay: int)
    requires Reachable(delay)
    ensures Drive(Start, KeysTo(delay)).0 == Controls(delay, true)
    decreases delay
  {
    if delay == 15 {
      assert KeysTo(15) == [SpeedUp];
    } else if delay == 7 {
      assert KeysTo(7) == [SpeedUp, SpeedUp];
      assert KeysTo(7)[1..] == [SpeedUp];
    } else if delay != 30 {
      ReachableIsReached(delay / 2);
      DriveSnoc(Start, KeysTo(delay / 2), SlowDown);
    }
  }

  /** The delays the loop can end with, starting from 30 ms, are exactly
      the thirteen values of `Reachable`. */
  lemma ReachableExactly(delay: int)
    ensures Reachable(delay) <==> exists keys :: Drive(Start, keys).0.delay == delay
  {
    if Reachable(delay) {
      ReachableIsReached(delay);
    }
    if exists keys :: Drive(Start, keys).0.delay == delay {
      var keys :| Drive(Start, keys).0.delay == delay;
      DriveStaysReachable(Start, keys);
    }
  }

  /** The loop runs exactly up to and including the first quit key, and
      ends with the flag clear. */
  lemma {:induction false} QuitEndsLoop(c: Controls, keys: seq<int>, q: nat)
    requires c.playing && q < |keys| && keys[q] == Quit
    requires forall i :: 0 <= i < q ==> keys[i] != Quit
    ensures Drive(c, keys).1 == q + 1
    ensures !Drive(c, keys).0.playing
    decreases q
  {
    if q > 0 {
      QuitEndsLoop(Respond(c, keys[0]), keys[1..], q - 1);
    }
  }

  /** Without a quit key the loop consumes every key and keeps playing. */
  lemma {:induction false} NoQuitRunsOn(c: Controls, keys: seq<int>)
    requires c.playing
    requires forall i :: 0 <= i < |keys| ==> keys[i] != Quit
    ensures Drive(c, keys).1 == |keys|
    ensures Drive(c, keys).0.playing
    decreases |keys|
  {
    if keys != [] {
      NoQuitRunsOn(Respond(c, keys[0]), keys[1..]);
    }
  }

  /** Once the loop has stopped on a quit, later keys change nothing: no
      further iteration runs, whatever they are. */
  lemma {:induction false} KeysAfterQuitIgnored(c: Controls, keys: seq<int>, later: seq<int>)
    requires !Drive(c, keys).0.playing
    ensures Drive(c, keys + later) == Drive(c, keys)
    decreases |keys|
  {
    if c.playing {
      assert keys != [];
      assert (keys + later)[1..] == keys[1..] + later;
      KeysAfterQuitIgnored(Respond(c, keys[0]), keys[1..], later);
    }
  }
}
