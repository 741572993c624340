/** The blink task of the 03-blink-led-with-tasks program (TaskBlink): each
    pass sets the LED to its remembered level, flips the remembered level and
    waits for the interval the console task last wrote. */
module RateBlink {

  const LED_STATE_ON: int := 1
  const LED_STATE_OFF: int := 1 - LED_STATE_ON

  predicate IsLevel(state: int) {
    state == LED_STATE_ON || state == LED_STATE_OFF
  }

  /** The level after a flip: ON becomes OFF, and any other remembered value
      becomes ON. */
  function Toggle(state: int): (r: int)
    ensures IsLevel(r)
    ensures IsLevel(state) ==> r != state
  {
    if state == LED_STATE_ON then LED_STATE_OFF else LED_STATE_ON
  }

  /** The levels set by n passes that start with the remembered level `state`. */
  function Levels(state: int, n: nat): (r: seq<int>)
    ensures |r| == n
    decreases n
  {
    if n == 0 then [] else [state] + Levels(Toggle(state), n - 1)
  }

  /** The LED is set OFF, ON, OFF, ON, ...: OFF on every even-numbered pass,
      ON on every odd-numbered one, and never to the same level twice in a row. */
  lemma {:induction false} LevelsAlternate(n: nat)
    ensures forall i :: 0 <= i < n ==>
      Levels(LED_STATE_OFF, n)[i] == if i % 2 == 0 then LED_STATE_OFF else LED_STATE_ON
    ensures forall i :: 0 < i < n ==> Levels(LED_STATE_OFF, n)[i] != Levels(LED_STATE_OFF, n)[i - 1]
  {
    LevelsFrom(LED_STATE_OFF, n);
  }

  lemma {:induction false} LevelsFrom(state: int, n: nat)
    requires IsLevel(state)
    ensures forall i :: 0 <= i < n ==>
      Levels(state, n)[i] == if i % 2 == 0 then state else Toggle(state)
    decreases n
  {
    if n > 0 {
      var next := Toggle(state);
      LevelsFrom(next, n - 1);
      assert Toggle(next) == state;
      forall i | 0 < i < n
        ensures Levels(state, n)[i] == if i % 2 == 0 then state else next
      {
        assert Levels(state, n)[i] == Levels(next, n - 1)[i - 1];
      }
    }
  }

  lemma {:induction false} LevelsSnoc(state: int, n: nat)
    ensures Levels(state, n + 1) == Levels(state, n) + [LevelAt(state, n)]
    decreases n
  {
    if n > 0 {
      LevelsSnoc(Toggle(state), n - 1);
    }
  }

  /** The remembered level after n passes that start from `state`. */
  function LevelAt(state: int, n: nat): int
    decreases n
  {
    if n == 0 then state else LevelAt(Toggle(state), n - 1)
  }

  lemma {:induction false} LevelAtToggles(state: int, n: nat)
    ensures LevelAt(state, n + 1) == Toggle(LevelAt(state, n))
    decreases n
  {
    if n > 0 {
      LevelAtToggles(Toggle(state), n - 1);
    }
  }

  class BlinkTask {
    /** The function-static `led_state`. */
    var ledState: int
    /** The levels handed to `set_led` so far. */
    ghost var levels: seq<int>

    ghost predicate Valid()
      reads this
    {
      levels == Levels(LED_STATE_OFF, |levels|) && ledState == LevelAt(LED_STATE_OFF, |levels|)
    }

    constructor ()
      ensures Valid() && levels == [] && ledState == LED_STATE_OFF
    {
      ledState := LED_STATE_OFF;
      levels := [];
    }

    /** One pass of the task loop: the level set on the LED is returned; the
        delay that follows is not modelled. */
    method Step() returns (level: int)
      requires Valid()
      modifies this
      ensures Valid()
      ensures levels == old(levels) + [level]
      ensures level == if |old(levels)| % 2 == 0 then LED_STATE_OFF else LED_STATE_ON
    {
      level := ledState;
      LevelsSnoc(LED_STATE_OFF, |levels|);
      LevelsAlternate(|levels| + 1);
      LevelAtToggles(LED_STATE_OFF, |levels|);
      assert Levels(LED_STATE_OFF, |levels| + 1)[|levels|] == level;
      levels := levels + [level];
      ledState := if ledState == LED_STATE_ON then LED_STATE_OFF else LED_STATE_ON;
    }
  }
}
