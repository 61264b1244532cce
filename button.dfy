/**
 * The debounced push button of src/Button.cpp: a five-state machine that
 * turns the raw, active-low pin into one event per press, 1 for a short
 * press and 2 for a long one. `millis()` and `digitalRead(pin)` are
 * parameters of each call; one call reads the clock once.
 */
module PushButton {
  import opened CInt

  datatype ButtonState = S0 | S1 | S2 | S3 | S4

  /** The durations the constructor stores; nothing changes them afterwards. */
  const DEBOUNCE_DURATION: u32 := 10
  const LONG_PRESS_DURATION: u32 := 1000

  /** `read`: the pin is active-low, so a low level means pressed. */
  function Pressed(pinValue: u8): (p: bool)
    ensures p <==> pinValue == 0
  {
    !(pinValue != 0)
  }

  /** The fields `update` changes. */
  datatype Machine = Machine(state: ButtonState, changeTime: u32, s2Start: u32)

  /** One `update` after `read`: the next fields and the returned flag. */
  datatype Outcome = Outcome(next: Machine, flag: u8)

  /** The switch of `update`, with the clock read as `now`. */
  function Step(m: Machine, pressed: bool, now: u32): Outcome {
    var sinceChange := Sub32(now, m.changeTime);
    var sinceS2 := Sub32(now, m.s2Start);
    match m.state
    case S0 =>
      if pressed then Outcome(m.(state := S1, changeTime := now), 0)
      else Outcome(m, 0)
    case S1 =>
      if pressed && sinceChange >= DEBOUNCE_DURATION then Outcome(m.(state := S2, s2Start := now), 0)
      else if !pressed then Outcome(m.(state := S0, changeTime := now), 0)
      else Outcome(m, 0)
    case S2 =>
      if pressed && sinceS2 >= LONG_PRESS_DURATION then Outcome(m.(state := S3), 0)
      else if !pressed then Outcome(m.(state := S4, changeTime := now), 0)
      else Outcome(m, 0)
    case S3 =>
      if !pressed then Outcome(m.(state := S4, changeTime := now), 0)
      else Outcome(m, 0)
    case S4 =>
      if !pressed && sinceChange >= DEBOUNCE_DURATION then
        Outcome(m.(state := S0), if sinceS2 < LONG_PRESS_DURATION then 1 else 2)
      else if pressed && sinceS2 < LONG_PRESS_DURATION then Outcome(m.(state := S2, changeTime := now), 0)
      else if pressed then Outcome(m.(state := S3, changeTime := now), 0)
      else Outcome(m, 0)
  }

  /**
   * A press is reported exactly when a settled release ends it: the flag
   * is non-zero only on the move from S4 to S0, and it is 1 or 2.
   */
  lemma FlagOnlyOnRelease(m: Machine, pressed: bool, now: u32)
    ensures var o := Step(m, pressed, now);
      && (o.flag != 0 <==> m.state == S4 && o.next.state == S0)
      && (o.flag == 0 || o.flag == 1 || o.flag == 2)
  {
  }

  /**
   * Leaving S4 after the release has settled for the debounce interval:
   * flag 1 when the press, counted from entering S2, lasted less than the
   * long-press duration, 2 otherwise.
   */
  lemma ReleaseFlag(m: Machine, now: u32)
    requires m.state == S4 && Sub32(now, m.changeTime) >= DEBOUNCE_DURATION
    ensures Step(m, false, now).next == m.(state := S0)
    ensures Step(m, false, now).flag == if Sub32(now, m.s2Start) < LONG_PRESS_DURATION then 1 else 2
  {
  }

  /** S0 is left only by a press, which starts the debounce timer; otherwise nothing changes. */
  lemma IdleUntilPressed(m: Machine, pressed: bool, now: u32)
    requires m.state == S0
    ensures Step(m, pressed, now) == if pressed then Outcome(m.(state := S1, changeTime := now), 0) else Outcome(m, 0)
  {
  }

  /** S1 reaches S2 only if still pressed after the debounce interval, and then starts the press timer; a release goes back to S0. */
  lemma Debounce(m: Machine, pressed: bool, now: u32)
    requires m.state == S1
    ensures var o := Step(m, pressed, now);
      && (o.next.state == S2 <==> pressed && Sub32(now, m.changeTime) >= DEBOUNCE_DURATION)
      && (o.next.state == S2 ==> o.next.s2Start == now)
      && (o.next.state == S0 <==> !pressed)
      && o.next.state in {S0, S1, S2}
  {
  }

  /** S2 becomes S3 once held for the long-press duration and S4 on release; S3 is left only by a release, to S4. */
  lemma HoldAndRelease(m: Machine, pressed: bool, now: u32)
    requires m.state == S2 || m.state == S3
    ensures var o := Step(m, pressed, now);
      && (!pressed ==> o.next.state == S4 && o.next.changeTime == now)
      && (pressed ==> o.next.state == (if m.state == S3 || Sub32(now, m.s2Start) >= LONG_PRESS_DURATION then S3 else S2))
      && o.next.s2Start == m.s2Start
  {
  }

  /** A bounce back to pressed during S4 returns to S2 or S3 by the time since entering S2, which is not restarted. */
  lemma RepressDuringRelease(m: Machine, now: u32)
    requires m.state == S4
    ensures var o := Step(m, true, now);
      && o.next.state == (if Sub32(now, m.s2Start) < LONG_PRESS_DURATION then S2 else S3)
      && o.next.s2Start == m.s2Start && o.next.changeTime == now && o.flag == 0
  {
  }

  /**
   * A whole short press from rest, with every interval below a wrap of the
   * clock: pressed at `t0`, still pressed at `t1` after the debounce
   * interval, released at `t2` and still released at `t3` after the
   * debounce interval. The fourth call reports 1 when `t3 - t1` is below
   * the long-press duration and 2 otherwise, and the button is back at rest.
   */
  lemma PressCycle(m: Machine, t0: u32, t1: u32, t2: u32, t3: u32)
    requires m.state == S0
    requires t0 + DEBOUNCE_DURATION <= t1 <= t2 && t2 + DEBOUNCE_DURATION <= t3
    ensures var o0 := Step(m, true, t0);
      var o1 := Step(o0.next, true, t1);
      var o2 := Step(o1.next, false, t2);
      var o3 := Step(o2.next, false, t3);
      && o0.flag == 0 && o1.flag == 0 && o2.flag == 0
      && o3.next.state == S0
      && o3.flag == if t3 - t1 < LONG_PRESS_DURATION as int then 1 else 2
  {
    var o0 := Step(m, true, t0);
    assert o0.next.state == S1 && o0.next.changeTime == t0;
    var o1 := Step(o0.next, true, t1);
    assert o1.next.state == S2 && o1.next.s2Start == t1;
    var o2 := Step(o1.next, false, t2);
    if Sub32(t2, t1) >= LONG_PRESS_DURATION {
      assert o2.next.state == S4;
    }
    assert o2.next.state == S4 && o2.next.changeTime == t2 && o2.next.s2Start == t1;
  }

  class Button {
    var state: ButtonState
    var flag: u8
    var s2StartTime: u32
    var buttonChangeTime: u32
    var buttonPressed: bool
    const pin: u8

    /** The fields `update` steps, as one value. */
    function Fields(): Machine
      reads this
    {
      Machine(state, buttonChangeTime, s2StartTime)
    }

    /** `Button(p)`: at rest, both timers at the current time, pin number truncated to 8 bits. */
    constructor(p: int, now: u32)
      ensures state == S0 && flag == 0 && !buttonPressed
      ensures s2StartTime == now && buttonChangeTime == now
      ensures pin == ToU8(p)
    {
      flag := 0;
      state := S0;
      pin := ToU8(p);
      s2StartTime := now;
      buttonChangeTime := now;
      buttonPressed := false;
    }

    /** `read`: stores the inverted pin level. */
    method Read(pinValue: u8)
      modifies this`buttonPressed
      ensures buttonPressed == Pressed(pinValue)
    {
      buttonPressed := !(pinValue != 0);
    }

    /**
     * `update`: reads the pin, clears the flag, takes one step of the
     * machine and returns the flag, which is also kept in the field.
     */
    method Update(pinValue: u8, now: u32) returns (result: u8)
      modifies this
      ensures buttonPressed == Pressed(pinValue)
      ensures Step(old(Fields()), Pressed(pinValue), now) == Outcome(Fields(), flag)
      ensures result == flag
    {
      Read(pinValue);
      flag := 0;
      var sinceChange := Sub32(now, buttonChangeTime);
      var sinceS2 := Sub32(now, s2StartTime);
      match state {
        case S0 =>
          if buttonPressed {
            state := S1;
            buttonChangeTime := now;
          }
        case S1 =>
          if buttonPressed && sinceChange >= DEBOUNCE_DURATION {
            state := S2;
            s2StartTime := now;
          } else if !buttonPressed {
            state := S0;
            buttonChangeTime := now;
          }
        case S2 =>
          if buttonPressed && sinceS2 >= LONG_PRESS_DURATION {
            state := S3;
          } else if !buttonPressed {
            state := S4;
            buttonChangeTime := now;
          }
        case S3 =>
          if !buttonPressed {
            state := S4;
            buttonChangeTime := now;
          }
        case S4 =>
          if !buttonPressed && sinceChange >= DEBOUNCE_DURATION {
            if sinceS2 < LONG_PRESS_DURATION {
              flag := 1;
            } else {
              flag := 2;
            }
            state := S0;
          } else if buttonPressed && sinceS2 < LONG_PRESS_DURATION {
            state := S2;
            buttonChangeTime := now;
          } else if buttonPressed && sinceS2 >= LONG_PRESS_DURATION {
            state := S3;
            buttonChangeTime := now;
          }
      }
      result := flag;
    }
  }
}
