/**
 * The destination picker of src/DestinationSelection.cpp: tilting the
 * device scrolls through the buildings and then the floors, a short press
 * of the button advances, a long press starts over. `millis()`, the tilt
 * angle read from the accelerometer and the button's flag are parameters
 * of each call; what the picker draws on the screen is not modelled.
 */
module Picker {
  import opened Wrappers
  import opened CInt

  const NUM_BUILDINGS: int := 10
  const NUM_FLOORS: int := 2
  const BUILDINGS: seq<string> := ["1", "2", "3", "4", "5", "6", "7", "8", "10", "11"]
  const FLOORS: seq<string> := ["0", "1"]

  /** Milliseconds between two scroll steps. */
  const SCROLL_THRESHOLD: u32 := 150

  /** The single-precision value of the literal `0.3`, the tilt that scrolls. */
  const ANGLE_THRESHOLD: real := 0.300000011920928955078125

  function Abs(x: real): real { if x > 0.0 then x else -x }

  function IntAbs(x: int): nat { if x >= 0 then x else -x }

  /** C's `a / b`: the quotient truncated toward zero. */
  function CQuot(a: int, b: int): int
    requires b != 0
  {
    var q := IntAbs(a) / IntAbs(b);
    if (a < 0) == (b < 0) then q else -q
  }

  /** C's `a % b`: what is left after the truncated quotient, so it takes the sign of `a`. */
  function CRem(a: int, b: int): (r: int)
    requires b != 0
    ensures IntAbs(r) < IntAbs(b)
    ensures a >= 0 ==> r >= 0
    ensures a < 0 ==> r <= 0
    ensures a == CQuot(a, b) * b + r
  {
    var q, m := IntAbs(a) / IntAbs(b), IntAbs(a) % IntAbs(b);
    assert IntAbs(a) == q * IntAbs(b) + m;
    assert b < 0 ==> q * IntAbs(b) == (-q) * b;
    if a < 0 then -m else m
  }

  /** `mod(a, b)`: C's remainder moved into `[0, b)` when it is negative. */
  function Mod(a: int, b: int): (r: int)
    requires b != 0
  {
    var r := CRem(a, b);
    if r < 0 then r + b else r
  }

  /**
   * For a positive modulus, `mod` is the least non-negative residue: it
   * lies in `[0, b)` and differs from `a` by a multiple of `b`.
   */
  lemma ModIsResidue(a: int, b: int)
    requires b > 0
    ensures 0 <= Mod(a, b) < b
    ensures a == (if CRem(a, b) < 0 then CQuot(a, b) - 1 else CQuot(a, b)) * b + Mod(a, b)
  {
    var q, r := CQuot(a, b), CRem(a, b);
    if r < 0 {
      assert (q - 1) * b == q * b - b;
    }
  }

  datatype SelectionState = Idle | BuildingSelection | FloorSelection | ConfirmDestination | DestinationSelected

  /** The fields `update` changes. */
  datatype Picking = Picking(state: SelectionState, building: int, floor: int, scrollTimer: u32)

  /** Each index is -1 (nothing chosen) or a position in its table. */
  predicate IndicesValid(p: Picking) {
    (p.building == -1 || 0 <= p.building < NUM_BUILDINGS)
    && (p.floor == -1 || 0 <= p.floor < NUM_FLOORS)
  }

  /** The tilt and the time allow a scroll step. */
  predicate ScrollDue(angle: real, now: u32, scrollTimer: u32) {
    Abs(angle) > ANGLE_THRESHOLD && Sub32(now, scrollTimer) > SCROLL_THRESHOLD
  }

  /** The scroll block of `update` for an index over `n` entries: the new index and the new timer. */
  function Scroll(index: int, n: int, angle: real, now: u32, scrollTimer: u32): (int, u32)
    requires n > 0
  {
    if ScrollDue(angle, now, scrollTimer) then
      (Mod(if angle > 0.0 then index + 1 else index - 1, n), now)
    else (index, scrollTimer)
  }

  /** `clear_selection`. */
  function Cleared(p: Picking): Picking {
    p.(building := -1, floor := -1)
  }

  /** One outcome of `update`: the next fields and the returned flag. */
  datatype Outcome = Outcome(next: Picking, flag: int)

  /** The switch of `update`; `selecting` is the field `begin_selection` and `end_selection` set. */
  function Step(p: Picking, selecting: bool, buttonFlag: int, angle: real, now: u32): Outcome {
    match p.state
    case Idle =>
      Outcome(if selecting then p.(state := BuildingSelection) else p, 0)
    case BuildingSelection =>
      var (b, t) := Scroll(p.building, NUM_BUILDINGS, angle, now, p.scrollTimer);
      var q := p.(building := b, scrollTimer := t);
      Outcome(if buttonFlag == 1 then q.(state := FloorSelection) else q, 0)
    case FloorSelection =>
      var (f, t) := Scroll(p.floor, NUM_FLOORS, angle, now, p.scrollTimer);
      var q := p.(floor := f, scrollTimer := t);
      Outcome(if buttonFlag == 1 then q.(state := ConfirmDestination)
              else if buttonFlag == 2 then Cleared(q).(state := BuildingSelection)
              else q, 0)
    case ConfirmDestination =>
      if buttonFlag == 1 then Outcome(p.(state := DestinationSelected), 1)
      else if buttonFlag == 2 then Outcome(Cleared(p).(state := BuildingSelection), 0)
      else Outcome(p, 0)
    case DestinationSelected =>
      Outcome(if !selecting then Cleared(p).(state := Idle) else p, 0)
  }

  /** A scroll step moves the index by one in the direction of the tilt, modulo `n`, and restarts the timer; nothing else moves it. */
  lemma ScrollMoves(index: int, n: int, angle: real, now: u32, scrollTimer: u32)
    requires n > 0
    ensures var (i, t) := Scroll(index, n, angle, now, scrollTimer);
      && (ScrollDue(angle, now, scrollTimer) ==>
            && 0 <= i < n && t == now
            && (n >= 2 && -1 <= index < n ==>
                  i == if angle > 0.0 then (if index + 1 == n then 0 else index + 1)
                       else (if index - 1 < 0 then index - 1 + n else index - 1)))
      && (!ScrollDue(angle, now, scrollTimer) ==> i == index && t == scrollTimer)
  {
    if n >= 2 && -1 <= index < n {
      ModNear(if angle > 0.0 then index + 1 else index - 1, n);
    }
  }

  /** `mod` of a value at most one modulus away from the range. */
  lemma ModNear(a: int, n: int)
    requires n >= 2 && -n <= a <= n
    ensures Mod(a, n) == if a == n then 0 else if a < 0 then a + n else a
  {
    var x := IntAbs(a);
    SmallQuotient(x, n);
    if x == n {
      assert x % n == x - (x / n) * n;
    }
  }

  /** Dividing a number at most `n` by `n`: quotient 0 below `n`, 1 at `n`. */
  lemma SmallQuotient(x: nat, n: int)
    requires n >= 1 && x <= n
    ensures x / n == (if x == n then 1 else 0)
    ensures x % n == (if x == n then 0 else x)
  {
    var q, r := x / n, x % n;
    assert x == q * n + r && 0 <= r < n;
    if q >= 2 {
      assert q * n >= 2 * n by { MulLe(2, q, n); }
    }
    assert 0 <= q <= 1;
    if q == 0 { assert q * n == 0; } else { assert q * n == n; }
  }

  lemma MulLe(a: int, b: int, n: int)
    requires a <= b && n >= 0
    ensures a * n <= b * n
  {
    assert b * n - a * n == (b - a) * n;
  }

  /** From nothing chosen, tilting up picks the first building and tilting down the one before the last. */
  lemma ScrollFromUnchosen(angle: real, now: u32, scrollTimer: u32)
    requires ScrollDue(angle, now, scrollTimer)
    ensures Scroll(-1, NUM_BUILDINGS, angle, now, scrollTimer).0 == if angle > 0.0 then 0 else 8
  {
  }

  /** `update` keeps each index at -1 or inside its table. */
  lemma StepKeepsIndicesValid(p: Picking, selecting: bool, buttonFlag: int, angle: real, now: u32)
    requires IndicesValid(p)
    ensures IndicesValid(Step(p, selecting, buttonFlag, angle, now).next)
  {
    ScrollMoves(p.building, NUM_BUILDINGS, angle, now, p.scrollTimer);
    ScrollMoves(p.floor, NUM_FLOORS, angle, now, p.scrollTimer);
  }

  /** `update` returns 1 exactly when a short press confirms the destination, and that enters DESTINATION_SELECTED; it returns 0 otherwise. */
  lemma ConfirmReturnsOne(p: Picking, selecting: bool, buttonFlag: int, angle: real, now: u32)
    ensures var o := Step(p, selecting, buttonFlag, angle, now);
      && (o.flag == 1 <==> p.state == ConfirmDestination && buttonFlag == 1)
      && (o.flag == 1 ==> o.next == p.(state := DestinationSelected))
      && (o.flag == 0 || o.flag == 1)
  {
  }

  /** A long press while choosing the floor or confirming clears both indices and goes back to choosing the building. */
  lemma LongPressStartsOver(p: Picking, selecting: bool, angle: real, now: u32)
    requires p.state == FloorSelection || p.state == ConfirmDestination
    ensures var o := Step(p, selecting, 2, angle, now);
      o.next.state == BuildingSelection && o.next.building == -1 && o.next.floor == -1 && o.flag == 0
  {
  }

  /**
   * A short press advances from the building to the floor and from the
   * floor to the confirmation at any tilt, whether or not an index was
   * chosen. The index being chosen takes the scroll block's result first,
   * so it keeps its old value when no scroll is due; the other is kept.
   */
  lemma ShortPressAdvancesUnchecked(p: Picking, selecting: bool, angle: real, now: u32)
    requires p.state == BuildingSelection || p.state == FloorSelection
    ensures var o := Step(p, selecting, 1, angle, now);
      && o.next.state == (if p.state == BuildingSelection then FloorSelection else ConfirmDestination)
      && o.flag == 0
      && (p.state == BuildingSelection ==>
            (o.next.building, o.next.scrollTimer) == Scroll(p.building, NUM_BUILDINGS, angle, now, p.scrollTimer)
            && o.next.floor == p.floor)
      && (p.state == FloorSelection ==>
            (o.next.floor, o.next.scrollTimer) == Scroll(p.floor, NUM_FLOORS, angle, now, p.scrollTimer)
            && o.next.building == p.building)
      && (!ScrollDue(angle, now, p.scrollTimer) ==>
            o.next.building == p.building && o.next.floor == p.floor && o.next.scrollTimer == p.scrollTimer)
  {
  }

  /**
   * From a new picker, four calls of `update` with the device level and
   * three short presses reach DESTINATION_SELECTED, returning 1 on the
   * last call, with neither index chosen. The getters as written then copy
   * from index -1, outside both tables.
   */
  lemma ConfirmWithNothingChosen(start: u32, now: u32)
    ensures var p0 := Picking(Idle, -1, -1, start);
      var o1 := Step(p0, true, 0, 0.0, now);
      var o2 := Step(o1.next, true, 1, 0.0, now);
      var o3 := Step(o2.next, true, 1, 0.0, now);
      var o4 := Step(o3.next, true, 1, 0.0, now);
      && o4.flag == 1 && o4.next.state == DestinationSelected
      && o4.next.building == -1 && !(0 <= o4.next.building < |BUILDINGS|)
      && o4.next.floor == -1 && !(0 <= o4.next.floor < |FLOORS|)
  {
  }

  /** IDLE starts choosing iff `selecting`; DESTINATION_SELECTED goes back to IDLE, clearing the indices, iff not. */
  lemma SelectingGates(p: Picking, selecting: bool, buttonFlag: int, angle: real, now: u32)
    requires p.state == Idle || p.state == DestinationSelected
    ensures var o := Step(p, selecting, buttonFlag, angle, now);
      && (p.state == Idle ==> o.next == if selecting then p.(state := BuildingSelection) else p)
      && (p.state == DestinationSelected ==> o.next == if selecting then p else Cleared(p).(state := Idle))
  {
  }

  /** A table entry at an index: C reads outside the table at -1, which the model reports as None. */
  function Entry(table: seq<string>, index: int): (r: Option<string>)
    ensures r.Some? <==> 0 <= index < |table|
    ensures r.Some? ==> r.value == table[index]
  {
    if 0 <= index < |table| then Some(table[index]) else None
  }

  /** The scroll block of `update`: tilted far enough and long enough after the last step, the index moves by one and wraps. */
  method ScrollStep(index: int, n: int, angle: real, now: u32, scrollTimer: u32) returns (i: int, timer: u32)
    requires n > 0
    ensures (i, timer) == Scroll(index, n, angle, now, scrollTimer)
  {
    i, timer := index, scrollTimer;
    if Abs(angle) > ANGLE_THRESHOLD {
      if Sub32(now, scrollTimer) > SCROLL_THRESHOLD {
        if angle > 0.0 {
          i := i + 1;
        } else {
          i := i - 1;
        }
        i := Mod(i, n);
        timer := now;
      }
    }
  }

  class DestinationSelection {
    var state: SelectionState
    var destinationBuildingIndex: int
    var destinationFloorIndex: int
    var scrollTimer: u32
    var selecting: bool

    ghost predicate Valid()
      reads this
    {
      IndicesValid(Fields())
    }

    function Fields(): Picking
      reads this
    {
      Picking(state, destinationBuildingIndex, destinationFloorIndex, scrollTimer)
    }

    /** The constructor: idle, nothing chosen, the scroll timer at the current time. */
    constructor(now: u32)
      ensures state == Idle && destinationBuildingIndex == -1 && destinationFloorIndex == -1
      ensures scrollTimer == now && !selecting
      ensures Valid()
    {
      state := Idle;
      destinationBuildingIndex := -1;
      destinationFloorIndex := -1;
      scrollTimer := now;
      selecting := false;
    }

    method ClearSelection()
      modifies this
      ensures Fields() == Cleared(old(Fields())) && selecting == old(selecting)
      ensures Valid()
    {
      destinationBuildingIndex := -1;
      destinationFloorIndex := -1;
    }

    method BeginSelection()
      modifies this`selecting
      ensures selecting
    {
      selecting := true;
    }

    method EndSelection()
      modifies this`selecting
      ensures !selecting
    {
      selecting := false;
    }

    /** `get_destination_building`: the chosen building's text. */
    method GetDestinationBuilding() returns (r: Option<string>)
      ensures r == Entry(BUILDINGS, destinationBuildingIndex)
    {
      r := Entry(BUILDINGS, destinationBuildingIndex);
    }

    /** `get_destination_floor`: the chosen floor's text. */
    method GetDestinationFloor() returns (r: Option<string>)
      ensures r == Entry(FLOORS, destinationFloorIndex)
    {
      r := Entry(FLOORS, destinationFloorIndex);
    }

    /** `update`: one step of the picker; `selecting` is unchanged and the indices stay valid. */
    method Update(buttonFlag: int, angle: real, now: u32) returns (flag: int)
      requires Valid()
      modifies this
      ensures Step(old(Fields()), selecting, buttonFlag, angle, now) == Outcome(Fields(), flag)
      ensures selecting == old(selecting)
      ensures Valid()
    {
      StepKeepsIndicesValid(Fields(), selecting, buttonFlag, angle, now);
      flag := 0;
      match state {
        case Idle =>
          if selecting {
            state := BuildingSelection;
          }
        case BuildingSelection =>
          destinationBuildingIndex, scrollTimer := ScrollStep(destinationBuildingIndex, NUM_BUILDINGS, angle, now, scrollTimer);
          if buttonFlag == 1 {
            state := FloorSelection;
          }
        case FloorSelection =>
          destinationFloorIndex, scrollTimer := ScrollStep(destinationFloorIndex, NUM_FLOORS, angle, now, scrollTimer);
          if buttonFlag == 1 {
            state := ConfirmDestination;
          } else if buttonFlag == 2 {
            ClearSelection();
            state := BuildingSelection;
          }
        case ConfirmDestination =>
          if buttonFlag == 1 {
            flag := 1;
            state := DestinationSelected;
          } else if buttonFlag == 2 {
            ClearSelection();
            state := BuildingSelection;
          }
        case DestinationSelected =>
          if !selecting {
            ClearSelection();
            state := Idle;
          }
      }
    }
  }
}

/**
 * The revision of the picker in tests/destination_selection/src: the same
 * `mod`, the same `update` machine and the same `clear_selection`. The two
 * revisions differ only in the getters, which return a pointer to a local
 * copy of the chosen text instead of copying it into the caller's buffer,
 * and in the display code.
 */
module PickerTestRevision {
  import opened Wrappers
  import opened CInt
  import opened Picker

  class DestinationSelection {
    var state: SelectionState
    var destinationBuildingIndex: int
    var destinationFloorIndex: int
    var scrollTimer: u32
    var selecting: bool

    ghost predicate Valid()
      reads this
    {
      IndicesValid(Fields())
    }

    function Fields(): Picking
      reads this
    {
      Picking(state, destinationBuildingIndex, destinationFloorIndex, scrollTimer)
    }

    constructor(now: u32)
      ensures state == Idle && destinationBuildingIndex == -1 && destinationFloorIndex == -1
      ensures scrollTimer == now && !selecting
      ensures Valid()
    {
      state := Idle;
      destinationBuildingIndex := -1;
      destinationFloorIndex := -1;
      scrollTimer := now;
      selecting := false;
    }

    method ClearSelection()
      modifies this
      ensures Fields() == Cleared(old(Fields())) && selecting == old(selecting)
      ensures Valid()
    {
      destinationBuildingIndex := -1;
      destinationFloorIndex := -1;
    }

    method BeginSelection()
      modifies this`selecting
      ensures selecting
    {
      selecting := true;
    }

    method EndSelection()
      modifies this`selecting
      ensures !selecting
    {
      selecting := false;
    }

    /**
     * `get_destination_building`: formats the chosen building into a local
     * array and returns a pointer to it, which dangles once the call
     * returns; the model returns the text itself.
     */
    method GetDestinationBuilding() returns (r: Option<string>)
      ensures r == Entry(BUILDINGS, destinationBuildingIndex)
    {
      r := Entry(BUILDINGS, destinationBuildingIndex);
    }

    /**
     * `get_destination_floor`: likewise formats the chosen floor into a
     * local array and returns a pointer that dangles; the model returns the
     * text itself.
     */
    method GetDestinationFloor() returns (r: Option<string>)
      ensures r == Entry(FLOORS, destinationFloorIndex)
    {
      r := Entry(FLOORS, destinationFloorIndex);
    }

    /** `update`: the same machine as the other revision. */
    method Update(buttonFlag: int, angle: real, now: u32) returns (flag: int)
      requires Valid()
      modifies this
      ensures Step(old(Fields()), selecting, buttonFlag, angle, now) == Outcome(Fields(), flag)
      ensures selecting == old(selecting)
      ensures Valid()
    {
      StepKeepsIndicesValid(Fields(), selecting, buttonFlag, angle, now);
      flag := 0;
      match state {
        case Idle =>
          if selecting {
            state := BuildingSelection;
          }
        case BuildingSelection =>
          destinationBuildingIndex, scrollTimer := ScrollStep(destinationBuildingIndex, NUM_BUILDINGS, angle, now, scrollTimer);
          if buttonFlag == 1 {
            state := FloorSelection;
          }
        case FloorSelection =>
          destinationFloorIndex, scrollTimer := ScrollStep(destinationFloorIndex, NUM_FLOORS, angle, now, scrollTimer);
          if buttonFlag == 1 {
            state := ConfirmDestination;
          } else if buttonFlag == 2 {
            ClearSelection();
            state := BuildingSelection;
          }
        case ConfirmDestination =>
          if buttonFlag == 1 {
            flag := 1;
            state := DestinationSelected;
          } else if buttonFlag == 2 {
            ClearSelection();
            state := BuildingSelection;
          }
        case DestinationSelected =>
          if !selecting {
            ClearSelection();
            state := Idle;
          }
      }
    }
  }
}
