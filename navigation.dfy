/**
 * The navigation loop of tests/navigation/src/Navigation.cpp: once
 * started, the device locates itself, asks the server for a route, shows
 * the next step and asks again every ten seconds until navigation ends.
 * `millis()`, the location the WiFi geolocation returns and the
 * `has_arrived` field of the server's answer are parameters of each call.
 */
module Navigation {
  import opened CInt

  /** Milliseconds between two refreshes of the route while navigating. */
  const NAVIGATION_UPDATE_LOOP_DURATION: u16 := 10000

  datatype NavigationState = Idle | Locating | Routing | Navigating

  /** The fields `navigate` changes besides what it fetches. */
  datatype Loop = Loop(state: NavigationState, timer: u32)

  /** One outcome of `navigate`: the next fields and the returned flag. */
  datatype Outcome = Outcome(next: Loop, flag: int)

  /** The switch of `navigate`; `hasArrived` is what the routing request answers. */
  function Step(l: Loop, navigating: bool, hasArrived: bool, now: u32): Outcome {
    match l.state
    case Idle => Outcome(if navigating then l.(state := Locating) else l, 0)
    case Locating => Outcome(l.(state := Routing), 0)
    case Routing => Outcome(Loop(Navigating, now), if hasArrived then 1 else 0)
    case Navigating =>
      if !navigating then Outcome(l.(state := Idle), 0)
      else if Sub32(now, l.timer) > NAVIGATION_UPDATE_LOOP_DURATION as int then Outcome(l.(state := Locating), 0)
      else Outcome(l, 0)
  }

  /** `navigate` returns 1 exactly from ROUTING when the server says the destination is reached, and 0 otherwise. */
  lemma FlagOnlyOnArrival(l: Loop, navigating: bool, hasArrived: bool, now: u32)
    ensures var o := Step(l, navigating, hasArrived, now);
      && (o.flag == 1 <==> l.state == Routing && hasArrived)
      && (o.flag == 0 || o.flag == 1)
  {
  }

  /** IDLE starts locating iff navigation is on and otherwise stays as it is; LOCATING always goes on to ROUTING. */
  lemma IdleAndLocating(l: Loop, navigating: bool, hasArrived: bool, now: u32)
    ensures var o := Step(l, navigating, hasArrived, now);
      && (l.state == Idle ==> (o.next.state == Locating <==> navigating) && (!navigating ==> o.next == l))
      && (l.state == Locating ==> o.next == l.(state := Routing))
  {
  }

  /** ROUTING always goes on to NAVIGATING and restarts the refresh timer. */
  lemma RoutingRestartsTimer(l: Loop, navigating: bool, hasArrived: bool, now: u32)
    requires l.state == Routing
    ensures Step(l, navigating, hasArrived, now).next == Loop(Navigating, now)
  {
  }

  /**
   * While navigating: ending navigation goes back to IDLE; otherwise more
   * than the refresh period since the timer goes back to LOCATING; otherwise
   * nothing changes.
   */
  lemma NavigatingRefreshes(l: Loop, navigating: bool, hasArrived: bool, now: u32)
    requires l.state == Navigating
    ensures var o := Step(l, navigating, hasArrived, now);
      o.next == (if !navigating then l.(state := Idle)
                 else if Sub32(now, l.timer) > 10000 then l.(state := Locating)
                 else l)
  {
  }

  /**
   * A route request happens three calls after navigation starts, and
   * again within one call after the refresh period runs out, as long as
   * navigation stays on and the clock does not wrap.
   */
  lemma RefreshCycle(t0: u32, t1: u32, t2: u32, t3: u32, timer: u32, arrived: bool)
    requires t2 <= t3 && t3 - t2 > 10000
    ensures var o0 := Step(Loop(Idle, timer), true, arrived, t0);
      var o1 := Step(o0.next, true, arrived, t1);
      var o2 := Step(o1.next, true, arrived, t2);
      var o3 := Step(o2.next, true, arrived, t3);
      && o2.next == Loop(Navigating, t2) && o2.flag == (if arrived then 1 else 0)
      && o3.next == Loop(Locating, t2) && o3.flag == 0
  {
  }

  class Navigation {
    var state: NavigationState
    var navigating: bool
    var navigationUpdateTimer: u32
    var currentFloor: u8
    var destination: string
    var destinationFloor: u8
    /** The last location fetched, latitude and longitude. */
    var location: (real, real)
    /** The `has_arrived` field of the last navigation instructions fetched. */
    var hasArrived: bool

    function Fields(): Loop
      reads this
    {
      Loop(state, navigationUpdateTimer)
    }

    /** The constructor stores only its two collaborators; the fields start at their zero values. */
    constructor()
      ensures state == Idle && !navigating && navigationUpdateTimer == 0
    {
      state := Idle;
      navigating := false;
      navigationUpdateTimer := 0;
      currentFloor := 0;
      destination := "";
      destinationFloor := 0;
      location := (0.0, 0.0);
      hasArrived := false;
    }

    /** `begin_navigation`: stores the floors and the destination, turns navigation on and restarts the timer. */
    method BeginNavigation(floor: u8, dest: string, destFloor: u8, now: u32)
      modifies this
      ensures currentFloor == floor && destination == dest && destinationFloor == destFloor
      ensures navigating && navigationUpdateTimer == now
      ensures state == old(state) && location == old(location) && hasArrived == old(hasArrived)
    {
      currentFloor := floor;
      destination := dest;
      destinationFloor := destFloor;
      navigating := true;
      navigationUpdateTimer := now;
    }

    /** `end_navigation`: turns navigation off and changes nothing else. */
    method EndNavigation()
      modifies this`navigating
      ensures !navigating
    {
      navigating := false;
    }

    /**
     * `navigate`: one step of the loop. LOCATING stores the fetched
     * location and ROUTING the fetched arrival flag; the returned flag is 1
     * when that arrival flag is set.
     */
    method Navigate(now: u32, fetchedLocation: (real, real), fetchedHasArrived: bool) returns (flag: int)
      modifies this
      ensures Step(old(Fields()), navigating, fetchedHasArrived, now) == Outcome(Fields(), flag)
      ensures location == if old(state) == Locating then fetchedLocation else old(location)
      ensures hasArrived == if old(state) == Routing then fetchedHasArrived else old(hasArrived)
      ensures navigating == old(navigating) && destination == old(destination)
      ensures currentFloor == old(currentFloor) && destinationFloor == old(destinationFloor)
    {
      flag := 0;
      match state {
        case Idle =>
          if navigating {
            state := Locating;
          }
        case Locating =>
          location := fetchedLocation;
          state := Routing;
        case Routing =>
          hasArrived := fetchedHasArrived;
          state := Navigating;
          navigationUpdateTimer := now;
          if hasArrived {
            flag := 1;
          }
        case Navigating =>
          if !navigating {
            state := Idle;
          } else if Sub32(now, navigationUpdateTimer) > NAVIGATION_UPDATE_LOOP_DURATION as int {
            state := Locating;
          }
      }
    }
  }
}
