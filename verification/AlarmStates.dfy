/** The alarm of Alarm/alarm.cpp: its state, written by users and by timers, against the service task
    that switches siren and timers some time later.  Timer callbacks have a higher priority than the
    tasks and run to their end; a pass of the service task over a state change is one step. */
module AlarmStates {

  datatype State = DISARMED | ARMED | TRIGGERED | ALERTING

  /** One state may follow another. */
  predicate Follows(from: State, to: State) {
    && (to == TRIGGERED ==> from == ARMED)
    && (to == ALERTING ==> from == TRIGGERED)
  }

  ghost predicate Lawful(history: seq<State>) {
    && history != [] && history[0] == DISARMED
    && forall i :: 0 <= i < |history| - 1 ==> Follows(history[i], history[i + 1])
  }

  datatype Snap = Snap(state: State, changeRequested: bool, siren: bool, zoneTimer: bool, alertTimer: bool,
                       passing: bool, inFlight: nat)

  class Alarm {
    var state: State
    var changeRequested: bool     // CHANGE_STATE in service_requests
    var siren: bool               // the siren request
    var zoneTimer: bool           // zones_check_timer is running
    var alertTimer: bool          // alert_timer is running
    var passing: bool             // the service task took the request, but did not yet look at the state
    var inFlight: nat             // writers of the state that have not yet requested its change

    ghost var processed: State    // the state that the service task saw last
    ghost var history: seq<State>

    /** Siren and timers are those of the state that was processed last. */
    ghost predicate OutputsFit()
      reads `siren, `zoneTimer, `alertTimer, `processed, `state
    {
      && (siren <==> processed == ALERTING)
      && (zoneTimer <==> processed == ARMED)
      && (alertTimer ==> processed == TRIGGERED)
      && (state == TRIGGERED && processed == TRIGGERED ==> alertTimer)
    }

    /** How far the state can be ahead of what was processed. */
    ghost predicate StateFits()
      reads `state, `processed, `alertTimer, `changeRequested, `passing, `inFlight
    {
      && (state == TRIGGERED ==> processed == ARMED || processed == TRIGGERED)
      && (state == ALERTING ==> (processed == TRIGGERED || processed == ALERTING) && !alertTimer)
      && (state != processed ==> ChangePending())
    }

    ghost predicate ChangePending()
      reads `changeRequested, `passing, `inFlight
    {
      changeRequested || passing || inFlight > 0
    }

    ghost predicate Valid()
      reads this
    {
      && OutputsFit() && StateFits()
      && Lawful(history) && history[|history| - 1] == state
    }

    /** All but what is only of interest to the proof. */
    ghost function Now(): Snap
      reads this
    {
      Snap(state, changeRequested, siren, zoneTimer, alertTimer, passing, inFlight)
    }

    constructor ()
      ensures Valid() && Now() == Snap(DISARMED, false, false, false, false, false, 0)
    {
      state, changeRequested, siren, zoneTimer, alertTimer := DISARMED, false, false, false, false;
      passing, inFlight, processed, history := false, 0, DISARMED, [DISARMED];
    }

    /** arm() and disarm(): set_state, with the request still to come. */
    method SetState(target: State)
      requires Valid() && (target == ARMED || target == DISARMED)
      modifies `state, `inFlight, `history
      ensures Valid() && state == target && inFlight == old(inFlight) + 1 && history == old(history) + [target]
    {
      state := target;
      inFlight := inFlight + 1;
      history := history + [target];
    }

    /** request(CHANGE_STATE) by a task that set the state. */
    method Request()
      requires Valid() && inFlight > 0
      modifies `changeRequested, `inFlight
      ensures Valid() && changeRequested && inFlight == old(inFlight) - 1
    {
      changeRequested := true;
      inFlight := inFlight - 1;
    }

    /** set_state_if_current; an exclusive store may fail for no reason a number of times. */
    method SetStateIfCurrent(target: State, expected: State, failures: nat) returns (set_: bool)
      requires Follows(expected, target) && Lawful(history) && history[|history| - 1] == state
      modifies `state, `history
      ensures Lawful(history) && history[|history| - 1] == state
      ensures set_ <==> old(state) == expected
      ensures state == if set_ then target else old(state)
      ensures history == old(history) + if set_ then [target] else []
    {
      var tries := failures;
      while true
        invariant state == old(state) && history == old(history)
        decreases tries
      {
        var current := state;           // __LDREXB
        if current != expected { return false; }
        if tries == 0 { break; }        // __STREXB
        tries := tries - 1;
      }
      state := target;
      history := history + [target];
      set_ := true;
    }

    /** check_zones, when the timer fires */
    method CheckZones(activeZones: bool, failures: nat)
      requires Valid() && zoneTimer
      modifies `state, `changeRequested, `history
      ensures Valid()
      ensures state == if activeZones && old(state) == ARMED then TRIGGERED else old(state)
      ensures changeRequested <==> old(changeRequested) || (activeZones && old(state) == ARMED)
      ensures history == old(history) + if state == old(state) then [] else [state]
    {
      if activeZones {
        var set_ := SetStateIfCurrent(TRIGGERED, ARMED, failures);
        if set_ { changeRequested := true; }
      }
    }

    /** start_alerting, when the timer fires, which it does once */
    method StartAlerting(failures: nat)
      requires Valid() && alertTimer
      modifies `state, `changeRequested, `alertTimer, `history
      ensures Valid() && !alertTimer
      ensures state == if old(state) == TRIGGERED then ALERTING else old(state)
      ensures changeRequested <==> old(changeRequested) || old(state) == TRIGGERED
      ensures history == old(history) + if state == old(state) then [] else [state]
    {
      alertTimer := false;
      var set_ := SetStateIfCurrent(ALERTING, TRIGGERED, failures);
      if set_ { changeRequested := true; }
    }

    /** was_requested(CHANGE_STATE) by the service task */
    method TakeRequest()
      requires Valid() && !passing && changeRequested
      modifies `changeRequested, `passing
      ensures Valid() && passing && !changeRequested
    {
      changeRequested, passing := false, true;
    }

    /** The service task switches siren and timers to the current state. */
    method Process()
      requires Valid() && passing
      modifies `siren, `zoneTimer, `alertTimer, `passing, `processed
      ensures Valid() && !passing && processed == state
      ensures siren == match state
                case ALERTING => true
                case TRIGGERED => old(siren)
                case _ => false
      ensures zoneTimer == match state
                case ARMED => true
                case ALERTING => old(zoneTimer)
                case _ => false
      ensures alertTimer == match state
                case TRIGGERED => true
                case ALERTING => old(alertTimer)
                case _ => false
    {
      var now := state;
      if now == TRIGGERED {
        zoneTimer := false;
        alertTimer := true;             // xTimerChangePeriod starts it
      } else if now == ALERTING {
        siren := true;
      } else {
        siren := false;
        zoneTimer := now == ARMED;
        alertTimer := false;
      }
      passing := false;
      processed := now;
    }

    /** With no change pending, siren and timers are those of the state. */
    lemma Quiescent()
      requires Valid() && !ChangePending()
      ensures siren <==> state == ALERTING
      ensures zoneTimer <==> state == ARMED
      ensures alertTimer <==> state == TRIGGERED
    {
    }
  }

  datatype Event = User(arm: bool) | UserRequest | Zones(active: bool, failures: nat) | AlertTime(failures: nat)
                 | Take | Pass

  /** What an event changes: users set the state, active zones trigger an armed alarm, and the alarm time turns
      triggered into alerting; the service task follows once it has taken the request. */
  ghost predicate Took(s: Snap, e: Event, s': Snap) {
    match e
    case User(arm) => s' == s.(state := if arm then ARMED else DISARMED, inFlight := s.inFlight + 1)
    case UserRequest => s' == if s.inFlight > 0 then s.(changeRequested := true, inFlight := s.inFlight - 1) else s
    case Zones(active, _) =>
      s' == if s.zoneTimer && active && s.state == ARMED then s.(state := TRIGGERED, changeRequested := true) else s
    case AlertTime(_) =>
      s' == if !s.alertTimer then s
            else if s.state == TRIGGERED then s.(state := ALERTING, changeRequested := true, alertTimer := false)
            else s.(alertTimer := false)
    case Take => s' == if s.changeRequested && !s.passing then s.(changeRequested := false, passing := true) else s
    case Pass =>
      if !s.passing then s' == s
      else && s'.state == s.state && !s'.passing && s'.changeRequested == s.changeRequested && s'.inFlight == s.inFlight
           && match s.state
              case DISARMED => !s'.siren && !s'.zoneTimer && !s'.alertTimer
              case ARMED => !s'.siren && s'.zoneTimer && !s'.alertTimer
              case TRIGGERED => s'.siren == s.siren && !s'.zoneTimer && s'.alertTimer
              case ALERTING => s'.siren && s'.zoneTimer == s.zoneTimer && s'.alertTimer == s.alertTimer
  }

  /** Any run: the alarm alerts only after it was triggered, and is triggered only when armed. */
  method Run(a: Alarm, events: seq<Event>) returns (ghost snaps: seq<Snap>)
    requires a.Valid()
    modifies a
    ensures a.Valid() && old(a.history) <= a.history && Lawful(a.history)
    ensures |snaps| == |events| + 1 && snaps[0] == old(a.Now()) && snaps[|events|] == a.Now()
    ensures forall i :: 0 <= i < |events| ==> Took(snaps[i], events[i], snaps[i + 1])
    ensures !a.ChangePending() ==>
            (a.siren <==> a.state == ALERTING) && (a.zoneTimer <==> a.state == ARMED)
            && (a.alertTimer <==> a.state == TRIGGERED)
  {
    snaps := [a.Now()];
    var i := 0;
    while i < |events|
      invariant i <= |events| && a.Valid() && old(a.history) <= a.history
      invariant |snaps| == i + 1 && snaps[0] == old(a.Now()) && snaps[i] == a.Now()
      invariant forall k :: 0 <= k < i ==> Took(snaps[k], events[k], snaps[k + 1])
    {
      Step(a, events[i]);
      i, snaps := i + 1, snaps + [a.Now()];
    }
    if !a.ChangePending() { a.Quiescent(); }
  }

  /** An event, if it can happen now. */
  method Step(a: Alarm, e: Event)
    requires a.Valid()
    modifies a
    ensures a.Valid() && old(a.history) <= a.history && Took(old(a.Now()), e, a.Now())
  {
    match e
    case User(arm) => a.SetState(if arm then ARMED else DISARMED);
    case UserRequest => if a.inFlight > 0 { a.Request(); }
    case Zones(active, failures) => if a.zoneTimer { a.CheckZones(active, failures); }
    case AlertTime(failures) => if a.alertTimer { a.StartAlerting(failures); }
    case Take => if a.changeRequested && !a.passing { a.TakeRequest(); }
    case Pass => if a.passing { a.Process(); }
  }
}
