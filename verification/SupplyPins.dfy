/** Output pins of SupplySystem: the charger (charger.cpp) and the siren (outputs.cpp) are switched by a
    task and by interrupts that preempt it, and the battery (source.cpp) by interrupts.  Every access
    to a shared variable or pin is a step; an interrupt runs to its end once it has begun. */
module SupplyPins {

  /** Where the task is: setting the pin after `wanted` was set, with the guard loaded exclusively, or
      resetting it. */
  datatype User = Idle | WantedSet | Loaded(dontEnable: bool) | WantedCleared

  /** Where the interrupt is: forbidding (guard set, monitor cleared) or allowing. */
  datatype Irq = NoIrq | GuardSet | GuardSetCleared | GuardReset | GuardResetCleared

  /** The variables of such a pin. */
  datatype PinSnap = PinSnap(wanted: bool, forbidden: bool, pin: bool, monitor: bool, user: User, irq: Irq)

  /** A pin that is to be high when it is wanted and not forbidden: `charging` and `battery_source` of
      the charger, `siren_on` and `protection_on` of the siren. */
  class GuardedPin {
    var wanted: bool
    var forbidden: bool
    var pin: bool
    var monitor: bool       // the exclusive monitor is set
    var user: User
    var irq: Irq

    ghost predicate Valid()
      reads this
    {
      && (irq.NoIrq? ==> (pin ==> !forbidden))
      && (irq.GuardSet? || irq.GuardSetCleared? ==> forbidden)
      && (irq.GuardReset? || irq.GuardResetCleared? ==> !forbidden)
      && match user
         case Idle => (irq.NoIrq? ==> (pin <==> wanted && !forbidden))
             && (irq.GuardReset? || irq.GuardResetCleared? ==> (pin ==> wanted))
         case WantedSet => wanted
         case Loaded(dontEnable) =>
           && wanted
           && (!dontEnable && monitor && !irq.GuardSet? ==> !forbidden)
           && (dontEnable && irq.NoIrq? ==> (pin <==> !forbidden))
         case WantedCleared => !wanted
    }

    ghost function Now(): PinSnap
      reads this
    {
      PinSnap(wanted, forbidden, pin, monitor, user, irq)
    }

    constructor (forbidden: bool)
      ensures Valid() && !wanted && !pin && !monitor && this.forbidden == forbidden && user == Idle && irq == NoIrq
    {
      wanted, this.forbidden, pin, monitor, user, irq := false, forbidden, false, false, Idle, NoIrq;
    }

    /** turn_on_siren, or the start of charging: `wanted` is set. */
    method TurnOn()
      requires Valid() && user == Idle && irq == NoIrq
      modifies `wanted, `user
      ensures Valid() && wanted && user == WantedSet
    {
      wanted := true;
      user := WantedSet;
    }

    /** turn_off_siren, or the end of charging: `wanted` is cleared. */
    method TurnOff()
      requires Valid() && user == Idle && irq == NoIrq
      modifies `wanted, `user
      ensures Valid() && !wanted && user == WantedCleared
    {
      wanted := false;
      user := WantedCleared;
    }

    /** The next step of the task: of the loop of safe_enable_charging or safe_enable_siren, whose
        exclusive store may also fail for no reason, or of switching the pin off. */
    method UserStep(spurious: bool)
      requires Valid() && irq == NoIrq
      modifies `pin, `monitor, `user
      ensures Valid()
      ensures match old(user)
              case Idle => user == Idle && pin == old(pin)
              case WantedSet => user == Loaded(forbidden) && monitor && pin == old(pin)
              case Loaded(dontEnable) =>
                if dontEnable then user == Idle && pin == old(pin)
                else if old(monitor) && !spurious then user == Idle && pin
                else user == WantedSet && pin == old(pin)
              case WantedCleared => user == Idle && !pin
      ensures monitor == if old(user).WantedSet? then true
                         else if old(user).Loaded? && user == Idle then false else old(monitor)
    {
      match user
      case Idle =>
      case WantedSet =>
        monitor := true;
        user := Loaded(forbidden);
      case Loaded(dontEnable) =>
        if dontEnable {
          monitor := false;
          user := Idle;
        } else if monitor && !spurious {
          pin, monitor := true, false;
          user := Idle;
        } else {
          user := WantedSet;
        }
      case WantedCleared =>
        pin := false;
        user := Idle;
    }

    /** An interrupt begins to forbid the pin, or to allow it. */
    method Begin(forbid: bool)
      requires Valid() && irq == NoIrq
      modifies `forbidden, `irq
      ensures Valid() && forbidden == forbid && irq == if forbid then GuardSet else GuardReset
    {
      forbidden := forbid;
      irq := if forbid then GuardSet else GuardReset;
    }

    /** The next step of the interrupt. */
    method IrqStep()
      requires Valid()
      modifies `pin, `monitor, `irq
      ensures Valid() && forbidden == old(forbidden)
      ensures irq == match old(irq)
                case NoIrq => NoIrq
                case GuardSet => GuardSetCleared
                case GuardSetCleared => NoIrq
                case GuardReset => GuardResetCleared
                case GuardResetCleared => NoIrq
      ensures monitor == if old(irq).GuardSet? || old(irq).GuardReset? then false else old(monitor)
      ensures pin == match old(irq)
                case GuardSetCleared => false
                case GuardResetCleared => old(pin) || wanted
                case _ => old(pin)
    {
      match irq
      case NoIrq =>
      case GuardSet =>
        monitor := false;
        irq := GuardSetCleared;
      case GuardSetCleared =>
        pin := false;
        irq := NoIrq;
      case GuardReset =>
        monitor := false;
        irq := GuardResetCleared;
      case GuardResetCleared =>
        if wanted { pin := true; }
        irq := NoIrq;
    }

    /** Once it is wanted and left alone, the pin is switched within two steps. */
    method TurnOnAlone()
      requires Valid() && user == Idle && irq == NoIrq
      modifies this
      ensures Valid() && user == Idle && wanted && (pin <==> !forbidden)
    {
      TurnOn();
      UserStep(false);
      UserStep(false);
    }

    /** At rest the pin is what it is to be. */
    lemma AtRest()
      requires Valid() && user == Idle && irq == NoIrq
      ensures pin <==> wanted && !forbidden
    {
    }
  }

  datatype Source = BATTERY | SOCKET

  /** The handler that on_exti points to. */
  datatype Handler = Unpowered | Powered | Unstable

  /** Where an interrupt of the source is: calm; about to forbid the charger, forbidding it and about to
      connect the battery; or about to disconnect it, about to allow the charger and allowing it. */
  datatype Switch = Calm | ToBattery | Forbidding | Connecting | Disconnecting | ToSocket | Allowing

  const STOP_CHARGING_mV: nat := 14200
  const START_CHARGING_mV: nat := 12500
  const DAMAGED_BATTERY_mV: nat := 10000

  /** The supply and its charger at some time. */
  datatype Snap = Snap(battery: bool, source: Source, onExti: Handler, timeout: bool, switching: Switch, wanted: bool,
                       forbidden: bool, pin: bool, monitor: bool, user: User, irq: Irq)

  class Supply {
    const charger: GuardedPin
    var battery: bool          // the pin that connects the battery
    var source: Source
    var onExti: Handler
    var timeout: bool          // the source timeout is running
    var switching: Switch
    ghost var switched: bool   // the source has changed since the start

    ghost predicate Valid()
      reads this, charger
    {
      && charger.Valid()
      && match switching
         case Calm =>
           && charger.irq.NoIrq? && (charger.forbidden <==> source == BATTERY)
           && (battery <==> source == BATTERY && switched)
           && (source == SOCKET <==> onExti == Unpowered) && (timeout <==> onExti == Unstable)
         case ToBattery => source == BATTERY && !battery && !charger.forbidden && charger.irq.NoIrq? && !timeout
             && onExti == Unpowered
         case Forbidding => source == BATTERY && !battery && charger.forbidden && !charger.irq.GuardReset?
             && !charger.irq.GuardResetCleared?
                            && !timeout && onExti == Unpowered
         case Connecting => source == BATTERY && !battery && charger.forbidden && charger.irq.NoIrq? && !timeout
             && onExti == Unpowered
         case Disconnecting => source == SOCKET && charger.forbidden && charger.irq.NoIrq? && timeout
             && onExti == Unstable
         case ToSocket => source == SOCKET && !battery && charger.forbidden && charger.irq.NoIrq? && timeout
             && onExti == Unstable
         case Allowing => source == SOCKET && !battery && !charger.forbidden && timeout && onExti == Unstable
                          && (charger.irq.GuardReset? || charger.irq.GuardResetCleared? || charger.irq.NoIrq?)
    }

    ghost function Now(): Snap
      reads this, charger
    {
      Snap(battery, source, onExti, timeout, switching, charger.wanted, charger.forbidden, charger.pin, charger.monitor,
           charger.user, charger.irq)
    }

    /** init_source and init_charger */
    constructor (powered: bool)
      ensures Valid() && fresh(charger) && source == (if powered then SOCKET else BATTERY) && !battery && !charger.pin
      ensures onExti == (if powered then Unpowered else Powered) && switching == Calm && !switched
      ensures charger.user == Idle && !charger.wanted
    {
      charger := new GuardedPin(!powered);
      battery, timeout, switching, switched := false, false, Calm, false;
      source := if powered then SOCKET else BATTERY;
      onExti := if powered then Unpowered else Powered;
    }

    /** charger_battery_measured, up to the decision */
    method BatteryMeasured(mV: nat)
      requires Valid() && switching == Calm && charger.user == Idle
      modifies charger`wanted, charger`user
      ensures Valid()
      ensures charger.wanted <==>
                && DAMAGED_BATTERY_mV <= mV
                && (if old(charger.wanted) then mV < STOP_CHARGING_mV else mV <= START_CHARGING_mV)
      ensures charger.user == if charger.wanted == old(charger.wanted) then Idle
                              else if charger.wanted then WantedSet else WantedCleared
    {
      if charger.wanted {
        if mV >= STOP_CHARGING_mV || mV < DAMAGED_BATTERY_mV { charger.TurnOff(); }
      } else {
        if mV <= START_CHARGING_mV && mV >= DAMAGED_BATTERY_mV { charger.TurnOn(); }
      }
    }

    /** The next step of the task that measures. */
    method MeasureStep(spurious: bool)
      requires Valid() && switching == Calm
      modifies charger`pin, charger`monitor, charger`user
      ensures Valid()
      ensures TaskTook(old(Now()), spurious, Now())
    {
      charger.UserStep(spurious);
    }

    /** source_exti_isr, which comes only while no other interrupt of the supply is being handled */
    method ExtiIsr()
      requires Valid() && switching == Calm
      modifies `source, `onExti, `timeout, `switching
      ensures Valid()
      ensures match old(onExti)
              case Unpowered => source == BATTERY && switching == ToBattery && onExti == Unpowered
              case Powered => source == old(source) && switching == Calm && onExti == Unstable && timeout
              case Unstable => source == old(source) && switching == Calm && onExti == Powered && !timeout
    {
      match onExti
      case Unpowered =>
        source := BATTERY;
        switching := ToBattery;
      case Powered =>
        onExti, timeout := Unstable, true;
      case Unstable =>
        timeout, onExti := false, Powered;
    }

    /** source_timer_isr, which comes only while the timeout is running */
    method TimerIsr()
      requires Valid() && switching == Calm && timeout
      modifies `source, `switching
      ensures Valid() && source == SOCKET && switching == Disconnecting
    {
      source := SOCKET;
      switching := Disconnecting;
    }

    /** The next step of switch_to_battery or switch_to_socket, and at last of the handler. */
    method SwitchStep()
      requires Valid()
      modifies `battery, `onExti, `timeout, `switching, `switched
      modifies charger`forbidden, charger`pin, charger`monitor, charger`irq
      ensures Valid()
      ensures SwitchTook(old(Now()), Now())
      ensures switched <==> old(switched) || (old(switching) != Calm && switching == Calm)
    {
      match switching
      case Calm =>
      case ToBattery =>
        charger.Begin(true);
        switching := Forbidding;
      case Forbidding =>
        if charger.irq.NoIrq? { switching := Connecting; } else { charger.IrqStep(); }
      case Connecting =>
        battery := true;
        switched := true;
        onExti := Powered;
        switching := Calm;
      case Disconnecting =>
        battery := false;
        switching := ToSocket;
      case ToSocket =>
        charger.Begin(false);
        switching := Allowing;
      case Allowing =>
        if charger.irq.NoIrq? {
          onExti, timeout := Unpowered, false;
          switching := Calm;
          switched := true;
        } else {
          charger.IrqStep();
        }
    }

    /** The battery is never connected while it is charged. */
    lemma NeverBoth()
      requires Valid()
      ensures !(battery && charger.pin)
    {
    }
  }

  /** The socket fails: after the interrupt and five steps the battery is connected and does not charge. */
  method SocketFails(s: Supply)
    requires s.Valid() && s.switching == Calm && s.onExti == Unpowered
    modifies s, s.charger
    ensures s.Valid() && s.switching == Calm && s.source == BATTERY && s.battery && !s.charger.pin
  {
    s.ExtiIsr();
    s.SwitchStep();
    s.SwitchStep();
    s.SwitchStep();
    s.SwitchStep();
    s.SwitchStep();
  }

  /** It is back for as long as the timeout runs: the battery is disconnected, and charges if that is wanted. */
  method SocketReturns(s: Supply)
    requires s.Valid() && s.switching == Calm && s.onExti == Powered
    modifies s, s.charger
    ensures s.Valid() && s.switching == Calm && s.source == SOCKET && !s.battery && s.onExti == Unpowered
    ensures s.charger.user == Idle ==> (s.charger.pin <==> s.charger.wanted)
  {
    s.ExtiIsr();
    s.TimerIsr();
    s.SwitchStep();
    s.SwitchStep();
    s.SwitchStep();
    s.SwitchStep();
    s.SwitchStep();
  }

  /** What may happen next; the task runs only while no interrupt is being handled. */
  datatype Event = Measured(mV: nat) | TaskStep(spurious: bool) | Exti | Timer | IsrStep

  /** What a step of the task changes; the exclusive store succeeds only with the monitor set. */
  ghost predicate TaskTook(s: Snap, spurious: bool, s': Snap) {
    match s.user
    case Idle => s' == s
    case WantedSet => s' == s.(user := Loaded(s.forbidden), monitor := true)
    case Loaded(dontEnable) =>
      s' == if dontEnable then s.(user := Idle, monitor := false)
            else if s.monitor && !spurious then s.(user := Idle, pin := true, monitor := false)
            else s.(user := WantedSet)
    case WantedCleared => s' == s.(user := Idle, pin := false)
  }

  /** What the next step of switching changes: the charger is forbidden before the battery is connected, and allowed
      after it was disconnected. */
  ghost predicate SwitchTook(s: Snap, s': Snap) {
    match s.switching
    case Calm => s' == s
    case ToBattery => s' == s.(forbidden := true, irq := GuardSet, switching := Forbidding)
    case Forbidding =>
      s' == (match s.irq
             case GuardSet => s.(monitor := false, irq := GuardSetCleared)
             case GuardSetCleared => s.(pin := false, irq := NoIrq)
             case _ => s.(switching := Connecting))
    case Connecting => s' == s.(battery := true, onExti := Powered, switching := Calm)
    case Disconnecting => s' == s.(battery := false, switching := ToSocket)
    case ToSocket => s' == s.(forbidden := false, irq := GuardReset, switching := Allowing)
    case Allowing =>
      s' == (match s.irq
             case GuardReset => s.(monitor := false, irq := GuardResetCleared)
             case GuardResetCleared => s.(pin := s.pin || s.wanted, irq := NoIrq)
             case _ => s.(onExti := Unpowered, timeout := false, switching := Calm))
  }

  /** What an event changes; those of the task wait while an interrupt is being handled. */
  ghost predicate Took(s: Snap, e: Event, s': Snap) {
    match e
    case Measured(mV) =>
      s' == if s.switching != Calm || s.user != Idle then s
            else if s.wanted && (mV >= 14200 || mV < 10000) then s.(wanted := false, user := WantedCleared)
            else if !s.wanted && 10000 <= mV <= 12500 then s.(wanted := true, user := WantedSet)
            else s
    case TaskStep(spurious) => if s.switching == Calm then TaskTook(s, spurious, s') else s' == s
    case Exti =>
      s' == (if s.switching != Calm then s
             else match s.onExti
                  case Unpowered => s.(source := BATTERY, switching := ToBattery)
                  case Powered => s.(onExti := Unstable, timeout := true)
                  case Unstable => s.(onExti := Powered, timeout := false))
    case Timer => s' == if s.switching == Calm && s.timeout then s.(source := SOCKET, switching := Disconnecting) else s
    case IsrStep => SwitchTook(s, s')
  }

  method Step(s: Supply, e: Event)
    requires s.Valid()
    modifies s, s.charger
    ensures s.Valid() && Took(old(s.Now()), e, s.Now())
  {
    match e
    case Measured(mV) => if s.switching == Calm && s.charger.user == Idle { s.BatteryMeasured(mV); }
    case TaskStep(spurious) => if s.switching == Calm { s.MeasureStep(spurious); }
    case Exti => if s.switching == Calm { s.ExtiIsr(); }
    case Timer => if s.switching == Calm && s.timeout { s.TimerIsr(); }
    case IsrStep => s.SwitchStep();
  }

  /** In no run are the battery and its charger on at once, at any step; when all is calm, the charger
      is on if and only if charging is wanted and the source is the socket. */
  method Run(s: Supply, events: seq<Event>) returns (pins: seq<(bool, bool)>, ghost snaps: seq<Snap>)
    requires s.Valid()
    modifies s, s.charger
    ensures s.Valid() && |pins| == |events|
    ensures |snaps| == |events| + 1 && snaps[0] == old(s.Now()) && snaps[|events|] == s.Now()
    ensures forall i :: 0 <= i < |events| ==>
              Took(snaps[i], events[i], snaps[i + 1]) && pins[i] == (snaps[i + 1].battery, snaps[i + 1].pin)
    ensures forall i :: 0 <= i < |pins| ==> !(pins[i].0 && pins[i].1)
    ensures s.switching == Calm && s.charger.user == Idle ==>
            (s.charger.pin <==> s.charger.wanted && s.source == SOCKET)
    ensures s.switching == Calm && s.switched ==> (s.battery <==> s.source == BATTERY)
  {
    pins, snaps := [], [s.Now()];
    var i := 0;
    while i < |events|
      invariant i == |pins| <= |events| && s.Valid()
      invariant forall k :: 0 <= k < i ==> !(pins[k].0 && pins[k].1)
      invariant |snaps| == i + 1 && snaps[0] == old(s.Now()) && snaps[i] == s.Now()
      invariant forall k :: 0 <= k < i ==>
                  Took(snaps[k], events[k], snaps[k + 1]) && pins[k] == (snaps[k + 1].battery, snaps[k + 1].pin)
    {
      Step(s, events[i]);
      s.NeverBoth();
      pins, snaps := pins + [(s.battery, s.charger.pin)], snaps + [s.Now()];
      i := i + 1;
    }
  }

  /** The siren: output_protection_changed against turn_on_siren and turn_off_siren. */
  datatype SirenEvent = On | Off | SirenTask(spurious: bool) | Protection(applied: bool) | ProtectionStep

  /** What it changes; the task waits while an interrupt is being handled. */
  ghost predicate SirenTook(s: PinSnap, e: SirenEvent, s': PinSnap) {
    match e
    case On => s' == if s.user == Idle && s.irq == NoIrq then s.(wanted := true, user := WantedSet) else s
    case Off => s' == if s.user == Idle && s.irq == NoIrq then s.(wanted := false, user := WantedCleared) else s
    case SirenTask(spurious) => if s.irq == NoIrq then SirenTaskTook(s, spurious, s') else s' == s
    case Protection(applied) =>
      s' == if s.irq == NoIrq then s.(forbidden := applied, irq := if applied then GuardSet else GuardReset) else s
    case ProtectionStep =>
      s' == match s.irq
            case NoIrq => s
            case GuardSet => s.(monitor := false, irq := GuardSetCleared)
            case GuardSetCleared => s.(pin := false, irq := NoIrq)
            case GuardReset => s.(monitor := false, irq := GuardResetCleared)
            case GuardResetCleared => s.(pin := s.pin || s.wanted, irq := NoIrq)
  }

  ghost predicate SirenTaskTook(s: PinSnap, spurious: bool, s': PinSnap) {
    match s.user
    case Idle => s' == s
    case WantedSet => s' == s.(user := Loaded(s.forbidden), monitor := true)
    case Loaded(dontEnable) =>
      s' == if dontEnable then s.(user := Idle, monitor := false)
            else if s.monitor && !spurious then s.(user := Idle, pin := true, monitor := false)
            else s.(user := WantedSet)
    case WantedCleared => s' == s.(user := Idle, pin := false)
  }

  method SirenStep(siren: GuardedPin, e: SirenEvent)
    requires siren.Valid()
    modifies siren
    ensures siren.Valid() && SirenTook(old(siren.Now()), e, siren.Now())
  {
    match e
    case On => if siren.user == Idle && siren.irq == NoIrq { siren.TurnOn(); }
    case Off => if siren.user == Idle && siren.irq == NoIrq { siren.TurnOff(); }
    case SirenTask(spurious) => if siren.irq == NoIrq { siren.UserStep(spurious); }
    case Protection(applied) => if siren.irq == NoIrq { siren.Begin(applied); }
    case ProtectionStep => siren.IrqStep();
  }

  method RunSiren(siren: GuardedPin, events: seq<SirenEvent>) returns (ghost snaps: seq<PinSnap>)
    requires siren.Valid()
    modifies siren
    ensures siren.Valid()
    ensures |snaps| == |events| + 1 && snaps[0] == old(siren.Now()) && snaps[|events|] == siren.Now()
    ensures forall i :: 0 <= i < |events| ==> SirenTook(snaps[i], events[i], snaps[i + 1])
    ensures siren.user == Idle && siren.irq == NoIrq ==> (siren.pin <==> siren.wanted && !siren.forbidden)
  {
    snaps := [siren.Now()];
    var i := 0;
    while i < |events|
      invariant i <= |events| && siren.Valid()
      invariant |snaps| == i + 1 && snaps[0] == old(siren.Now()) && snaps[i] == siren.Now()
      invariant forall k :: 0 <= k < i ==> SirenTook(snaps[k], events[k], snaps[k + 1])
    {
      SirenStep(siren, events[i]);
      i, snaps := i + 1, snaps + [siren.Now()];
    }
    if siren.user == Idle && siren.irq == NoIrq { siren.AtRest(); }
  }
}
