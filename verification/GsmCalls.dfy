/** Phases of a GSM call (GSMService/call.h, call.cpp) against the delivery of callbacks by the handler
    task (GSMService/callback_handling.cpp).  One thread of modem events and command results writes
    the actual phase; every read and write of a shared variable is a step of its own. */
module GsmCalls {
  import opened Guards

  datatype Phase = NONE | STARTED | RINGING | SPEAKING | ENDED

  predicate IsOngoing(p: Phase) {
    p == STARTED || p == RINGING || p == SPEAKING
  }

  predicate IsDialing(p: Phase) {
    p == STARTED || p == RINGING
  }

  datatype Callback = Incoming | Dialed | Ended | Key

  /** The last of the "dialed" and "ended" callbacks was "dialed". */
  ghost predicate InCall(log: seq<Callback>) {
    log != [] && (var c := log[|log| - 1]; c == Dialed || (c != Ended && InCall(log[..|log| - 1])))
  }

  /** "Dialed" and "ended" alternate, "dialed" first, and keys come in between. */
  ghost predicate Ordered(log: seq<Callback>) {
    log == [] || (var rest, c := log[..|log| - 1], log[|log| - 1];
                  Ordered(rest) && (c == Dialed ==> !InCall(rest)) && (c == Ended || c == Key ==> InCall(rest)))
  }

  lemma Delivered(log: seq<Callback>, c: Callback)
    requires Ordered(log) && (c == Dialed ==> !InCall(log)) && (c == Ended || c == Key ==> InCall(log))
    ensures Ordered(log + [c])
    ensures InCall(log + [c]) == if c == Dialed then true else if c == Ended then false else InCall(log)
  {
    assert (log + [c])[..|log|] == log;
  }

  /** In other words: an "ended" lies between any two "dialed"... */
  lemma {:induction false} EndedBetween(log: seq<Callback>, i: nat, j: nat) returns (k: nat)
    requires Ordered(log) && i < j < |log| && log[i] == Dialed && log[j] == Dialed
    ensures i < k < j && log[k] == Ended
    decreases |log|
  {
    if j < |log| - 1 {
      k := EndedBetween(log[..|log| - 1], i, j);
    } else {
      k := LastEnded(log[..j], i);
    }
  }

  lemma {:induction false} LastEnded(log: seq<Callback>, i: nat) returns (k: nat)
    requires !InCall(log) && i < |log| && log[i] == Dialed
    ensures i < k < |log| && log[k] == Ended
  {
    if log[|log| - 1] == Ended {
      k := |log| - 1;
    } else {
      k := LastEnded(log[..|log| - 1], i);
    }
  }

  /** ...and before any "ended" or key there is a "dialed" with no "ended" in between. */
  lemma {:induction false} DialedBefore(log: seq<Callback>, j: nat) returns (i: nat)
    requires Ordered(log) && j < |log| && (log[j] == Ended || log[j] == Key)
    ensures i < j && log[i] == Dialed && forall k :: i < k < j ==> log[k] != Ended
    decreases |log|
  {
    if j < |log| - 1 {
      i := DialedBefore(log[..|log| - 1], j);
    } else {
      i := LastDialed(log[..j]);
    }
  }

  lemma {:induction false} LastDialed(log: seq<Callback>) returns (i: nat)
    requires InCall(log)
    ensures i < |log| && log[i] == Dialed && forall k :: i < k < |log| ==> log[k] != Ended
  {
    if log[|log| - 1] == Dialed {
      i := |log| - 1;
    } else {
      i := LastDialed(log[..|log| - 1]);
    }
  }

  /** What the modem, or the result of a command, may bring. */
  datatype Event = IncomingRinging | IncomingSpeaking | Ring | CallEnd | OutgoingDialed | KeyPressed

  /** Where the writing thread is: nowhere, with a checked new phase, or before the notification. */
  datatype Writer = Idle | Checked(target: Phase) | Notifying

  /** Where the handler task is in handle_events. */
  datatype Handler = Waiting | BitsTaken | HandledRead | ActualRead | KeysDone | Branching
                   | IncomingDue | DialedDue | EndSeen | HandledReset | EndedDue | Otherwise

  /** The shared variables, the locals of the two threads and the callbacks made so far. */
  datatype Snap = Snap(actual: Phase, handled: Phase, incoming: bool, notifiedState: bool, notifiedKey: bool,
                       writer: Writer, handler: Handler, stateBit: bool, keyBit: bool, handledNow: Phase,
                       actualNow: Phase, incomingNow: bool, log: seq<Callback>)

  /** What the modem brings makes the writer change the phase, unless it does not fit the present one. */
  ghost predicate Noticed(s: Snap, e: Event, s': Snap) {
    && s' == s.(writer := s'.writer, incoming := s'.incoming, notifiedKey := s'.notifiedKey)
    && s'.notifiedKey == (s.notifiedKey || e == KeyPressed)
    && s'.incoming == (e != OutgoingDialed && (s.incoming || (e == IncomingRinging && s.actual == NONE)))
    && Aims(e, s.actual, s.writer, s'.writer)
  }

  ghost predicate Aims(e: Event, actual: Phase, w: Writer, w': Writer) {
    match e
    case IncomingRinging => w' == if actual == NONE then Checked(STARTED) else w
    case IncomingSpeaking => w' == if actual == STARTED || actual == RINGING then Checked(SPEAKING) else w
    case Ring => w' == if actual == STARTED then Checked(RINGING) else w
    case CallEnd => w' == if actual != NONE && actual != ENDED then Checked(ENDED) else w
    case OutgoingDialed => w' == Checked(SPEAKING)
    case KeyPressed => w' == w
  }

  ghost predicate Wrote(s: Snap, s': Snap) {
    match s.writer
    case Idle => s' == s
    case Checked(target) => s' == s.(actual := target, writer := Notifying)
    case Notifying => s' == s.(notifiedState := true, writer := Idle)
  }

  /** What is made of a change of the phase. */
  ghost predicate Branched(s: Snap, s': Snap) {
    if s.actualNow == RINGING && s.handledNow != RINGING then s' == s.(handled := RINGING, handler := IncomingDue)
    else if s.actualNow == SPEAKING && s.handledNow != SPEAKING then s' == s.(handled := SPEAKING, handler := DialedDue)
    else if s.actual == ENDED then s' == s.(handler := EndSeen)
    else s' == s.(handler := Otherwise)
  }

  /** The steps of handle_events. */
  ghost predicate Handled(s: Snap, s': Snap) {
    match s.handler
    case Waiting =>
      s' == if !s.notifiedState && !s.notifiedKey then s
            else s.(stateBit := s.notifiedState, keyBit := s.notifiedKey, notifiedState := false, notifiedKey := false,
                    handler := BitsTaken)
    case BitsTaken => s' == s.(handledNow := s.handled, handler := HandledRead)
    case HandledRead => s' == s.(actualNow := s.actual, incomingNow := s.incoming, handler := ActualRead)
    case ActualRead =>
      s' == s.(log := s.log + (if s.keyBit && s.handledNow == SPEAKING then [Key] else []), handler := KeysDone)
    case KeysDone => s' == s.(handler := if s.stateBit then Branching else Waiting)
    case Branching => Branched(s, s')
    case IncomingDue => s' == s.(log := s.log + (if s.incomingNow then [Incoming] else []), handler := Waiting)
    case DialedDue => s' == s.(log := s.log + [Dialed], handler := Waiting)
    case EndSeen => s' == s.(handled := NONE, handler := HandledReset)
    case HandledReset => s' == s.(actual := NONE, handler := EndedDue)
    case EndedDue => s' == s.(log := s.log + (if s.handledNow == SPEAKING then [Ended] else []), handler := Waiting)
    case Otherwise => s' == s.(handled := s.actualNow, handler := Waiting)
  }

  /** The check that precedes a write of the phase still holds. */
  ghost predicate WriterFits(writer: Writer, actual: Phase) {
    writer.Checked? ==> match writer.target
      case ENDED => IsOngoing(actual)
      case STARTED => actual == NONE
      case RINGING => actual == STARTED
      case SPEAKING => IsDialing(actual) || actual == NONE
      case NONE => false
  }

  /** What the handler knows, and what was delivered: `inCall` if the last of "dialed" and "ended" is "dialed". */
  ghost predicate HandlerFits(handler: Handler, actual: Phase, handled: Phase, handledNow: Phase, actualNow: Phase,
                              inCall: bool) {
    && (handled == SPEAKING && !handler.HandledReset? && !handler.EndedDue? ==>
          actual == SPEAKING || actual == ENDED)
    && match handler
       case Waiting | BitsTaken => handled == SPEAKING <==> inCall
       case HandledRead => handledNow == handled && (handled == SPEAKING <==> inCall)
       case ActualRead | KeysDone | Branching =>
         && handledNow == handled && (handled == SPEAKING <==> inCall) && SnapshotFits(actual, handledNow, actualNow)
       case IncomingDue => handled == RINGING && !inCall
       case DialedDue => handled == SPEAKING && !inCall
       case EndSeen => handledNow == handled && (handled == SPEAKING <==> inCall) && actual == ENDED
       case HandledReset => handled == NONE && (handledNow == SPEAKING <==> inCall) && actual == ENDED
       case EndedDue => handled == NONE && (handledNow == SPEAKING <==> inCall)
       case Otherwise =>
         handledNow == handled && (actualNow == SPEAKING <==> inCall) && SnapshotFits(actual, handledNow, actualNow)
  }

  /** Since it was read the phase can have moved on only in one way from "speaking" and "ended". */
  ghost predicate SnapshotFits(actual: Phase, handledNow: Phase, actualNow: Phase) {
    && (actualNow == SPEAKING ==> actual == SPEAKING || actual == ENDED)
    && (actualNow == ENDED ==> actual == ENDED)
    && (handledNow == SPEAKING ==> actualNow == SPEAKING || actualNow == ENDED)
  }

  /** What the handler has not been told of, or does not look at now, is pending. */
  ghost predicate Informed(handler: Handler, actual: Phase, handled: Phase, actualNow: Phase, stateBit: bool,
                           pending: bool) {
    && handled != ENDED
    && match handler
       case Waiting | IncomingDue | DialedDue | EndedDue => handled == actual || pending
       case BitsTaken | HandledRead => handled == actual || pending || stateBit
       case ActualRead | KeysDone =>
         (actualNow == actual || pending) && (handled == actual || pending || stateBit)
       case Branching => actualNow == actual || pending
       case Otherwise => actualNow != ENDED && (actualNow == actual || pending)
       case EndSeen | HandledReset => true
  }

  /** A change of the phase has been notified, or is about to be. */
  ghost predicate IsPending(s: Snap) {
    s.notifiedState || s.writer.Notifying?
  }

  ghost predicate Fits(s: Snap) {
    Ordered(s.log) && ThreadsFit(s, InCall(s.log))
  }

  ghost predicate ThreadsFit(s: Snap, inCall: bool) {
    forall k: nat :: Opens(k) ==>
      && WriterFits(s.writer, s.actual)
      && HandlerFits(s.handler, s.actual, s.handled, s.handledNow, s.actualNow, inCall)
      && Informed(s.handler, s.actual, s.handled, s.actualNow, s.stateBit, IsPending(s))
  }

  lemma NoticeKeeps(s: Snap, e: Event, s': Snap)
    requires Fits(s) && s.writer == Idle && (e.OutgoingDialed? ==> s.actual == NONE) && Noticed(s, e, s')
    ensures Fits(s')
  {
    NoticeFits(s, e, s', InCall(s.log));
  }

  lemma NoticeFits(s: Snap, e: Event, s': Snap, inCall: bool)
    requires ThreadsFit(s, inCall) && s.writer == Idle && (e.OutgoingDialed? ==> s.actual == NONE) && Noticed(s, e, s')
    ensures ThreadsFit(s', inCall) && s'.log == s.log
  {
    Targets(s, e, s');
    OnlyWriter(s, s', inCall);
  }

  lemma Targets(s: Snap, e: Event, s': Snap)
    requires s.writer == Idle && (e.OutgoingDialed? ==> s.actual == NONE) && Noticed(s, e, s')
    ensures !s'.writer.Notifying? && WriterFits(s'.writer, s.actual)
    ensures s' == s.(writer := s'.writer, incoming := s'.incoming, notifiedKey := s'.notifiedKey)
  {
  }

  lemma OnlyWriter(s: Snap, s': Snap, inCall: bool)
    requires ThreadsFit(s, inCall) && s.writer == Idle
    requires !s'.writer.Notifying? && WriterFits(s'.writer, s.actual)
    requires s' == s.(writer := s'.writer, incoming := s'.incoming, notifiedKey := s'.notifiedKey)
    ensures ThreadsFit(s', inCall)
  {
    assert Opens(0);
  }

  lemma WriteKeeps(s: Snap, s': Snap)
    requires Fits(s) && Wrote(s, s')
    ensures Fits(s')
  {
    assert Opens(0);
  }

  lemma HandleKeeps(s: Snap, s': Snap)
    requires Fits(s) && Handled(s, s')
    ensures Fits(s') && s.log <= s'.log
  {
    match s.handler {
      case Waiting | BitsTaken | HandledRead => ReadingKeeps(s, s');
      case ActualRead | KeysDone => KeysKeep(s, s');
      case Branching => BranchKeeps(s, s');
      case EndSeen | HandledReset | Otherwise => FinishKeeps(s, s');
      case IncomingDue | DialedDue | EndedDue => CallKeeps(s, s');
    }
  }

  lemma ReadingKeeps(s: Snap, s': Snap)
    requires Fits(s) && Handled(s, s') && (s.handler.Waiting? || s.handler.BitsTaken? || s.handler.HandledRead?)
    ensures Fits(s') && s.log <= s'.log
  {
    assert Opens(0);
  }

  lemma BranchKeeps(s: Snap, s': Snap)
    requires Fits(s) && Handled(s, s') && s.handler.Branching?
    ensures Fits(s') && s.log <= s'.log
  {
    assert Branched(s, s');
    if s.actualNow == RINGING && s.handledNow != RINGING {
      IncomingFits(s, s', InCall(s.log));
    } else if s.actualNow == SPEAKING && s.handledNow != SPEAKING {
      DialedFits(s, s', InCall(s.log));
    } else {
      NeitherFits(s, s', InCall(s.log));
    }
  }

  lemma IncomingFits(s: Snap, s': Snap, inCall: bool)
    requires ThreadsFit(s, inCall) && s.handler.Branching?
    requires s.actualNow == RINGING && s.handledNow != RINGING && s' == s.(handled := RINGING, handler := IncomingDue)
    ensures ThreadsFit(s', inCall)
  {
    assert Opens(0);
  }

  lemma DialedFits(s: Snap, s': Snap, inCall: bool)
    requires ThreadsFit(s, inCall) && s.handler.Branching?
    requires s.actualNow == SPEAKING && s.handledNow != SPEAKING && s' == s.(handled := SPEAKING, handler := DialedDue)
    ensures ThreadsFit(s', inCall)
  {
    assert Opens(0);
  }

  lemma NeitherFits(s: Snap, s': Snap, inCall: bool)
    requires ThreadsFit(s, inCall) && s.handler.Branching?
    requires s.actualNow == SPEAKING ==> s.handledNow == SPEAKING
    requires if s.actual == ENDED then s' == s.(handler := EndSeen) else s' == s.(handler := Otherwise)
    ensures ThreadsFit(s', inCall)
  {
    assert Opens(0);
  }

  lemma KeysKeep(s: Snap, s': Snap)
    requires Fits(s) && Handled(s, s') && (s.handler.ActualRead? || s.handler.KeysDone?)
    ensures Fits(s') && s.log <= s'.log
  {
    assert Opens(0);
    assert s.log + [] == s.log;
    if s.handler.ActualRead? && s.keyBit && s.handledNow == SPEAKING { Delivered(s.log, Key); }
  }

  lemma FinishKeeps(s: Snap, s': Snap)
    requires Fits(s) && Handled(s, s') && (s.handler.EndSeen? || s.handler.HandledReset? || s.handler.Otherwise?)
    ensures Fits(s') && s.log <= s'.log
  {
    assert Opens(0);
  }

  lemma CallKeeps(s: Snap, s': Snap)
    requires Fits(s) && Handled(s, s') && (s.handler.IncomingDue? || s.handler.DialedDue? || s.handler.EndedDue?)
    ensures Fits(s') && s.log <= s'.log
  {
    assert s.log + [] == s.log;
    if s.handler.IncomingDue? && s.incomingNow { Delivered(s.log, Incoming); }
    if s.handler.DialedDue? { DialedMakes(s, s'); }
    if s.handler.EndedDue? { EndedMakes(s, s'); }
    CalledFits(s, s', InCall(s.log), InCall(s'.log));
  }

  lemma DialedMakes(s: Snap, s': Snap)
    requires Fits(s) && Handled(s, s') && s.handler.DialedDue?
    ensures Ordered(s'.log) && InCall(s'.log)
  {
    assert Opens(0);
    Delivered(s.log, Dialed);
  }

  lemma EndedMakes(s: Snap, s': Snap)
    requires Fits(s) && Handled(s, s') && s.handler.EndedDue?
    ensures Ordered(s'.log) && !InCall(s'.log)
  {
    assert Opens(0);
    if s.handledNow == SPEAKING { Delivered(s.log, Ended); } else { assert s.log + [] == s.log; }
  }

  lemma CalledFits(s: Snap, s': Snap, inCall: bool, inCall': bool)
    requires ThreadsFit(s, inCall) && Handled(s, s')
    requires match s.handler
             case IncomingDue => inCall' == inCall
             case DialedDue => inCall'
             case EndedDue => !inCall'
             case _ => false
    ensures ThreadsFit(s', inCall')
  {
    assert Opens(0);
  }

  class Gsm {
    var actual: Phase         // actual_call_phase
    var handled: Phase        // handled_call_phase
    var incoming: bool        // call_direction
    var notifiedState: bool   // notification bits of the task
    var notifiedKey: bool
    var writer: Writer
    var handler: Handler
    var stateBit: bool        // locals of handle_events
    var keyBit: bool
    var handledNow: Phase
    var actualNow: Phase
    var incomingNow: bool
    var log: seq<Callback>

    ghost function Now(): Snap
      reads this
    {
      Snap(actual, handled, incoming, notifiedState, notifiedKey, writer, handler, stateBit, keyBit, handledNow,
           actualNow, incomingNow, log)
    }

    ghost predicate Pending()
      reads `notifiedState, `writer
    {
      notifiedState || writer.Notifying?
    }

    ghost predicate Valid()
      reads this
    {
      forall k: nat :: Opens(k) ==> Fits(Now())
    }

    constructor ()
      ensures Valid() && log == [] && actual == handled == NONE && !notifiedState && !notifiedKey
      ensures writer == Idle && handler == Waiting
    {
      actual, handled, incoming, notifiedState, notifiedKey := NONE, NONE, true, false, false;
      writer, handler, stateBit, keyBit := Idle, Waiting, false, false;
      handledNow, actualNow, incomingNow, log := NONE, NONE, true, [];
    }

    lemma FitsNow()
      requires Valid()
      ensures Fits(Now())
    {
      assert Opens(0);
    }

    lemma ValidNow()
      requires Fits(Now())
      ensures Valid()
    {
    }

    /** The check of an event handler in call.cpp; a key needs none.  A dialled call is known to be
        answered while the phase is still "none". */
    method Notice(e: Event)
      requires Valid() && writer == Idle && (e.OutgoingDialed? ==> actual == NONE)
      modifies `writer, `incoming, `notifiedKey
      ensures Valid() && Noticed(old(Now()), e, Now())
    {
      FitsNow();
      Check(e);
      NoticeKeeps(old(Now()), e, Now());
      ValidNow();
    }

    method Check(e: Event)
      requires writer == Idle
      modifies `writer, `incoming, `notifiedKey
      ensures Aims(e, actual, old(writer), writer) && notifiedKey == (old(notifiedKey) || e == KeyPressed)
      ensures incoming == (e != OutgoingDialed && (old(incoming) || (e == IncomingRinging && actual == NONE)))
    {
      match e {
        case IncomingRinging => if actual == NONE { incoming := true; writer := Checked(STARTED); }
        case IncomingSpeaking => if IsDialing(actual) { writer := Checked(SPEAKING); }
        case Ring => if actual == STARTED { writer := Checked(RINGING); }
        case CallEnd => if IsOngoing(actual) { writer := Checked(ENDED); }
        case OutgoingDialed => incoming := false; writer := Checked(SPEAKING);
        case KeyPressed => notifiedKey := true;
      }
    }

    /** change_call_phase: the write, and then the notification */
    method Write()
      requires Valid()
      modifies `writer, `actual, `notifiedState
      ensures Valid() && Wrote(old(Now()), Now())
    {
      assert Opens(0);
      match writer {
        case Idle =>
        case Checked(target) =>
          actual := target;
          writer := Notifying;
        case Notifying =>
          notifiedState := true;
          writer := Idle;
      }
      WriteKeeps(old(Now()), Now());
    }

    /** The next step of handle_events. */
    method Handle()
      requires Valid()
      modifies this
      ensures Valid() && Handled(old(Now()), Now()) && old(log) <= log
    {
      assert Opens(0);
      match handler {
        case Waiting | BitsTaken | HandledRead => Look();
        case ActualRead | KeysDone => Keys();
        case Branching => Branch();
        case EndSeen | HandledReset | Otherwise => Finish();
        case IncomingDue | DialedDue | EndedDue => Call();
      }
      HandleKeeps(old(Now()), Now());
    }

    /** The bits and the two phases. */
    method Look()
      requires handler.Waiting? || handler.BitsTaken? || handler.HandledRead?
      modifies `notifiedState, `notifiedKey, `handler, `stateBit, `keyBit, `handledNow, `actualNow, `incomingNow
      ensures Handled(old(Now()), Now())
    {
      match handler
      case Waiting =>
        if notifiedState || notifiedKey {
          stateBit, keyBit, notifiedState, notifiedKey := notifiedState, notifiedKey, false, false;
          handler := BitsTaken;
        }
      case BitsTaken =>
        handledNow := handled;
        handler := HandledRead;
      case HandledRead =>
        actualNow, incomingNow := actual, incoming;
        handler := ActualRead;
    }

    /** The key. */
    method Keys()
      requires handler.ActualRead? || handler.KeysDone?
      modifies `log, `handler
      ensures Handled(old(Now()), Now())
    {
      assert log + [] == log;
      match handler
      case ActualRead =>
        if keyBit && handledNow == SPEAKING { log := log + [Key]; }
        handler := KeysDone;
      case KeysDone =>
        if stateBit { handler := Branching; } else { handler := Waiting; }
    }

    /** What is made of a change of the phase. */
    method Branch()
      requires handler.Branching?
      modifies `handled, `handler
      ensures Branched(old(Now()), Now())
    {
      ghost var s := Now();
      if actualNow == RINGING && handledNow != RINGING {
        handled, handler := RINGING, IncomingDue;
        assert Now() == s.(handled := RINGING, handler := IncomingDue);
      } else if actualNow == SPEAKING && handledNow != SPEAKING {
        handled, handler := SPEAKING, DialedDue;
        assert Now() == s.(handled := SPEAKING, handler := DialedDue);
      } else {
        handler := if actual == ENDED then EndSeen else Otherwise;
        assert Now() == s.(handler := handler);
      }
    }

    method Finish()
      requires handler.EndSeen? || handler.HandledReset? || handler.Otherwise?
      modifies `handled, `actual, `handler
      ensures Handled(old(Now()), Now())
    {
      match handler
      case EndSeen =>
        handled := NONE;
        handler := HandledReset;
      case HandledReset =>
        actual := NONE;
        handler := EndedDue;
      case Otherwise =>
        handled := actualNow;
        handler := Waiting;
    }

    method Call()
      requires handler.IncomingDue? || handler.DialedDue? || handler.EndedDue?
      modifies `log, `handler
      ensures Handled(old(Now()), Now())
    {
      assert log + [] == log;
      if handler.DialedDue? {
        log := log + [Dialed];
      } else if handler.EndedDue? {
        if handledNow == SPEAKING { log := log + [Ended]; }
      } else if incomingNow {
        log := log + [Incoming];
      }
      handler := Waiting;
    }
  }

  /** An ended call is notified of, or about to be, or the handler is at it. */
  lemma EndIsComing(g: Gsm)
    requires g.Valid() && g.actual == ENDED
    ensures g.Pending() || !g.handler.Waiting?
    ensures g.Pending() || g.stateBit || g.handler.Branching? || g.handler.EndSeen? || g.handler.HandledReset?
  {
    assert Opens(0);
  }

  /** With nothing pending and the handler waiting, all is delivered: the last of "dialed" and
      "ended" says whether somebody speaks. */
  lemma Quiet(g: Gsm)
    requires g.Valid() && g.handler.Waiting? && !g.Pending()
    ensures g.handled == g.actual != ENDED
    ensures InCall(g.log) <==> g.actual == SPEAKING
  {
    assert Opens(0);
  }

  /** Who moves next. */
  datatype Choice = Modem(e: Event) | WriteOn | HandleOn

  ghost predicate Took(s: Snap, c: Choice, s': Snap) {
    match c
    case Modem(e) =>
      if s.writer == Idle && (e == OutgoingDialed ==> s.actual == NONE) then Noticed(s, e, s') else s' == s
    case WriteOn => Wrote(s, s')
    case HandleOn => Handled(s, s')
  }

  method Step(g: Gsm, c: Choice)
    requires g.Valid()
    modifies g
    ensures g.Valid() && Took(old(g.Now()), c, g.Now()) && old(g.log) <= g.log
  {
    match c
    case Modem(e) => if g.writer == Idle && (e == OutgoingDialed ==> g.actual == NONE) { g.Notice(e); }
    case WriteOn => g.Write();
    case HandleOn => g.Handle();
  }

  /** What the modem brings, and all that the handler makes of it. */
  method Respond(g: Gsm, e: Event)
    requires g.Valid() && g.writer == Idle && g.handler == Waiting && !g.notifiedState && !g.notifiedKey
    requires !e.KeyPressed? && (e.OutgoingDialed? ==> g.actual == NONE)
    modifies g
    ensures g.Valid() && g.writer == Idle && g.handler == Waiting && !g.notifiedState && !g.notifiedKey
    ensures old(g.actual) == NONE && e == IncomingRinging ==> g.actual == STARTED && g.log == old(g.log) && g.incoming
    ensures old(g.actual) == NONE && e == OutgoingDialed ==> g.actual == SPEAKING && g.log == old(g.log) + [Dialed]
    ensures old(g.actual) == STARTED && e == Ring ==>
              g.actual == RINGING && g.log == old(g.log) + (if g.incoming then [Incoming] else [])
    ensures (old(g.actual) == STARTED || old(g.actual) == RINGING) && e == IncomingSpeaking ==>
              g.actual == SPEAKING && g.log == old(g.log) + [Dialed]
    ensures old(g.actual) in {STARTED, RINGING} && e == CallEnd ==> g.actual == NONE && g.log == old(g.log)
    ensures old(g.actual) == SPEAKING && e == CallEnd ==> g.actual == NONE && g.log == old(g.log) + [Ended]
    ensures g.incoming == if old(g.actual) == NONE && e == IncomingRinging then true
                          else if e == OutgoingDialed then false else old(g.incoming)
  {
    Quiet(g);
    Change(g, e);
    assert g.log + [] == g.log;
    if g.notifiedState { HandleChange(g); }
  }

  /** The writing thread from the modem's message to its notification. */
  method Change(g: Gsm, e: Event)
    requires g.Valid() && g.writer == Idle && g.handler == Waiting && !g.notifiedState && !g.notifiedKey
    requires !e.KeyPressed? && (e.OutgoingDialed? ==> g.actual == NONE)
    modifies g`writer, g`incoming, g`notifiedKey, g`actual, g`notifiedState
    ensures g.Valid() && g.writer == Idle && !g.notifiedKey
    ensures var was := old(g.actual);
            if e == IncomingRinging && was == NONE then g.actual == STARTED && g.notifiedState
            else if e == IncomingSpeaking && was in {STARTED, RINGING} then g.actual == SPEAKING && g.notifiedState
            else if e == Ring && was == STARTED then g.actual == RINGING && g.notifiedState
            else if e == CallEnd && was in {STARTED, RINGING, SPEAKING} then g.actual == ENDED && g.notifiedState
            else if e == OutgoingDialed then g.actual == SPEAKING && g.notifiedState
            else g.actual == was && !g.notifiedState
    ensures g.incoming == if e == IncomingRinging && old(g.actual) == NONE then true
                          else if e == OutgoingDialed then false else old(g.incoming)
  {
    g.Notice(e);
    if g.writer.Checked? {
      g.Write();
      g.Write();
    }
  }

  /** The handler from its notification on to its next wait. */
  method HandleChange(g: Gsm)
    requires g.Valid() && g.writer == Idle && g.handler == Waiting && g.notifiedState && !g.notifiedKey
    requires g.handled == SPEAKING ==> g.actual == ENDED
    requires g.handled == RINGING ==> g.actual != RINGING
    modifies g
    ensures g.Valid() && g.writer == Idle && g.handler == Waiting && !g.notifiedState && !g.notifiedKey
    ensures g.actual == (if old(g.actual) == ENDED then NONE else old(g.actual)) && g.incoming == old(g.incoming)
    ensures g.log == old(g.log) + match old(g.actual)
              case RINGING => if g.incoming then [Incoming] else []
              case SPEAKING => [Dialed]
              case ENDED => if old(g.handled) == SPEAKING then [Ended] else []
              case _ => []
  {
    LookAround(g);
    FollowUp(g);
  }

  method LookAround(g: Gsm)
    requires g.Valid() && g.writer == Idle && g.handler == Waiting && g.notifiedState && !g.notifiedKey
    modifies g
    ensures g.Valid() && g.handler == Branching && g.Now() == old(g.Now()).(notifiedState := false, stateBit := true,
              keyBit := false, handler := Branching, handledNow := g.handled, actualNow := g.actual,
              incomingNow := g.incoming)
  {
    assert g.log + [] == g.log;
    g.Handle();
    g.Handle();
    g.Handle();
    g.Handle();
    g.Handle();
  }

  method FollowUp(g: Gsm)
    requires g.Valid() && g.writer == Idle && g.handler == Branching && !g.notifiedState && !g.notifiedKey
    requires g.handledNow == g.handled && g.actualNow == g.actual && g.incomingNow == g.incoming
    requires g.handled == SPEAKING ==> g.actual == ENDED
    requires g.handled == RINGING ==> g.actual != RINGING
    modifies g
    ensures g.Valid() && g.writer == Idle && g.handler == Waiting && !g.notifiedState && !g.notifiedKey
    ensures g.actual == (if old(g.actual) == ENDED then NONE else old(g.actual)) && g.incoming == old(g.incoming)
    ensures g.log == old(g.log) + match old(g.actual)
              case RINGING => if g.incoming then [Incoming] else []
              case SPEAKING => [Dialed]
              case ENDED => if old(g.handled) == SPEAKING then [Ended] else []
              case _ => []
  {
    if g.actual == ENDED { FollowEnd(g); } else { FollowChange(g); }
  }

  method FollowChange(g: Gsm)
    requires g.Valid() && g.handler == Branching && g.actual != ENDED
    requires g.handledNow == g.handled && g.actualNow == g.actual && g.incomingNow == g.incoming
    requires g.handled != SPEAKING && (g.handled == RINGING ==> g.actual != RINGING)
    modifies g
    ensures g.Valid() && g.handler == Waiting && g.actual == old(g.actual) && g.writer == old(g.writer)
    ensures g.notifiedState == old(g.notifiedState) && g.notifiedKey == old(g.notifiedKey)
    ensures g.incoming == old(g.incoming)
    ensures g.log == old(g.log) + match old(g.actual)
              case RINGING => if g.incoming then [Incoming] else []
              case SPEAKING => [Dialed]
              case _ => []
  {
    assert g.log + [] == g.log;
    BeginChange(g);
    g.Handle();
  }

  method BeginChange(g: Gsm)
    requires g.Valid() && g.handler == Branching && g.actual != ENDED && g.actualNow == g.actual
    requires g.handledNow != SPEAKING && (g.handledNow == RINGING ==> g.actual != RINGING)
    modifies g
    ensures g.Valid() && BegunWith(old(g.Now()), g.Now())
  {
    g.Handle();
    Begun(old(g.Now()), g.Now());
  }

  /** The branch that fits the new phase was taken. */
  ghost predicate BegunWith(s: Snap, s': Snap) {
    && s' == s.(handled := s'.handled, handler := s'.handler)
    && s'.handler == match s.actual
                     case RINGING => IncomingDue
                     case SPEAKING => DialedDue
                     case _ => Otherwise
  }

  lemma Begun(s: Snap, s': Snap)
    requires Handled(s, s') && s.handler == Branching && s.actual != ENDED && s.actualNow == s.actual
    requires s.handledNow != SPEAKING && (s.handledNow == RINGING ==> s.actual != RINGING)
    ensures BegunWith(s, s')
  {
  }

  method FollowEnd(g: Gsm)
    requires g.Valid() && g.handler == Branching && g.actual == ENDED && g.actualNow == ENDED
    modifies g
    ensures g.Valid() && g.handler == Waiting && g.actual == NONE && g.writer == old(g.writer)
    ensures g.notifiedState == old(g.notifiedState) && g.notifiedKey == old(g.notifiedKey)
    ensures g.incoming == old(g.incoming)
    ensures g.log == old(g.log) + if old(g.handledNow) == SPEAKING then [Ended] else []
  {
    BeginEnd(g);
    g.Handle();
    g.Handle();
    g.Handle();
  }

  method BeginEnd(g: Gsm)
    requires g.Valid() && g.handler == Branching && g.actual == ENDED && g.actualNow == ENDED
    modifies g
    ensures g.Valid() && g.Now() == old(g.Now()).(handler := EndSeen)
  {
    g.Handle();
  }

  /** A call comes in, is answered and ends: three callbacks. */
  method WholeCall(g: Gsm)
    requires g.Valid() && g.writer == Idle && g.handler == Waiting && !g.notifiedState && !g.notifiedKey
    requires g.actual == NONE
    modifies g
    ensures g.Valid() && g.actual == NONE && g.log == old(g.log) + [Incoming, Dialed, Ended]
  {
    Respond(g, IncomingRinging);
    Respond(g, Ring);
    Respond(g, IncomingSpeaking);
    Respond(g, CallEnd);
  }

  /** Any schedule keeps the callbacks in order.  A dialled call is taken to be answered only while
      the phase is "none". */
  method Run(g: Gsm, schedule: seq<Choice>) returns (ghost snaps: seq<Snap>)
    requires g.Valid()
    modifies g
    ensures g.Valid() && Ordered(g.log) && old(g.log) <= g.log
    ensures |snaps| == |schedule| + 1 && snaps[0] == old(g.Now()) && snaps[|schedule|] == g.Now()
    ensures forall i :: 0 <= i < |schedule| ==> Took(snaps[i], schedule[i], snaps[i + 1])
    ensures g.actual == ENDED ==> g.Pending() || !g.handler.Waiting?
    ensures g.handler.Waiting? && !g.Pending() ==> (InCall(g.log) <==> g.actual == SPEAKING)
  {
    snaps := [g.Now()];
    var i := 0;
    while i < |schedule|
      invariant i <= |schedule| && g.Valid() && old(g.log) <= g.log
      invariant |snaps| == i + 1 && snaps[0] == old(g.Now()) && snaps[i] == g.Now()
      invariant forall k :: 0 <= k < i ==> Took(snaps[k], schedule[k], snaps[k + 1])
    {
      Step(g, schedule[i]);
      i, snaps := i + 1, snaps + [g.Now()];
    }
    assert Opens(0);
    if g.actual == ENDED { EndIsComing(g); }
    if g.handler.Waiting? && !g.Pending() { Quiet(g); }
  }
}
