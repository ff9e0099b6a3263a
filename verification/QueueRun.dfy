/** Runs of the operations of freeRTOS/queue.c on one queue.  A task that finds no item, or no room, suspends the
    scheduler, locks the queue, looks again, places itself on the event list and unlocks the queue; meanwhile only
    interrupts use it. */
module QueueRun {
  import opened Guards
  import opened RtosQueue

  /** Where the task that blocks is; with the scheduler suspended there is only one. */
  datatype Stage = Free | Locked(t: nat, receiving: bool) | Placing(t: nat, receiving: bool) | Ready | HalfOpen

  datatype Move<T> = TrySend(t: nat, x: T, pos: Position) | TryReceive(t: nat, peek: bool)
                   | IsrSend(x: T, pos: Position) | IsrReceive
                   | Block(t: nat, receiving: bool) | GoOn(at: nat) | TimeOut(i: nat, receiving: bool)

  /** Tasks that tried in vain: they neither wait nor were woken. */
  ghost predicate InVain(tried: set<nat>, waiting: seq<nat>, other: seq<nat>, woken: set<nat>, n: nat) {
    forall t :: t in tried ==> t < n && t !in waiting && t !in other && t !in woken
  }

  function Least(a: nat, b: nat): nat {
    if a < b then a else b
  }

  /** What the tasks and interrupts can tell of the queue: the items, the tasks that wait, where the task that blocks
      is, who has tried in vain, and what interrupts did since the queue was locked. */
  datatype Snap<T> = Snap(stage: Stage, triedReceive: set<nat>, triedSend: set<nat>, contents: seq<T>,
                          receivers: seq<nat>, senders: seq<nat>, posted: nat, taken: nat)

  /** The first that waits is woken. */
  ghost function Rest(w: seq<nat>): seq<nat> {
    if w == [] then w else w[1..]
  }

  ghost function After<T>(contents: seq<T>, x: T, pos: Position): seq<T> {
    match pos
    case Back => contents + [x]
    case Front => [x] + contents
    case Overwrite => [x]
  }

  /** A task sends if there is room, or it overwrites, and else has tried in vain. */
  ghost predicate SendTook<T>(s: Snap<T>, t: nat, x: T, pos: Position, length: nat, s': Snap<T>) {
    s' == if |s.contents| < length || pos.Overwrite?
          then s.(contents := After(s.contents, x, pos), receivers := Rest(s.receivers))
          else s.(triedSend := s.triedSend + {t})
  }

  /** A task takes the first item, or looks at it, and else has tried in vain. */
  ghost predicate ReceiveTook<T>(s: Snap<T>, t: nat, peek: bool, s': Snap<T>) {
    s' == if s.contents == [] then s.(triedReceive := s.triedReceive + {t})
          else if peek then s.(receivers := Rest(s.receivers))
          else s.(contents := s.contents[1..], senders := Rest(s.senders))
  }

  /** The same from an interrupt, which wakes nobody while the queue is locked. */
  ghost predicate IsrSendTook<T>(s: Snap<T>, x: T, pos: Position, length: nat, s': Snap<T>) {
    s' == if !(|s.contents| < length || pos.Overwrite?) then s
          else s.(contents := After(s.contents, x, pos), posted := s.posted + 1,
                  receivers := if s.stage.Free? || s.stage.HalfOpen? then Rest(s.receivers) else s.receivers)
  }

  ghost predicate IsrReceiveTook<T>(s: Snap<T>, s': Snap<T>) {
    s' == if s.contents == [] then s
          else s.(contents := s.contents[1..], taken := s.taken + 1,
                  senders := if s.stage.Free? then Rest(s.senders) else s.senders)
  }

  /** A task that tried in vain blocks in steps: it looks again, joins the others if it has to wait, and then wakes as
      many receivers as items were posted, and as many senders as items were taken. */
  ghost predicate GoOnTook<T>(s: Snap<T>, at: nat, length: nat, s': Snap<T>) {
    match s.stage
    case Free => s' == s
    case Locked(t, receiving) =>
      s' == s.(stage := if (if receiving then s.contents == [] else |s.contents| == length) then Placing(t, receiving)
                        else Ready)
    case Placing(t, receiving) =>
      s' == if receiving then s.(stage := Ready, receivers := Put(s.receivers, t, at))
            else s.(stage := Ready, senders := Put(s.senders, t, at))
    case Ready => s' == s.(stage := HalfOpen, receivers := Woken(s.receivers, s.posted))
    case HalfOpen => s' == s.(stage := Free, senders := Woken(s.senders, s.taken))
  }

  ghost predicate MayRun<T>(s: Snap<T>, t: nat, n: nat) {
    s.stage.Free? && t < n && t !in s.receivers && t !in s.senders
  }

  ghost predicate Took<T>(s: Snap<T>, m: Move<T>, n: nat, length: nat, s': Snap<T>) {
    match m
    case TrySend(t, x, pos) =>
      if MayRun(s, t, n) && (pos.Overwrite? ==> length == 1) then SendTook(s, t, x, pos, length, s') else s' == s
    case TryReceive(t, peek) => if MayRun(s, t, n) then ReceiveTook(s, t, peek, s') else s' == s
    case IsrSend(x, pos) => if pos.Overwrite? ==> length == 1 then IsrSendTook(s, x, pos, length, s') else s' == s
    case IsrReceive => IsrReceiveTook(s, s')
    case Block(t, receiving) =>
      if s.stage.Free? && t in (if receiving then s.triedReceive else s.triedSend)
      then s' == s.(stage := Locked(t, receiving), triedReceive := s.triedReceive - {t}, triedSend := s.triedSend - {t},
                    posted := 0, taken := 0)
      else s' == s
    case GoOn(at) => GoOnTook(s, at, length, s')
    case TimeOut(i, receiving) =>
      if s.stage.Free? && i < |if receiving then s.receivers else s.senders|
      then s' == if receiving then s.(receivers := s.receivers[..i] + s.receivers[i + 1..])
                 else s.(senders := s.senders[..i] + s.senders[i + 1..])
      else s' == s
  }

  class Kernel<T(0)> {
    const q: Queue<T>
    var stage: Stage
    var triedReceive: set<nat>
    var triedSend: set<nat>
    ghost var posted: nat        // items that interrupts have posted, and taken, since the queue was locked
    ghost var taken: nat

    ghost predicate Valid()
      reads this, q, q.data
    {
      forall n: nat :: Opens(n) ==> Fits()
    }

    ghost function Now(): Snap<T>
      reads this, q
    {
      Snap(stage, triedReceive, triedSend, q.contents, q.receivers, q.senders, posted, taken)
    }

    ghost predicate Fits()
      reads this, q, q.data
    {
      && q.Valid() && StageFits()
      && InVain(triedReceive, q.receivers, q.senders, q.wokenReceivers, q.numTasks)
      && InVain(triedSend, q.senders, q.receivers, q.wokenSenders, q.numTasks)
    }

    ghost predicate StageFits()
      reads `stage, `triedReceive, `triedSend, `posted, `taken, q
    {
      && (q.placingReceiver <==> stage.Placing? && stage.receiving)
      && (q.placingSender <==> stage.Placing? && !stage.receiving)
      && match stage
         case Free => q.txLock == -1 && q.rxLock == -1
         case Locked(t, receiving) => Counts() && MayWait(t, receiving)
         case Placing(t, receiving) => Counts() && MayWait(t, receiving)
         case Ready => Counts()
         case HalfOpen => q.txLock == -1 && q.rxLock == Least(taken, q.numTasks)
    }

    /** The lock counts are those of the items, but stop at the number of tasks. */
    ghost predicate Counts()
      reads `posted, `taken, q
    {
      q.txLock == Least(posted, q.numTasks) && q.rxLock == Least(taken, q.numTasks)
    }

    ghost predicate MayWait(t: nat, receiving: bool)
      reads `triedReceive, `triedSend, q
    {
      && t < q.numTasks && t !in q.receivers && t !in q.senders && t !in triedReceive && t !in triedSend
      && if receiving then t !in q.wokenReceivers else t !in q.wokenSenders
    }

    constructor (q: Queue<T>)
      requires q.Valid() && q.txLock == -1 && q.rxLock == -1 && !q.placingReceiver && !q.placingSender
      ensures Valid() && this.q == q && stage == Free && triedReceive == {} && triedSend == {}
    {
      this.q := q;
      stage, triedReceive, triedSend, posted, taken := Free, {}, {}, 0, 0;
    }

    method TrySend(t: nat, x: T, pos: Position) returns (sent: bool)
      requires Valid() && stage.Free? && t < q.numTasks && t !in q.receivers && t !in q.senders
      requires pos.Overwrite? ==> q.data.Length == 1
      modifies `triedSend, q, q.data
      ensures Valid() && SendTook(old(Now()), t, x, pos, q.data.Length, Now())
      ensures sent <==> |old(q.contents)| < q.data.Length || pos.Overwrite?
    {
      assert Opens(0);
      sent := q.Send(t, x, pos);
      if !sent { triedSend := triedSend + {t}; }
    }

    method TryReceive(t: nat, peek: bool) returns (got: bool)
      requires Valid() && stage.Free? && t < q.numTasks && t !in q.receivers && t !in q.senders
      modifies `triedReceive, q
      ensures Valid() && ReceiveTook(old(Now()), t, peek, Now())
      ensures got <==> old(q.contents) != []
    {
      assert Opens(0);
      var x;
      got, x := q.Receive(t, peek);
      if !got { triedReceive := triedReceive + {t}; }
    }

    /** A task that tried in vain suspends the scheduler and locks the queue. */
    method Block(t: nat, receiving: bool)
      requires Valid() && stage.Free? && t in (if receiving then triedReceive else triedSend)
      modifies this, q`txLock, q`rxLock
      ensures Valid() && stage == Locked(t, receiving) && posted == 0 && taken == 0
      ensures triedReceive == old(triedReceive) - {t} && triedSend == old(triedSend) - {t}
    {
      assert Opens(0);
      q.Lock();
      posted, taken := 0, 0;
      triedReceive, triedSend := triedReceive - {t}, triedSend - {t};
      stage := Locked(t, receiving);
    }

    /** The next step of the task that blocks; `at` is the place that its priority gives. */
    method GoOn(at: nat)
      requires Valid()
      modifies this, q
      ensures Valid() && GoOnTook(old(Now()), at, q.data.Length, Now())
    {
      match stage
      case Free =>
      case Locked(t, receiving) => LookAgain(t, receiving);
      case Placing(t, receiving) => PlaceTask(t, receiving, at);
      case Ready => OpenTx();
      case HalfOpen => OpenRx();
    }

    method OpenTx()
      requires Valid() && stage.Ready?
      modifies `stage, q`txLock, q`receivers, q`wokenReceivers
      ensures Valid() && stage.HalfOpen? && q.receivers == old(q.receivers)[Least(posted, |old(q.receivers)|)..]
    {
      assert Opens(0);
      FewTasks(q.receivers, q.numTasks);
      q.UnlockTx();
      stage := HalfOpen;
    }

    method OpenRx()
      requires Valid() && stage.HalfOpen?
      modifies `stage, q`rxLock, q`senders, q`wokenSenders
      ensures Valid() && stage.Free? && q.senders == old(q.senders)[Least(taken, |old(q.senders)|)..]
    {
      assert Opens(0);
      FewTasks(q.senders, q.numTasks);
      q.UnlockRx();
      stage := Free;
    }

    method LookAgain(t: nat, receiving: bool)
      requires Valid() && stage == Locked(t, receiving)
      modifies `stage, q`placingReceiver, q`placingSender
      ensures Valid()
      ensures stage == if (if receiving then q.contents == [] else |q.contents| == q.data.Length)
                       then Placing(t, receiving) else Ready
    {
      assert Opens(0);
      var waits;
      if receiving { waits := q.IsEmpty(); } else { waits := q.IsFull(); }
      stage := if waits then Placing(t, receiving) else Ready;
    }

    method PlaceTask(t: nat, receiving: bool, at: nat)
      requires Valid() && stage == Placing(t, receiving)
      modifies `stage, q`receivers, q`senders, q`placingReceiver, q`placingSender
      ensures Valid() && stage == Ready
      ensures q.receivers == if receiving then Put(old(q.receivers), t, at) else old(q.receivers)
      ensures q.senders == if receiving then old(q.senders) else Put(old(q.senders), t, at)
    {
      assert Opens(0);
      if receiving {
        q.PlaceReceiver(t, Least(at, |q.receivers|));
      } else {
        q.PlaceSender(t, Least(at, |q.senders|));
      }
      stage := Ready;
    }

    method IsrSend(x: T, pos: Position) returns (sent: bool)
      requires Valid() && (pos.Overwrite? ==> q.data.Length == 1)
      modifies `posted, q, q.data
      ensures Valid() && IsrSendTook(old(Now()), x, pos, q.data.Length, Now())
      ensures sent <==> |old(q.contents)| < q.data.Length || pos.Overwrite?
    {
      assert Opens(0);
      sent := q.SendFromIsr(x, pos);
      if sent { posted := posted + 1; }
    }

    method IsrReceive() returns (got: bool)
      requires Valid()
      modifies `taken, q
      ensures Valid() && IsrReceiveTook(old(Now()), Now())
      ensures got <==> old(q.contents) != []
    {
      assert Opens(0);
      var x;
      got, x := q.ReceiveFromIsr();
      if got { taken := taken + 1; }
    }

    ghost predicate IsLocked()
      reads `stage
    {
      !stage.Free? && !stage.HalfOpen?
    }

    method TimeOut(i: nat, receiving: bool)
      requires Valid() && stage.Free? && i < |if receiving then q.receivers else q.senders|
      modifies q`receivers, q`senders
      ensures Valid()
      ensures q.receivers == if receiving then old(q.receivers)[..i] + old(q.receivers)[i + 1..] else old(q.receivers)
      ensures q.senders == if receiving then old(q.senders) else old(q.senders)[..i] + old(q.senders)[i + 1..]
    {
      assert Opens(0);
      if receiving { q.TimeOutReceiver(i); } else { q.TimeOutSender(i); }
    }

    method Step(m: Move<T>)
      requires Valid()
      modifies this, q, q.data
      ensures Valid() && Took(old(Now()), m, q.numTasks, q.data.Length, Now())
    {
      match m
      case TrySend(t, x, pos) =>
        if stage.Free? && t < q.numTasks && t !in q.receivers && t !in q.senders
            && (pos.Overwrite? ==> q.data.Length == 1) {
          var _ := TrySend(t, x, pos);
        }
      case TryReceive(t, peek) =>
        if stage.Free? && t < q.numTasks && t !in q.receivers && t !in q.senders { var _ := TryReceive(t, peek); }
      case IsrSend(x, pos) => if pos.Overwrite? ==> q.data.Length == 1 { var _ := IsrSend(x, pos); }
      case IsrReceive => var _ := IsrReceive();
      case Block(t, receiving) =>
        if stage.Free? && t in (if receiving then triedReceive else triedSend) { Block(t, receiving); }
      case GoOn(at) => GoOn(at);
      case TimeOut(i, receiving) =>
        if stage.Free? && i < |if receiving then q.receivers else q.senders| { TimeOut(i, receiving); }
    }
  }

  /** `t` at place `at` among the waiting, or at their end. */
  ghost function Put(w: seq<nat>, t: nat, at: nat): seq<nat> {
    w[..Least(at, |w|)] + [t] + w[Least(at, |w|)..]
  }

  datatype Irq<T> = Post(x: T, pos: Position) | Fetch

  /** Those that still wait after `n` were woken, or all. */
  ghost function Woken(w: seq<nat>, n: nat): seq<nat> {
    w[Least(n, |w|)..]
  }

  lemma WokenTwice(w: seq<nat>, a: nat, b: nat)
    ensures Woken(Woken(w, a), b) == Woken(w, a + b)
  {
  }

  /** It posts unless the queue is full, and fetches unless it is empty. */
  ghost predicate Counted<T>(irq: Irq<T>, contents: seq<T>, length: nat, posts: nat, fetches: nat) {
    forall k: nat :: Opens(k) ==> match irq
      case Post(_, pos) => fetches == 0 && (posts == 1 <==> |contents| < length || pos.Overwrite?)
      case Fetch => posts == 0 && (fetches == 1 <==> contents != [])
  }

  /** An interrupt during a wait: one that wakes somebody on its own does so in order. */
  method Interrupt<T(0)>(k: Kernel<T>, irq: Irq<T>) returns (posts: nat, fetches: nat)
    requires k.Valid() && !k.stage.Free? && (irq.Post? && irq.pos.Overwrite? ==> k.q.data.Length == 1)
    modifies k`posted, k`taken, k.q, k.q.data
    ensures k.Valid() && k.posted == old(k.posted) + posts && k.taken == old(k.taken) + fetches && posts + fetches <= 1
    ensures Counted(irq, old(k.q.contents), k.q.data.Length, posts, fetches)
    ensures k.q.receivers == Woken(old(k.q.receivers), if k.IsLocked() then 0 else posts)
    ensures k.q.senders == old(k.q.senders)
  {
    posts, fetches := 0, 0;
    match irq {
      case Post(x, pos) =>
        var sent := k.IsrSend(x, pos);
        if sent { posts := 1; }
      case Fetch =>
        var got := k.IsrReceive();
        if got { fetches := 1; }
    }
  }

  method Interrupts<T(0)>(k: Kernel<T>, irqs: seq<Irq<T>>) returns (posts: nat, fetches: nat)
    requires k.Valid() && !k.stage.Free?
    requires forall i :: i in irqs && i.Post? && i.pos.Overwrite? ==> k.q.data.Length == 1
    modifies k`posted, k`taken, k.q, k.q.data
    ensures k.Valid() && k.posted == old(k.posted) + posts && k.taken == old(k.taken) + fetches
    ensures posts + fetches <= |irqs| && (irqs == [] ==> k.q.contents == old(k.q.contents))
    ensures k.q.receivers == Woken(old(k.q.receivers), if k.IsLocked() then 0 else posts)
    ensures k.q.senders == old(k.q.senders)
  {
    posts, fetches := 0, 0;
    var i := 0;
    while i < |irqs|
      invariant posts + fetches <= i <= |irqs| && (i == 0 ==> k.q.contents == old(k.q.contents))
      invariant k.Valid() && k.posted == old(k.posted) + posts && k.taken == old(k.taken) + fetches
      invariant k.q.receivers == Woken(old(k.q.receivers), if k.IsLocked() then 0 else posts)
      invariant k.q.senders == old(k.q.senders)
    {
      var p, f := Interrupt(k, irqs[i]);
      WokenTwice(old(k.q.receivers), if k.IsLocked() then 0 else posts, if k.IsLocked() then 0 else p);
      posts, fetches, i := posts + p, fetches + f, i + 1;
    }
  }

  /** The first half of a wait: the queue is locked, and the task joins those that wait if it has to. */
  method LockAndLook<T(0)>(k: Kernel<T>, t: nat, receiving: bool, at: nat, first: seq<Irq<T>>, second: seq<Irq<T>>)
    returns (waits: bool, posts: nat, fetches: nat)
    requires k.Valid() && k.stage.Free? && t in (if receiving then k.triedReceive else k.triedSend)
    requires forall i :: (i in first || i in second) && i.Post? && i.pos.Overwrite? ==> k.q.data.Length == 1
    modifies k, k.q, k.q.data
    ensures k.Valid() && k.stage.Ready? && k.posted == posts && k.taken == fetches
    ensures k.q.receivers == if waits && receiving then Put(old(k.q.receivers), t, at) else old(k.q.receivers)
    ensures k.q.senders == if waits && !receiving then Put(old(k.q.senders), t, at) else old(k.q.senders)
    ensures first == [] ==>
              (waits <==> if receiving then old(k.q.contents) == [] else |old(k.q.contents)| == k.q.data.Length)
  {
    k.Block(t, receiving);
    posts, fetches := Interrupts(k, first);
    k.GoOn(at);
    waits := k.stage.Placing?;
    var p, f := Interrupts(k, second);
    posts, fetches := posts + p, fetches + f;
    if waits { k.GoOn(at); }
  }

  /** The second half: the queue is unlocked. */
  method Unlock<T(0)>(k: Kernel<T>, first: seq<Irq<T>>, second: seq<Irq<T>>) returns (posts: nat, fetches: nat)
    requires k.Valid() && k.stage.Ready?
    requires forall i :: (i in first || i in second) && i.Post? && i.pos.Overwrite? ==> k.q.data.Length == 1
    modifies k, k.q, k.q.data
    ensures k.Valid() && k.stage.Free? && k.posted == old(k.posted) + posts && k.taken == old(k.taken) + fetches
    ensures k.q.receivers == Woken(old(k.q.receivers), k.posted) && k.q.senders == Woken(old(k.q.senders), k.taken)
  {
    posts, fetches := Interrupts(k, first);
    k.GoOn(0);
    ghost var n := k.posted;
    var p, f := Interrupts(k, second);
    WokenTwice(old(k.q.receivers), n, p);
    posts, fetches := posts + p, fetches + f;
    k.GoOn(0);
  }

  /** A whole wait, from locking the queue to unlocking it, with interrupts between all its steps.  Of the receivers
      that wait, with the task itself among them if it waits, exactly as many are woken as items were posted, or all;
      of the senders as many as items were taken. */
  method Wait<T(0)>(k: Kernel<T>, t: nat, receiving: bool, at: nat, irqs: seq<seq<Irq<T>>>)
    returns (waits: bool, posts: nat, fetches: nat)
    requires k.Valid() && k.stage.Free? && t in (if receiving then k.triedReceive else k.triedSend) && |irqs| == 4
    requires forall j :: 0 <= j < 4 ==> forall i :: i in irqs[j] && i.Post? && i.pos.Overwrite? ==> k.q.data.Length == 1
    modifies k, k.q, k.q.data
    ensures k.Valid() && k.stage.Free? && k.posted == posts && k.taken == fetches
    ensures var w := if waits && receiving then Put(old(k.q.receivers), t, at) else old(k.q.receivers);
            k.q.receivers == Woken(w, posts)
    ensures var w := if waits && !receiving then Put(old(k.q.senders), t, at) else old(k.q.senders);
            k.q.senders == Woken(w, fetches)
    ensures irqs[0] == [] ==>
              (waits <==> if receiving then old(k.q.contents) == [] else |old(k.q.contents)| == k.q.data.Length)
  {
    waits, posts, fetches := LockAndLook(k, t, receiving, at, irqs[0], irqs[1]);
    var p, f := Unlock(k, irqs[2], irqs[3]);
    posts, fetches := posts + p, fetches + f;
  }

  /** In no run of these operations, with interrupts at any point, is a wakeup lost: when the queue is unlocked and
      every task that was woken has tried again, tasks wait to receive only if it is empty, and to send only if it is
      full. */
  method Run<T(0)>(k: Kernel<T>, moves: seq<Move<T>>) returns (ghost snaps: seq<Snap<T>>)
    requires k.Valid()
    modifies k, k.q, k.q.data
    ensures k.Valid()
    ensures |snaps| == |moves| + 1 && snaps[0] == old(k.Now()) && snaps[|moves|] == k.Now()
    ensures forall i :: 0 <= i < |moves| ==> Took(snaps[i], moves[i], k.q.numTasks, k.q.data.Length, snaps[i + 1])
    ensures k.stage.Free? && k.q.wokenReceivers == {} && k.q.receivers != [] ==> k.q.contents == []
    ensures k.stage.Free? && k.q.wokenSenders == {} && k.q.senders != [] ==> |k.q.contents| == k.q.data.Length
  {
    snaps := [k.Now()];
    var i := 0;
    while i < |moves|
      invariant i <= |moves| && k.Valid() && |snaps| == i + 1 && snaps[0] == old(k.Now()) && snaps[i] == k.Now()
      invariant forall j :: 0 <= j < i ==> Took(snaps[j], moves[j], k.q.numTasks, k.q.data.Length, snaps[j + 1])
    {
      k.Step(moves[i]);
      i, snaps := i + 1, snaps + [k.Now()];
    }
    assert Opens(0);
    if k.stage.Free? { k.q.NoLostWakeup(); }
  }
}
