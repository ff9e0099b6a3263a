/** The timer daemon of freeRTOS/timers.c.  Ticks are 32-bit numbers that wrap around; ghost time
    does not, and `base` is the time at which the tick count was last 0. */
module Timers {
  import opened Bytes
  import opened Guards
  import opened TimerLists

  const WRAP: nat := 0x1_0000_0000

  datatype Timer = Timer(period: dword, autoReload: bool, active: bool)

  /** A timer since it was last started: the expiry times for which it was called back.  `since` is
      the number of calls of all timers before that start. */
  datatype Record = Record(start: nat, period: nat, since: nat, fired: seq<nat>)
  {
    function Last(): nat {
      if fired == [] then start else fired[|fired| - 1]
    }

    function Next(): nat {
      Last() + period
    }

    /** Called back once for each multiple of the period, in order. */
    ghost predicate Regular() {
      0 < period < WRAP && forall j :: 0 <= j < |fired| ==>
          fired[j] == (if j == 0 then start else fired[j - 1]) + period
    }

    function Fired(): Record {
      Record(start, period, since, fired + [Next()])
    }
  }

  lemma {:induction false} RegularTimes(r: Record, j: nat)
    requires r.Regular() && j < |r.fired|
    ensures r.fired[j] == r.start + (j + 1) * r.period
  {
    if j == 0 {
      assert r.fired[0] == r.start + r.period;
    } else {
      RegularTimes(r, j - 1);
      assert r.fired[j] == r.fired[j - 1] + r.period;
      assert r.start + j * r.period + r.period == r.start + (j + 1) * r.period;
    }
  }

  /** A record that is up to date has one call for every period that is over since the start. */
  lemma OnTime(r: Record, now: nat)
    requires r.Regular() && r.Last() <= now < r.Next()
    ensures r.start + |r.fired| * r.period <= now < r.start + (|r.fired| + 1) * r.period
  {
    if r.fired != [] { RegularTimes(r, |r.fired| - 1); }
    assert r.start + |r.fired| * r.period == r.Last();
    assert (|r.fired| + 1) * r.period == |r.fired| * r.period + r.period;
  }

  /** A call back: when it was due and when it was made. */
  datatype Call = Call(id: nat, due: nat, at: nat)

  /** The due times of the calls of timer `id` after the first `from` calls. */
  ghost function Dues(log: seq<Call>, id: nat, from: nat): seq<nat> {
    if |log| <= from then []
    else var c := log[|log| - 1]; Dues(log[..|log| - 1], id, from) + if c.id == id then [c.due] else []
  }

  /** The calls made for a timer since its last start are exactly those recorded; no other timer is called. */
  ghost predicate Tied(log: seq<Call>, recs: map<nat, Record>) {
    && (forall i :: 0 <= i < |log| ==> log[i].id in recs)
    && (forall id {:trigger Dues(log, id, recs[id].since)} :: id in recs ==>
          recs[id].since <= |log| && Dues(log, id, recs[id].since) == recs[id].fired)
  }

  /** From `log` to `log'` calls were made at time `clock` only. */
  ghost predicate CalledAt(log: seq<Call>, log': seq<Call>, clock: nat) {
    log <= log' && forall i :: |log| <= i < |log'| ==> log'[i].at == clock
  }

  lemma CalledIsTied(log: seq<Call>, recs: map<nat, Record>, id: nat, now: nat)
    requires Tied(log, recs) && id in recs
    ensures Tied(log + [Call(id, recs[id].Next(), now)], recs[id := recs[id].Fired()])
  {
    var log', recs' := log + [Call(id, recs[id].Next(), now)], recs[id := recs[id].Fired()];
    assert log'[..|log|] == log;
    forall j | j in recs' ensures recs'[j].since <= |log'| && Dues(log', j, recs'[j].since) == recs'[j].fired {
      assert Dues(log, j, recs[j].since) == recs[j].fired;
    }
  }

  lemma StartedIsTied(log: seq<Call>, recs: map<nat, Record>, id: nat, r: Record)
    requires Tied(log, recs) && r.since == |log| && r.fired == []
    ensures Tied(log, recs[id := r])
  {
    var recs' := recs[id := r];
    forall j | j in recs' ensures recs'[j].since <= |log| && Dues(log, j, recs'[j].since) == recs'[j].fired {
      if j != id { assert Dues(log, j, recs[j].since) == recs[j].fired; }
    }
  }

  lemma {:induction false} DuesSplit(log: seq<Call>, log': seq<Call>, id: nat, from: nat)
    requires log <= log' && from <= |log|
    ensures Dues(log', id, from) == Dues(log, id, from) + Dues(log', id, |log|)
    decreases |log'|
  {
    if |log'| > |log| {
      DuesSplit(log, log'[..|log'| - 1], id, from);
    } else {
      assert log' == log;
    }
  }

  lemma {:induction false} NoDues(log: seq<Call>, id: nat, from: nat)
    requires forall i :: 0 <= i < |log| ==> log[i].id != id
    ensures Dues(log, id, from) == []
  {
    if |log| > from { NoDues(log[..|log| - 1], id, from); }
  }

  /** The tick count at time `t`, seen from `base`. */
  ghost function Tick(base: nat, t: nat): int {
    if t >= base + WRAP then t - base - WRAP else if t >= base then t - base else t - base + WRAP
  }

  lemma TickIsRemainder(base: nat, t: nat)
    requires base % WRAP == 0 && base <= t + WRAP && t < base + WRAP + WRAP
    ensures Tick(base, t) == t % WRAP
  {
  }

  ghost predicate Scheduled(ts: map<nat, Timer>, recs: map<nat, Record>, id: nat, at: nat) {
    id in ts && id in recs && ts[id].period == recs[id].period && recs[id].Next() == at
  }

  /** List `l` has timers under the tick of their next expiry after `off`. */
  ghost predicate InOrder(ts: map<nat, Timer>, l: seq<Item>, off: nat, recs: map<nat, Record>) {
    Sorted(l) && Distinct(l) && forall y :: y in l ==> Scheduled(ts, recs, y.id, off + y.value)
  }

  ghost predicate Sane(ts: map<nat, Timer>, recs: map<nat, Record>) {
    (forall id :: id in recs ==> recs[id].Regular()) && (forall id :: id in ts ==> 0 < ts[id].period)
  }

  /** Active timers, but for those `out`, are in exactly one list; those in the second list expire
      after the next wrap. */
  ghost predicate Consistent(ts: map<nat, Timer>, cur: seq<Item>, ovf: seq<Item>, base: nat, recs: map<nat, Record>,
                             out: set<nat>) {
    Sane(ts, recs) && forall k: nat :: Opens(k) ==> Parts(ts, cur, ovf, base, recs, out)
  }

  ghost predicate Parts(ts: map<nat, Timer>, cur: seq<Item>, ovf: seq<Item>, base: nat, recs: map<nat, Record>,
                        out: set<nat>) {
    && InOrder(ts, cur, base, recs) && InOrder(ts, ovf, base + WRAP, recs)
    && Ids(cur) !! Ids(ovf) && (Ids(cur) + Ids(ovf)) !! out
    && (forall id :: id in ts && id !in out ==> (ts[id].active <==> id in Ids(cur) || id in Ids(ovf)))
  }

  /** Item `x`, due at `at`, goes into the list of its epoch. */
  ghost predicate Inserted(cur: seq<Item>, ovf: seq<Item>, cur': seq<Item>, ovf': seq<Item>, base: nat, id: nat,
                           at: nat) {
    if at < base + WRAP then base <= at && cur' == Insert(cur, Item(at - base, id)) && ovf' == ovf
    else at < base + WRAP + WRAP && cur' == cur && ovf' == Insert(ovf, Item(at - base - WRAP, id))
  }

  lemma InsertInOrder(ts: map<nat, Timer>, l: seq<Item>, off: nat, recs: map<nat, Record>, recs': map<nat, Record>,
                      x: Item)
    requires InOrder(ts, l, off, recs) && x.id !in Ids(l) && Scheduled(ts, recs', x.id, off + x.value)
    requires forall j :: j in recs && j != x.id ==> j in recs' && recs'[j] == recs[j]
    ensures InOrder(ts, Insert(l, x), off, recs') && Ids(Insert(l, x)) == Ids(l) + {x.id}
  {
    InsertKeeps(l, x);
    OthersInOrder(ts, l, off, recs, recs', x.id);
  }

  lemma OthersInOrder(ts: map<nat, Timer>, l: seq<Item>, off: nat, recs: map<nat, Record>, recs': map<nat, Record>,
                      id: nat)
    requires InOrder(ts, l, off, recs) && id !in Ids(l)
    requires forall j :: j in recs && j != id ==> j in recs' && recs'[j] == recs[j]
    ensures InOrder(ts, l, off, recs')
  {
    forall y | y in l ensures Scheduled(ts, recs', y.id, off + y.value) { assert y.id in Ids(l); }
  }

  /** Inserting the timer that was out makes the lists complete again. */
  lemma InsertedIsConsistent(ts: map<nat, Timer>, cur: seq<Item>, ovf: seq<Item>, cur': seq<Item>, ovf': seq<Item>,
                             base: nat, recs: map<nat, Record>, recs': map<nat, Record>, id: nat, at: nat,
                             out: set<nat>)
    requires id !in out
    requires Consistent(ts, cur, ovf, base, recs, out + {id}) && Inserted(cur, ovf, cur', ovf', base, id, at)
    requires Scheduled(ts, recs', id, at) && recs'[id].Regular() && ts[id].active
    requires recs'.Keys == recs.Keys + {id} && forall j :: j in recs && j != id ==> recs'[j] == recs[j]
    ensures Consistent(ts, cur', ovf', base, recs', out)
  {
    if at < base + WRAP {
      InsertedSoon(ts, cur, ovf, base, recs, recs', id, at, out);
    } else {
      InsertedLater(ts, cur, ovf, base, recs, recs', id, at, out);
    }
  }

  /** Lists with timer `id`, which was out, are complete but for the others that are out. */
  lemma BackIn(ts: map<nat, Timer>, cur: seq<Item>, ovf: seq<Item>, cur': seq<Item>, ovf': seq<Item>, base: nat,
               recs: map<nat, Record>, recs': map<nat, Record>, id: nat, out: set<nat>)
    requires id !in out && Parts(ts, cur, ovf, base, recs, out + {id}) && id in ts && ts[id].active
    requires InOrder(ts, cur', base, recs') && InOrder(ts, ovf', base + WRAP, recs')
    requires Ids(cur') !! Ids(ovf') && Ids(cur') + Ids(ovf') == Ids(cur) + Ids(ovf) + {id}
    ensures Parts(ts, cur', ovf', base, recs', out)
  {
    forall i | i in ts && i !in out ensures ts[i].active <==> i in Ids(cur') || i in Ids(ovf') {
      assert i in Ids(cur') + Ids(ovf') <==> i in Ids(cur) + Ids(ovf) + {id};
    }
  }

  lemma InsertedSoon(ts: map<nat, Timer>, cur: seq<Item>, ovf: seq<Item>, base: nat,
                     recs: map<nat, Record>, recs': map<nat, Record>, id: nat, at: nat, out: set<nat>)
    requires id !in out && base <= at < base + WRAP && Consistent(ts, cur, ovf, base, recs, out + {id})
    requires Scheduled(ts, recs', id, at) && recs'[id].Regular() && ts[id].active
    requires recs'.Keys == recs.Keys + {id} && forall j :: j in recs && j != id ==> recs'[j] == recs[j]
    ensures Consistent(ts, Insert(cur, Item(at - base, id)), ovf, base, recs', out)
  {
    assert Opens(0);
    SoonParts(ts, cur, ovf, base, recs, recs', Item(at - base, id), out);
  }

  lemma SoonParts(ts: map<nat, Timer>, cur: seq<Item>, ovf: seq<Item>, base: nat,
                  recs: map<nat, Record>, recs': map<nat, Record>, x: Item, out: set<nat>)
    requires x.id !in out && Parts(ts, cur, ovf, base, recs, out + {x.id})
    requires Scheduled(ts, recs', x.id, base + x.value) && ts[x.id].active
    requires forall j :: j in recs && j != x.id ==> j in recs' && recs'[j] == recs[j]
    ensures Parts(ts, Insert(cur, x), ovf, base, recs', out)
  {
    OutOfLists(Ids(cur), Ids(ovf), x.id, out);
    InsertInOrder(ts, cur, base, recs, recs', x);
    OthersInOrder(ts, ovf, base + WRAP, recs, recs', x.id);
    BackIn(ts, cur, ovf, Insert(cur, x), ovf, base, recs, recs', x.id, out);
  }

  lemma InsertedLater(ts: map<nat, Timer>, cur: seq<Item>, ovf: seq<Item>, base: nat,
                      recs: map<nat, Record>, recs': map<nat, Record>, id: nat, at: nat, out: set<nat>)
    requires id !in out && base + WRAP <= at < base + WRAP + WRAP && Consistent(ts, cur, ovf, base, recs, out + {id})
    requires Scheduled(ts, recs', id, at) && recs'[id].Regular() && ts[id].active
    requires recs'.Keys == recs.Keys + {id} && forall j :: j in recs && j != id ==> recs'[j] == recs[j]
    ensures Consistent(ts, cur, Insert(ovf, Item(at - base - WRAP, id)), base, recs', out)
  {
    assert Opens(0);
    LaterParts(ts, cur, ovf, base, recs, recs', Item(at - base - WRAP, id), out);
  }

  lemma LaterParts(ts: map<nat, Timer>, cur: seq<Item>, ovf: seq<Item>, base: nat,
                   recs: map<nat, Record>, recs': map<nat, Record>, x: Item, out: set<nat>)
    requires x.id !in out && Parts(ts, cur, ovf, base, recs, out + {x.id})
    requires Scheduled(ts, recs', x.id, base + WRAP + x.value) && ts[x.id].active
    requires forall j :: j in recs && j != x.id ==> j in recs' && recs'[j] == recs[j]
    ensures Parts(ts, cur, Insert(ovf, x), base, recs', out)
  {
    OutOfLists(Ids(cur), Ids(ovf), x.id, out);
    InsertInOrder(ts, ovf, base + WRAP, recs, recs', x);
    OthersInOrder(ts, cur, base, recs, recs', x.id);
    BackIn(ts, cur, ovf, cur, Insert(ovf, x), base, recs, recs', x.id, out);
  }

  /** What is out is in neither list, and may go into either. */
  lemma OutOfLists(a: set<nat>, b: set<nat>, id: nat, out: set<nat>)
    requires a !! b && (a + b) !! (out + {id})
    ensures id !in a && id !in b && (a + {id}) !! b && a !! (b + {id})
    ensures (a + {id}) + b == a + b + {id} && a + (b + {id}) == a + b + {id}
  {
    assert id in out + {id};
  }

  /** A command of the timer queue; for a start, the tick count when it was given. */
  datatype Command = Start(value: dword) | Stop | ChangePeriod(period: dword) | Delete

  class Daemon {
    var timers: map<nat, Timer>
    var current: seq<Item>
    var overflow: seq<Item>
    var lastTime: dword
    var calls: seq<nat>               // timers called back
    ghost var base: nat
    ghost var records: map<nat, Record>
    ghost var log: seq<Call>

    /** The calls made are those of the log, none of them early, and those that the records tell of. */
    ghost predicate Logged()
      reads `calls, `log, `records
    {
      && |calls| == |log| && (forall i :: 0 <= i < |log| ==> calls[i] == log[i].id && log[i].due <= log[i].at)
      && Tied(log, records)
    }

    ghost predicate Without(out: set<nat>)
      reads `timers, `current, `overflow, `base, `records, `calls, `log
    {
      base % WRAP == 0 && Consistent(timers, current, overflow, base, records, out) && Logged()
    }

    ghost predicate Valid()
      reads `timers, `current, `overflow, `base, `records, `calls, `log
    {
      Without({})
    }

    /** prvInsertTimerInActiveList decides as time without wrap-around would. */
    method InsertTimer(id: nat, next: dword, timeNow: dword, command: dword, ghost cmd: nat, ghost now: nat)
      returns (due: bool)
      requires id in timers && 0 < timers[id].period && next == (command + timers[id].period) % WRAP
      requires base <= now < base + WRAP && timeNow == now - base
      requires cmd <= now < cmd + WRAP && command == Tick(base, cmd)
      modifies `current, `overflow
      ensures due <==> cmd + timers[id].period <= now
      ensures if due then current == old(current) && overflow == old(overflow)
              else Inserted(old(current), old(overflow), current, overflow, base, id, cmd + timers[id].period)
    {
      due := false;
      if next <= timeNow {
        if (timeNow - command) % WRAP >= timers[id].period {
          due := true;
        } else {
          overflow := Insert(overflow, Item(next, id));
        }
      } else {
        if timeNow < command && next >= command {
          due := true;
        } else {
          current := Insert(current, Item(next, id));
        }
      }
    }

    /** pxCallbackFunction, for the expiry of timer `id` that is next. */
    method CallBack(id: nat, ghost now: nat)
      requires Logged() && id in records && records[id].Next() <= now
      modifies `calls, `records, `log
      ensures Logged() && calls == old(calls) + [id] && log == old(log) + [Call(id, old(records[id].Next()), now)]
      ensures records == old(records)[id := old(records[id]).Fired()]
    {
      CalledIsTied(log, records, id, now);
      calls := calls + [id];
      log := log + [Call(id, records[id].Next(), now)];
      records := records[id := records[id].Fired()];
    }

    /** The loop of prvReloadTimer: calls that were missed are made, until the next expiry is to come. */
    method CatchUp(id: nat, expired: dword, timeNow: dword, ghost at: nat, ghost now: nat, ghost clock: nat,
                   ghost out: set<nat>) returns (ghost due: nat)
      requires Without(out + {id}) && id !in out
      requires id in timers && timers[id].active && Scheduled(timers, records, id, at)
      requires base <= now < base + WRAP && timeNow == now - base && now <= clock
      requires at <= now < at + WRAP && expired == Tick(base, at)
      modifies `current, `overflow, `calls, `records, `log
      ensures Logged() && CalledAt(old(log), log, clock) && SameButFired(old(records), records, id)
      ensures at <= due <= now < due + timers[id].period && Scheduled(timers, records, id, due)
      ensures Consistent(timers, old(current), old(overflow), base, records, out + {id})
      ensures Inserted(old(current), old(overflow), current, overflow, base, id, due + timers[id].period)
    {
      due := at;
      var exp := expired;
      while true
        invariant current == old(current) && overflow == old(overflow)
        invariant Without(out + {id}) && Scheduled(timers, records, id, due) && SameButFired(old(records), records, id)
        invariant at <= due <= now && exp == Tick(base, due) && CalledAt(old(log), log, clock)
        decreases now - due
      {
        var again;
        again, exp, due := InsertOrCall(id, exp, timeNow, due, now, clock, out);
        if !again { break; }
      }
    }

    /** A pass of that loop: the timer goes into its list, or is called for an expiry that was missed. */
    method InsertOrCall(id: nat, exp: dword, timeNow: dword, ghost due: nat, ghost now: nat, ghost clock: nat,
                        ghost out: set<nat>) returns (again: bool, exp': dword, ghost due': nat)
      requires Without(out + {id}) && id !in out && id in timers && timers[id].active
               && Scheduled(timers, records, id, due)
      requires base <= now < base + WRAP && timeNow == now - base && now <= clock
      requires due <= now < due + WRAP && exp == Tick(base, due)
      modifies `current, `overflow, `calls, `records, `log
      ensures Logged() && Consistent(timers, old(current), old(overflow), base, records, out + {id})
      ensures Scheduled(timers, records, id, due') && SameButFired(old(records), records, id)
              && CalledAt(old(log), log, clock)
      ensures due <= due' <= now && exp' == Tick(base, due')
      ensures if again then current == old(current) && overflow == old(overflow) && due' == due + timers[id].period
              else now < due' + timers[id].period
                   && Inserted(old(current), old(overflow), current, overflow, base, id, due' + timers[id].period)
    {
      again := InsertTimer(id, (exp + timers[id].period) % WRAP, timeNow, exp, due, now);
      exp', due' := exp, due;
      if again { exp', due' := CallMissed(id, exp, due, now, clock, out); }
    }

    method CallMissed(id: nat, exp: dword, ghost due: nat, ghost now: nat, ghost clock: nat, ghost out: set<nat>)
      returns (exp': dword, ghost due': nat)
      requires Without(out + {id}) && id !in out && id in timers && Scheduled(timers, records, id, due)
      requires due + timers[id].period <= now < base + WRAP && base <= now < due + WRAP && exp == Tick(base, due)
               && now <= clock
      modifies `calls, `records, `log
      ensures Without(out + {id}) && due' == due + timers[id].period && exp' == Tick(base, due')
      ensures Scheduled(timers, records, id, due') && SameButFired(old(records), records, id)
              && CalledAt(old(log), log, clock)
    {
      exp', due' := NextExpiry(id, exp, due, now);
      FiredIsConsistent(timers, current, overflow, base, records, id, out);
      CallBack(id, clock);
    }

    /** prvReloadTimer: the expiry at `at` is over, but its call is still to come.  Calls that were
        missed since are made. */
    method Reload(id: nat, expired: dword, timeNow: dword, ghost at: nat, ghost now: nat, ghost clock: nat,
                  ghost out: set<nat>) returns (ghost next: nat)
      requires Without(out + {id}) && id !in out
      requires id in timers && timers[id].active && Scheduled(timers, records, id, at)
      requires base <= now < base + WRAP && timeNow == now - base && now <= clock
      requires at <= now < at + WRAP && expired == Tick(base, at)
      modifies `current, `overflow, `calls, `records, `log
      ensures Logged() && CalledAt(old(log), log, clock) && SameButFired(old(records), records, id)
              && Sane(timers, records)
      ensures records[id].Next() <= now < records[id].Next() + timers[id].period
      ensures Consistent(timers, current, overflow, base, records[id := records[id].Fired()], out)
      ensures next == records[id].Next() + timers[id].period
      ensures Inserted(old(current), old(overflow), current, overflow, base, id, next)
    {
      ghost var due := CatchUp(id, expired, timeNow, at, now, clock, out);
      next := due + timers[id].period;
      ReloadedIsConsistent(timers, old(current), old(overflow), current, overflow, base, records, id, next, out);
    }

    /** A timer that is reloaded is called for the expiry at `at`, after those that were missed since. */
    method ReloadAndCall(id: nat, expired: dword, timeNow: dword, ghost at: nat, ghost now: nat, ghost clock: nat,
                         ghost out: set<nat>) returns (ghost next: nat)
      requires Without(out + {id}) && id !in out
      requires id in timers && timers[id].active && Scheduled(timers, records, id, at)
      requires base <= now < base + WRAP && timeNow == now - base && now <= clock
      requires at <= now < at + WRAP && expired == Tick(base, at)
      modifies `current, `overflow, `calls, `records, `log
      ensures Without(out) && CalledAt(old(log), log, clock) && |log| > |old(log)|
      ensures SameButFired(old(records), records, id) && |records[id].fired| > |old(records[id].fired)|
      ensures records[id].Last() <= now < records[id].Next()
      ensures next == records[id].Next() && Inserted(old(current), old(overflow), current, overflow, base, id, next)
    {
      next := Reload(id, expired, timeNow, at, now, clock, out);
      CallReloaded(id, clock, out);
    }

    method CallReloaded(id: nat, ghost clock: nat, ghost out: set<nat>)
      requires Logged() && Sane(timers, records) && id in records && records[id].Next() <= clock && base % WRAP == 0
      requires Consistent(timers, current, overflow, base, records[id := records[id].Fired()], out)
      modifies `calls, `records, `log
      ensures Without(out) && CalledAt(old(log), log, clock) && |log| > |old(log)| && id in records
      ensures forall recs: map<nat, Record> :: SameButFired(recs, old(records), id) ==>
                SameButFired(recs, records, id) && |records[id].fired| > |recs[id].fired|
      ensures records[id].Last() == old(records[id].Next())
      ensures records[id].Next() == old(records[id].Next()) + old(records[id]).period
    {
      FiredIsRegular(records[id]);
      CallBack(id, clock);
    }

    /** A timer that is not reloaded becomes inactive and is called. */
    method RetireAndCall(id: nat, ghost clock: nat, ghost out: set<nat>)
      requires Without(out + {id}) && id !in out && id in timers && id in records && records[id].Next() <= clock
      modifies `timers, `calls, `records, `log
      ensures Without(out) && CalledAt(old(log), log, clock) && |log| > |old(log)|
      ensures timers == old(timers)[id := old(timers[id]).(active := false)]
      ensures records == old(records)[id := old(records[id]).Fired()]
    {
      ghost var ts := timers;
      timers := timers[id := timers[id].(active := false)];
      RetiredIsConsistent(ts, timers, current, overflow, base, records, id, out);
      CallBack(id, clock);
    }

    /** prvProcessExpiredTimer, for the first timer of the current list.  A timer that is reloaded
        catches up with `now`; one that is not becomes inactive. */
    method ProcessExpired(next: dword, timeNow: dword, ghost now: nat, ghost clock: nat, ghost out: set<nat>)
      requires Without(out) && current != [] && next == current[0].value && base + next <= now < base + WRAP
      requires timeNow == now - base && now <= clock
      modifies `timers, `current, `overflow, `calls, `records, `log
      ensures Without(out) && timers.Keys == old(timers).Keys && Spared(old(timers), timers, out)
      ensures var id := old(current[0].id);
              && id in timers && id in records && SameButFired(old(records), records, id)
              && |records[id].fired| > |old(records[id].fired)| && |log| > |old(log)|
              && timers == (if old(timers[id]).autoReload then old(timers)
                  else old(timers)[id := old(timers[id]).(active := false)])
              && (if timers[id].autoReload then records[id].Last() <= now < records[id].Next()
                  else records[id] == old(records[id]).Fired() && current == old(current)[1..]
                       && overflow == old(overflow))
      ensures now == base + WRAP - 1 ==> |current| < |old(current)|
      ensures AllAdvanced(old(timers), timers, old(records), records, clock) && CalledAt(old(log), log, clock)
    {
      HeadIsScheduled(timers, current, overflow, base, records, out);
      var id := current[0].id;
      ghost var cur, at := current, base + next;
      current := current[1..];
      if timers[id].autoReload {
        ghost var again := ReloadAndCall(id, next, timeNow, at, now, clock, out);
        InsertedBeyond(cur[1..], old(overflow), current, overflow, base, id, again);
      } else {
        RetireAndCall(id, clock, out);
      }
      FiredIsAdvance(old(timers), timers, old(records), records, id, clock);
    }

    /** prvSwitchTimerLists: the tick count has wrapped around. */
    method SwitchLists(ghost clock: nat, ghost out: set<nat>)
      requires Without(out) && base + WRAP <= clock
      modifies `timers, `current, `overflow, `calls, `records, `log, `base
      ensures Without(out) && base == old(base) + WRAP && timers.Keys == old(timers).Keys
              && Spared(old(timers), timers, out)
      ensures AllAdvanced(old(timers), timers, old(records), records, clock) && CalledAt(old(log), log, clock)
      ensures old(current) == [] ==> current == old(overflow) && overflow == []
    {
      Drain(clock, out);
      SwitchedIsConsistent(timers, current, overflow, base, records, out);
      base := base + WRAP;
      current, overflow := overflow, current;
    }

    /** What is left before the wrap. */
    method Drain(ghost clock: nat, ghost out: set<nat>)
      requires Without(out) && base + WRAP <= clock
      modifies `timers, `current, `overflow, `calls, `records, `log
      ensures Without(out) && current == [] && timers.Keys == old(timers).Keys && Spared(old(timers), timers, out)
      ensures AllAdvanced(old(timers), timers, old(records), records, clock) && CalledAt(old(log), log, clock)
      ensures old(current) == [] ==> overflow == old(overflow)
    {
      while current != []
        invariant Without(out) && base == old(base) && timers.Keys == old(timers).Keys
                  && Spared(old(timers), timers, out)
        invariant AllAdvanced(old(timers), timers, old(records), records, clock) && CalledAt(old(log), log, clock)
        invariant old(current) == [] ==> current == [] && overflow == old(overflow)
        decreases |current|
      {
        ghost var ts, recs := timers, records;
        HeadIsScheduled(timers, current, overflow, base, records, out);
        ProcessExpired(current[0].value, WRAP - 1, base + WRAP - 1, clock, out);
        AdvancedTwice(old(timers), ts, timers, old(records), recs, records, clock);
      }
    }

    /** No timer is active: nothing limits how long the daemon sleeps. */
    ghost predicate Idle()
      reads `current, `overflow
    {
      current == [] && overflow == []
    }

    /** When the tick count may be sampled next: within one wrap, or at any time if the daemon is idle. */
    ghost predicate InTime(now: nat)
      reads `current, `overflow, `base, `lastTime
    {
      base + lastTime <= now && (now < base + lastTime + WRAP || Idle())
    }

    /** prvSampleTimeNow, at time `now`.  Of several wraps while the daemon was idle at most one is
        noticed; with empty lists that does not matter. */
    method SampleTimeNow(tick: dword, ghost now: nat, ghost out: set<nat>) returns (switched: bool)
      requires Without(out) && InTime(now) && tick == now % WRAP
      modifies `timers, `current, `overflow, `calls, `records, `log, `base, `lastTime
      ensures Without(out) && base + lastTime == now && lastTime == tick && timers.Keys == old(timers).Keys
      ensures (switched ==> base != old(base)) && (!old(Idle()) ==> (switched <==> base != old(base)))
      ensures Spared(old(timers), timers, out) && AllAdvanced(old(timers), timers, old(records), records, now)
      ensures CalledAt(old(log), log, now)
      ensures old(Idle()) ==> Idle()
      ensures !switched ==>
                && timers == old(timers) && current == old(current) && overflow == old(overflow)
                && records == old(records) && log == old(log)
    {
      if tick < lastTime {
        SwitchLists(now, out);
        switched := true;
      } else {
        switched := false;
      }
      if Idle() {
        IdleIsConsistent(timers, base, now - tick, records, out);
        base := now - tick;
      }
      lastTime := tick;
    }

    /** prvGetNextExpireTime and prvProcessTimerOrBlockTask: a timer is processed, or the lists are
        switched, or the daemon blocks for `wait` ticks, or until a command comes.  It blocks only
        when nothing is due, and not beyond the next expiry. */
    method ProcessOrBlock(tick: dword, ghost now: nat) returns (blocks: bool, wait: dword, forever: bool)
      requires Valid() && InTime(now) && tick == now % WRAP
      modifies `timers, `current, `overflow, `calls, `records, `log, `base, `lastTime
      ensures Valid() && base + lastTime == now && AllAdvanced(old(timers), timers, old(records), records, now)
      ensures CalledAt(old(log), log, now)
      ensures blocks ==> forall id :: id in timers && timers[id].active ==>
                id in records && now < records[id].Next() && !forever && now + wait <= records[id].Next()
      ensures blocks ==>
                timers == old(timers) && current == old(current) && overflow == old(overflow) && log == old(log)
      ensures blocks ==> (forever <==> current == [] && overflow == [])
      ensures blocks ==> now + wait == if current != [] then base + current[0].value else if lastTime == 0 then base
              else base + WRAP
      ensures !blocks ==> base != old(base) || |log| > |old(log)|
    {
      var wasEmpty := current == [];
      var next: dword := if wasEmpty then 0 else current[0].value;
      blocks, wait, forever := false, 0, false;
      var switched := SampleTimeNow(tick, now, {});
      if !switched {
        if !wasEmpty && next <= lastTime {
          ProcessExpired(next, lastTime, now, now, {});
        } else {
          NothingDue(timers, current, overflow, base, records, now);
          blocks := true;
          forever := wasEmpty && overflow == [];
          wait := (next - lastTime) % WRAP;
        }
      }
    }

    /** A timer that is out of the lists is started at time `start`. */
    method StartTimer(id: nat, value: dword, ghost start: nat, ghost now: nat) returns (due: bool)
      requires Without({id}) && id in timers && timers[id].active && base + lastTime == now
      requires start <= now < start + WRAP && value == Tick(base, start)
      modifies `current, `overflow, `records
      ensures records == old(records)[id := Record(start, timers[id].period, |log|, [])]
      ensures due <==> start + timers[id].period <= now
      ensures if due then Without({id}) else Valid()
    {
      due := InsertTimer(id, (value + timers[id].period) % WRAP, lastTime, value, start, now);
      ghost var recs := records;
      StartedIsTied(log, records, id, Record(start, timers[id].period, |log|, []));
      records := records[id := Record(start, timers[id].period, |log|, [])];
      OutIsFree(timers, timers, old(current), old(overflow), base, recs, records, id);
      if !due {
        InsertedIsConsistent(timers, old(current), old(overflow), current, overflow, base, records, records, id,
                             start + timers[id].period, {});
      }
    }

    /** One command of prvProcessReceivedCommands, taken from the queue at time `now`. */
    method Execute(id: nat, c: Command, tick: dword, ghost sent: nat, ghost now: nat)
      requires Valid() && id in timers
      requires InTime(now) && tick == now % WRAP
      requires sent <= now < sent + WRAP && (c.Start? ==> c.value == sent % WRAP) && (c.ChangePeriod? ==> 0 < c.period)
      modifies `timers, `current, `overflow, `calls, `records, `log, `base, `lastTime
      ensures Valid() && base + lastTime == now && id in timers
      ensures OthersAdvanced(old(timers), timers, old(records), records, id, now)
      ensures CalledAt(old(log), log, now)
      ensures Heeded(old(records), records, id, now)
      ensures Obeyed(id, c, old(timers), timers, records, sent, now)
    {
      RemovedIsConsistent(timers, current, overflow, base, records, id);
      current := Remove(current, id);
      overflow := Remove(overflow, id);
      var _ := SampleTimeNow(tick, now, {id});
      assert id in {id};
      ghost var ts, recs := timers, records;
      ExecuteNow(id, c, sent, now);
      OthersAdvance(old(timers), ts, timers, old(records), recs, records, id, now);
    }

    /** The command itself, for a timer that is out of the lists. */
    method ExecuteNow(id: nat, c: Command, ghost sent: nat, ghost now: nat)
      requires Without({id}) && id in timers && base + lastTime == now
      requires sent <= now < sent + WRAP && (c.Start? ==> c.value == sent % WRAP) && (c.ChangePeriod? ==> 0 < c.period)
      modifies `timers, `current, `overflow, `calls, `records, `log
      ensures Valid() && id in timers
      ensures OthersSame(old(timers), timers, old(records), records, id) && CalledAt(old(log), log, now)
      ensures Heeded(old(records), records, id, now)
      ensures Obeyed(id, c, old(timers), timers, records, sent, now)
    {
      match c {
        case Start(value) => ExecuteStart(id, value, sent, now);
        case ChangePeriod(period) =>
          SetTimer(id, timers[id].(active := true, period := period));
          var _ := StartTimer(id, lastTime, now, now);
        case Stop | Delete => Retire(id);
      }
    }

    /** Clears the active bit of a timer that is out of the lists. */
    method Retire(id: nat)
      requires Without({id}) && id in timers
      modifies `timers
      ensures Valid() && timers == old(timers)[id := old(timers[id]).(active := false)]
    {
      ghost var ts := timers;
      timers := timers[id := timers[id].(active := false)];
      assert {} + {id} == {id};
      RetiredIsConsistent(ts, timers, current, overflow, base, records, id, {});
    }

    /** tmrCOMMAND_START and tmrCOMMAND_RESET */
    method ExecuteStart(id: nat, value: dword, ghost sent: nat, ghost now: nat)
      requires Without({id}) && id in timers && base + lastTime == now && sent <= now < sent + WRAP
               && value == sent % WRAP
      modifies `timers, `current, `overflow, `calls, `records, `log
      ensures Valid() && id in timers && timers[id].(active := true) == old(timers[id]).(active := true)
      ensures OthersSame(old(timers), timers, old(records), records, id) && CalledAt(old(log), log, now)
      ensures id in records && records[id].start == sent && records[id].period == timers[id].period
      ensures records[id].Last() <= now && (timers[id].active ==> records[id].Next() > now)
      ensures !timers[id].active ==>
                !timers[id].autoReload && records[id].fired == [sent + timers[id].period]
                && sent + timers[id].period <= now
    {
      SetTimer(id, timers[id].(active := true));
      TickIsRemainder(base, sent);
      var due := StartTimer(id, value, sent, now);
      if due { Expired(id, value, sent, now); }
    }

    /** A timer that has expired before its start was noticed. */
    method Expired(id: nat, value: dword, ghost sent: nat, ghost now: nat)
      requires Without({id}) && id in timers && base + lastTime == now && timers[id].active
      requires id in records && records[id] == Record(sent, timers[id].period, |log|, [])
      requires sent + timers[id].period <= now < sent + WRAP && value == Tick(base, sent)
      modifies `timers, `current, `overflow, `calls, `records, `log
      ensures Valid() && OthersSame(old(timers), timers, old(records), records, id) && id in timers && id in records
      ensures timers[id] == old(timers[id]).(active := old(timers[id]).autoReload) && CalledAt(old(log), log, now)
      ensures records[id].start == sent && records[id].period == timers[id].period && records[id].Last() <= now
      ensures if timers[id].active then records[id].Next() > now else records[id].fired == [sent + timers[id].period]
    {
      assert {} + {id} == {id};
      if timers[id].autoReload {
        ghost var _ := ReloadAndCall(id, (value + timers[id].period) % WRAP, lastTime, sent + timers[id].period, now,
                                     now, {});
      } else {
        RetireAndCall(id, now, {});
      }
    }

    method SetTimer(id: nat, t: Timer)
      requires Without({id}) && id in timers && 0 < t.period
      modifies `timers
      ensures Without({id}) && timers == old(timers)[id := t]
    {
      OutIsFree(timers, timers[id := t], current, overflow, base, records, records, id);
      timers := timers[id := t];
    }

    /** xExpiredTime += xTimerPeriodInTicks */
    method NextExpiry(id: nat, exp: dword, ghost due: nat, ghost now: nat) returns (exp': dword, ghost due': nat)
      requires id in timers && due + timers[id].period <= now < base + WRAP && base <= now < due + WRAP
               && exp == Tick(base, due)
      ensures due' == due + timers[id].period && exp' == Tick(base, due')
    {
      due' := due + timers[id].period;
      exp' := (exp + timers[id].period) % WRAP;
    }
  }

  lemma HeadIsScheduled(ts: map<nat, Timer>, cur: seq<Item>, ovf: seq<Item>, base: nat, recs: map<nat, Record>,
                        out: set<nat>)
    requires Consistent(ts, cur, ovf, base, recs, out) && cur != []
    ensures var y := cur[0];
            && Scheduled(ts, recs, y.id, base + y.value) && ts[y.id].active && y.id !in out
            && Consistent(ts, cur[1..], ovf, base, recs, out + {y.id})
  {
    var y, rest := cur[0], cur[1..];
    assert Opens(0) && cur == [y] + rest && y in cur && y.id in Ids(cur);
    assert Ids(cur) == Ids(rest) + {y.id};
    assert Parts(ts, rest, ovf, base, recs, out + {y.id});
  }

  /** A timer that is out may become inactive. */
  lemma RetiredIsConsistent(ts: map<nat, Timer>, ts': map<nat, Timer>, cur: seq<Item>, ovf: seq<Item>, base: nat,
                            recs: map<nat, Record>, id: nat, out: set<nat>)
    requires id !in out
    requires Consistent(ts, cur, ovf, base, recs, out + {id}) && id in ts && ts' == ts[id := ts[id].(active := false)]
    ensures Consistent(ts', cur, ovf, base, recs, out)
    ensures id in recs ==> Consistent(ts', cur, ovf, base, recs[id := recs[id].Fired()], out)
  {
    assert Opens(0) && id in out + {id};
    forall y | y in cur ensures Scheduled(ts', recs, y.id, base + y.value) { assert y.id in Ids(cur); }
    forall y | y in ovf ensures Scheduled(ts', recs, y.id, base + WRAP + y.value) { assert y.id in Ids(ovf); }
    assert Parts(ts', cur, ovf, base, recs, out);
    if id in recs {
      var recs' := recs[id := recs[id].Fired()];
      FiredIsRegular(recs[id]);
      OthersInOrder(ts', cur, base, recs, recs', id);
      OthersInOrder(ts', ovf, base + WRAP, recs, recs', id);
      assert Parts(ts', cur, ovf, base, recs', out);
    }
  }

  /** What is due after the epoch does not go into the current list. */
  lemma InsertedBeyond(cur: seq<Item>, ovf: seq<Item>, cur': seq<Item>, ovf': seq<Item>, base: nat, id: nat, at: nat)
    requires Inserted(cur, ovf, cur', ovf', base, id, at)
    ensures at >= base + WRAP ==> cur' == cur
  {
  }

  /** Empty lists fit any epoch. */
  lemma IdleIsConsistent(ts: map<nat, Timer>, base: nat, base': nat, recs: map<nat, Record>, out: set<nat>)
    requires Consistent(ts, [], [], base, recs, out)
    ensures Consistent(ts, [], [], base', recs, out)
  {
    assert Opens(0);
    assert Parts(ts, [], [], base', recs, out);
  }

  /** With no timer left before the wrap, the second list becomes the first. */
  lemma SwitchedIsConsistent(ts: map<nat, Timer>, cur: seq<Item>, ovf: seq<Item>, base: nat, recs: map<nat, Record>,
                             out: set<nat>)
    requires Consistent(ts, cur, ovf, base, recs, out) && cur == []
    ensures Consistent(ts, ovf, cur, base + WRAP, recs, out)
  {
    assert Opens(0);
    assert Parts(ts, ovf, cur, base + WRAP, recs, out);
  }

  /** With the first timer of the current list in the future, every active timer is. */
  lemma NothingDue(ts: map<nat, Timer>, cur: seq<Item>, ovf: seq<Item>, base: nat, recs: map<nat, Record>, now: nat)
    requires Consistent(ts, cur, ovf, base, recs, {}) && base <= now < base + WRAP
    requires cur != [] ==> base + cur[0].value > now
    ensures forall id :: id in ts && ts[id].active ==>
              id in recs && now < recs[id].Next() && !(cur == [] && ovf == [])
              && recs[id].Next() >= if cur == [] then base + WRAP else base + cur[0].value
  {
    assert Opens(0);
    forall id | id in ts && ts[id].active
      ensures id in recs && now < recs[id].Next() && !(cur == [] && ovf == [])
      ensures recs[id].Next() >= if cur == [] then base + WRAP else base + cur[0].value
    {
      if id in Ids(cur) {
        var y :| y in cur && y.id == id;
        assert cur == [cur[0]] + cur[1..];
      } else {
        var y :| y in ovf && y.id == id;
      }
    }
  }

  lemma RemovedIsConsistent(ts: map<nat, Timer>, cur: seq<Item>, ovf: seq<Item>, base: nat, recs: map<nat, Record>,
                            id: nat)
    requires Consistent(ts, cur, ovf, base, recs, {})
    ensures Consistent(ts, Remove(cur, id), Remove(ovf, id), base, recs, {id})
  {
    assert Opens(0);
    RemoveKeeps(cur, id);
    RemoveKeeps(ovf, id);
    assert Parts(ts, Remove(cur, id), Remove(ovf, id), base, recs, {id});
  }

  /** What is recorded of a timer that is out of the lists does not matter to them. */
  lemma OutIsFree(ts: map<nat, Timer>, ts': map<nat, Timer>, cur: seq<Item>, ovf: seq<Item>, base: nat,
                  recs: map<nat, Record>, recs': map<nat, Record>, id: nat)
    requires Consistent(ts, cur, ovf, base, recs, {id}) && id in ts && id in ts' && 0 < ts'[id].period
    requires ts' == ts[id := ts'[id]]
    requires recs' == recs || (id in recs' && recs' == recs[id := recs'[id]] && recs'[id].Regular())
    ensures Consistent(ts', cur, ovf, base, recs', {id})
  {
    assert Opens(0) && id in {id};
    forall y | y in cur ensures Scheduled(ts', recs', y.id, base + y.value) { assert y.id in Ids(cur); }
    forall y | y in ovf ensures Scheduled(ts', recs', y.id, base + WRAP + y.value) { assert y.id in Ids(ovf); }
    assert Parts(ts', cur, ovf, base, recs', {id});
  }

  ghost predicate Spared(ts: map<nat, Timer>, ts': map<nat, Timer>, out: set<nat>) {
    forall id :: id in out && id in ts ==> id in ts' && ts'[id] == ts[id]
  }

  /** The same start, and perhaps some more calls. */
  ghost predicate Continued(r: Record, r': Record) {
    r'.start == r.start && r'.period == r.period && r'.since == r.since && r.fired <= r'.fired
  }

  /** What time alone may do to a timer until `clock`, and not early: one that is reloaded may be called back any number
      of times, one that is not, once, and then it is inactive. */
  ghost predicate Advanced(t: Timer, t': Timer, recs: map<nat, Record>, recs': map<nat, Record>, id: nat, clock: nat) {
    && (id in recs' <==> id in recs)
    && (id in recs ==> recs'[id] == recs[id] || recs'[id].Last() <= clock)
    && (id in recs ==> Continued(recs[id], recs'[id]))
    && if t.active && t.autoReload then t' == t
       else if t' == t then id in recs ==> recs'[id] == recs[id]
       else t.active && t' == t.(active := false) && id in recs && recs'[id] == recs[id].Fired()
  }

  ghost predicate AllAdvanced(ts: map<nat, Timer>, ts': map<nat, Timer>, recs: map<nat, Record>,
                              recs': map<nat, Record>, clock: nat) {
    ts'.Keys == ts.Keys && forall id :: id in ts ==> Advanced(ts[id], ts'[id], recs, recs', id, clock)
  }

  /** One timer, called back. */
  lemma FiredIsAdvance(ts: map<nat, Timer>, ts': map<nat, Timer>, recs: map<nat, Record>, recs': map<nat, Record>,
                       id: nat, clock: nat)
    requires id in ts && ts[id].active && SameButFired(recs, recs', id) && recs'[id].Last() <= clock
    requires if ts[id].autoReload then ts' == ts
             else ts' == ts[id := ts[id].(active := false)] && recs'[id] == recs[id].Fired()
    ensures AllAdvanced(ts, ts', recs, recs', clock)
  {
  }

  /** A command for timer `id` lets the others do what they would have done without it. */
  ghost predicate OthersAdvanced(ts: map<nat, Timer>, ts': map<nat, Timer>, recs: map<nat, Record>,
                                 recs': map<nat, Record>, id: nat, clock: nat) {
    ts'.Keys == ts.Keys && forall j :: j in ts && j != id ==> Advanced(ts[j], ts'[j], recs, recs', j, clock)
  }

  ghost predicate OthersSame(ts: map<nat, Timer>, ts': map<nat, Timer>, recs: map<nat, Record>, recs': map<nat, Record>,
                             id: nat) {
    && ts'.Keys == ts.Keys && recs' - {id} == recs - {id}
    && forall j :: j in ts && j != id ==> ts'[j] == ts[j]
  }

  lemma OthersAdvance(ts: map<nat, Timer>, ts': map<nat, Timer>, ts'': map<nat, Timer>,
                      recs: map<nat, Record>, recs': map<nat, Record>, recs'': map<nat, Record>, id: nat, clock: nat)
    requires AllAdvanced(ts, ts', recs, recs', clock) && OthersSame(ts', ts'', recs', recs'', id)
    ensures OthersAdvanced(ts, ts'', recs, recs'', id, clock)
  {
    forall j | j in ts && j != id ensures Advanced(ts[j], ts''[j], recs, recs'', j, clock) {
      assert Advanced(ts[j], ts'[j], recs, recs', j, clock);
      assert j in recs'' <==> j in recs'' - {id};
      assert j in recs' <==> j in recs' - {id};
      assert j in recs' ==> (recs'' - {id})[j] == (recs' - {id})[j];
    }
  }

  lemma AdvancedAgain(t: Timer, t': Timer, t'': Timer, recs: map<nat, Record>, recs': map<nat, Record>,
                      recs'': map<nat, Record>, id: nat, clock: nat, clock': nat)
    requires Advanced(t, t', recs, recs', id, clock) && Advanced(t', t'', recs', recs'', id, clock') && clock <= clock'
    ensures Advanced(t, t'', recs, recs'', id, clock')
  {
  }

  lemma AdvancedTwice(ts: map<nat, Timer>, ts': map<nat, Timer>, ts'': map<nat, Timer>,
                      recs: map<nat, Record>, recs': map<nat, Record>, recs'': map<nat, Record>, clock: nat)
    requires AllAdvanced(ts, ts', recs, recs', clock) && AllAdvanced(ts', ts'', recs', recs'', clock)
    ensures AllAdvanced(ts, ts'', recs, recs'', clock)
  {
    forall id | id in ts ensures Advanced(ts[id], ts''[id], recs, recs'', id, clock) {
      AdvancedAgain(ts[id], ts'[id], ts''[id], recs, recs', recs'', id, clock, clock);
    }
  }

  /** Timer `id` may have been called back; nothing else happened. */
  ghost predicate SameButFired(recs: map<nat, Record>, recs': map<nat, Record>, id: nat) {
    && recs'.Keys == recs.Keys && id in recs
    && Continued(recs[id], recs'[id])
    && forall j :: j in recs && j != id ==> recs'[j] == recs[j]
  }

  lemma ReloadedIsConsistent(ts: map<nat, Timer>, cur: seq<Item>, ovf: seq<Item>, cur': seq<Item>, ovf': seq<Item>,
                             base: nat, recs: map<nat, Record>, id: nat, at: nat, out: set<nat>)
    requires id !in out
    requires Consistent(ts, cur, ovf, base, recs, out + {id}) && Inserted(cur, ovf, cur', ovf', base, id, at)
    requires id in ts && ts[id].active && id in recs && recs[id].period <= at
             && Scheduled(ts, recs, id, at - recs[id].period)
    ensures Consistent(ts, cur', ovf', base, recs[id := recs[id].Fired()], out)
  {
    FiredIsRegular(recs[id]);
    InsertedIsConsistent(ts, cur, ovf, cur', ovf', base, recs, recs[id := recs[id].Fired()], id, at, out);
  }

  /** A call back of the timer that is out does not concern the lists. */
  lemma FiredIsConsistent(ts: map<nat, Timer>, cur: seq<Item>, ovf: seq<Item>, base: nat, recs: map<nat, Record>,
                          id: nat, out: set<nat>)
    requires id !in out
    requires Consistent(ts, cur, ovf, base, recs, out + {id}) && id in recs
    ensures Consistent(ts, cur, ovf, base, recs[id := recs[id].Fired()], out + {id})
  {
    assert Opens(0) && id in out + {id};
    FiredIsRegular(recs[id]);
    OthersInOrder(ts, cur, base, recs, recs[id := recs[id].Fired()], id);
    OthersInOrder(ts, ovf, base + WRAP, recs, recs[id := recs[id].Fired()], id);
  }

  lemma FiredIsRegular(r: Record)
    requires r.Regular()
    ensures r.Fired().Regular() && r.Fired().Next() == r.Next() + r.period
  {
  }

  /** What a command does to its timer: a start counts from the time of the command, and a timer that has expired by
      now was called back; a changed period counts from now; a stopped timer is inactive. */
  ghost predicate Obeyed(id: nat, c: Command, ts: map<nat, Timer>, ts': map<nat, Timer>, recs': map<nat, Record>,
                         sent: nat, now: nat) {
    && id in ts && id in ts' && ts'[id].autoReload == ts[id].autoReload
    && match c
       case Start(_) =>
         && id in recs' && recs'[id].start == sent && recs'[id].period == ts'[id].period == ts[id].period
         && (ts'[id].active ==> recs'[id].Next() > now)
         && (!ts'[id].active ==>
               && !ts'[id].autoReload && recs'[id].fired == [sent + ts'[id].period] && sent + ts'[id].period <= now)
       case ChangePeriod(period) =>
         && ts'[id].active && ts'[id].period == period && id in recs'
         && recs'[id].start == now && recs'[id].period == period && recs'[id].fired == []
       case Stop | Delete => !ts'[id].active
  }

  /** A command for timer `id` leaves what is recorded of it, or records nothing that is still to come. */
  ghost predicate Heeded(recs: map<nat, Record>, recs': map<nat, Record>, id: nat, clock: nat) {
    id in recs' ==> recs'[id].Last() <= clock || (id in recs && recs'[id] == recs[id])
  }

  /** No call was made for an expiry that is still to come. */
  ghost predicate NoneEarly(ts: map<nat, Timer>, recs: map<nat, Record>, clock: nat) {
    forall id :: id in ts && id in recs ==> recs[id].Last() <= clock
  }

  /** Every active timer was called once for each period that is over since its start. */
  ghost predicate AllOnTime(ts: map<nat, Timer>, recs: map<nat, Record>, now: nat) {
    forall id :: id in ts && ts[id].active ==>
      id in recs && var r := recs[id]; r.start + |r.fired| * r.period <= now < r.start + (|r.fired| + 1) * r.period
  }

  lemma NoneEarlyLater(ts: map<nat, Timer>, ts': map<nat, Timer>, recs: map<nat, Record>, recs': map<nat, Record>,
                       time: nat, now: nat)
    requires NoneEarly(ts, recs, time) && time <= now && AllAdvanced(ts, ts', recs, recs', now)
    ensures NoneEarly(ts', recs', now)
  {
    forall id | id in ts' && id in recs' ensures recs'[id].Last() <= now {
      assert Advanced(ts[id], ts'[id], recs, recs', id, now);
    }
  }

  lemma NoneEarlyObeyed(ts: map<nat, Timer>, ts': map<nat, Timer>, recs: map<nat, Record>, recs': map<nat, Record>,
                        id: nat, time: nat, now: nat)
    requires NoneEarly(ts, recs, time) && time <= now && OthersAdvanced(ts, ts', recs, recs', id, now)
    requires Heeded(recs, recs', id, now) && id in ts
    ensures NoneEarly(ts', recs', now)
  {
    forall j | j in ts' && j in recs' ensures recs'[j].Last() <= now {
      if j != id { assert Advanced(ts[j], ts'[j], recs, recs', j, now); }
    }
  }

  lemma BlockedIsOnTime(ts: map<nat, Timer>, recs: map<nat, Record>, now: nat)
    requires NoneEarly(ts, recs, now) && Sane(ts, recs)
    requires forall id :: id in ts && ts[id].active ==> id in recs && now < recs[id].Next()
    ensures AllOnTime(ts, recs, now)
  {
    forall id | id in ts && ts[id].active
      ensures id in recs
      ensures var r := recs[id]; r.start + |r.fired| * r.period <= now < r.start + (|r.fired| + 1) * r.period
    {
      OnTime(recs[id], now);
    }
  }

  /** A turn of the daemon, some ticks after the one before: it looks at the timers, or obeys a command
      that was given some ticks ago. */
  datatype Turn = Look(after: nat) | Obey(after: nat, id: nat, c: Command, age: dword)

  /** The timers at some time, and what is recorded of them. */
  datatype Snap = Snap(timers: map<nat, Timer>, records: map<nat, Record>, now: nat)

  /** What a turn changes.  One that comes a whole wrap late is left out, unless no timer is active. */
  ghost predicate Served(s: Snap, turn: Turn, s': Snap) {
    if turn.after >= WRAP && exists i :: i in s.timers && s.timers[i].active then s' == s
    else
      && s'.now == s.now + turn.after
      && match turn
         case Look(_) => AllAdvanced(s.timers, s'.timers, s.records, s'.records, s'.now)
         case Obey(_, id, c, age) =>
           var sent := if age <= s'.now then s'.now - age else s'.now;
           if id in s.timers && (c.Start? ==> c.value == sent % WRAP) && (c.ChangePeriod? ==> 0 < c.period)
           then OthersAdvanced(s.timers, s'.timers, s.records, s'.records, id, s'.now)
                && Obeyed(id, c, s.timers, s'.timers, s'.records, sent, s'.now)
           else AllAdvanced(s.timers, s'.timers, s.records, s'.records, s'.now)
  }

  lemma IdleIsNone(d: Daemon)
    requires d.Valid()
    ensures d.Idle() <==> !exists i :: i in d.timers && d.timers[i].active
  {
    assert Opens(0);
    if d.current != [] {
      assert d.current[0] in d.current && d.current[0].id in Ids(d.current);
      assert Scheduled(d.timers, d.records, d.current[0].id, d.base + d.current[0].value);
    }
    if d.overflow != [] {
      assert d.overflow[0] in d.overflow && d.overflow[0].id in Ids(d.overflow);
      assert Scheduled(d.timers, d.records, d.overflow[0].id, d.base + WRAP + d.overflow[0].value);
    }
  }

  /** Over any run, with any number of wraps, a timer for which no command comes is called back when its
      time has come, and in order; the calls made for it are exactly those recorded.  When the daemon
      blocks, every active timer, also one that was started meanwhile, was called for all its periods
      that are over.  A turn comes a whole wrap late only if the daemon is idle: otherwise it does not
      block that long. */
  method Run(d: Daemon, time: nat, turns: seq<Turn>, ghost id: nat)
    returns (now: nat, blocked: bool, ghost snaps: seq<Snap>)
    requires d.Valid() && time == d.base + d.lastTime && id in d.timers
    requires forall i :: 0 <= i < |turns| && turns[i].Obey? ==> turns[i].id != id
    modifies d
    ensures d.Valid() && now == d.base + d.lastTime && id in d.timers
    ensures Advanced(old(d.timers[id]), d.timers[id], old(d.records), d.records, id, now)
    ensures Made(old(d.calls), d.calls, old(d.log), d.log, now)
    ensures if id in d.records then d.records[id].fired == old(d.records[id].fired) + Dues(d.log, id, |old(d.log)|)
            else Dues(d.log, id, |old(d.log)|) == []
    ensures blocked && NoneEarly(old(d.timers), old(d.records), time) ==> AllOnTime(d.timers, d.records, now)
    ensures |snaps| == |turns| + 1 && snaps[|turns|] == Snap(d.timers, d.records, now)
    ensures snaps[0] == Snap(old(d.timers), old(d.records), time)
    ensures forall i :: 0 <= i < |turns| ==> Served(snaps[i], turns[i], snaps[i + 1])
  {
    now, blocked, snaps := time, false, [Snap(d.timers, d.records, time)];
    var i := 0;
    while i < |turns|
      invariant 0 <= i <= |turns| && d.Valid() && now == d.base + d.lastTime && id in d.timers
      invariant Advanced(old(d.timers[id]), d.timers[id], old(d.records), d.records, id, now)
      invariant Made(old(d.calls), d.calls, old(d.log), d.log, now)
      invariant NoneEarly(old(d.timers), old(d.records), time) ==> NoneEarly(d.timers, d.records, now)
      invariant blocked && NoneEarly(d.timers, d.records, now) ==> AllOnTime(d.timers, d.records, now)
      invariant |snaps| == i + 1 && snaps[0] == Snap(old(d.timers), old(d.records), time)
      invariant snaps[i] == Snap(d.timers, d.records, now)
      invariant forall k :: 0 <= k < i ==> Served(snaps[k], turns[k], snaps[k + 1])
    {
      ghost var t, recs, before := d.timers[id], d.records, now;
      now, blocked := ServeInTime(d, now, turns[i], id, blocked);
      AdvancedAgain(old(d.timers[id]), t, d.timers[id], old(d.records), recs, d.records, id, before, now);
      i, snaps := i + 1, snaps + [Snap(d.timers, d.records, now)];
    }
    CallsOfTimer(old(d.log), d.log, old(d.records), d.records, id);
  }

  /** A turn, unless it comes a whole wrap late. */
  method ServeInTime(d: Daemon, time: nat, turn: Turn, ghost id: nat, was: bool) returns (now: nat, blocked: bool)
    requires d.Valid() && time == d.base + d.lastTime && id in d.timers && (turn.Obey? ==> turn.id != id)
    requires was && NoneEarly(d.timers, d.records, time) ==> AllOnTime(d.timers, d.records, time)
    modifies d
    ensures d.Valid() && time <= now == d.base + d.lastTime && id in d.timers
    ensures Advanced(old(d.timers[id]), d.timers[id], old(d.records), d.records, id, now)
    ensures CalledAt(old(d.log), d.log, now) && old(d.calls) <= d.calls
    ensures NoneEarly(old(d.timers), old(d.records), time) ==> NoneEarly(d.timers, d.records, now)
    ensures blocked && NoneEarly(d.timers, d.records, now) ==> AllOnTime(d.timers, d.records, now)
    ensures Served(Snap(old(d.timers), old(d.records), time), turn, Snap(d.timers, d.records, now))
  {
    IdleIsNone(d);
    now, blocked := time, was;
    if turn.after < WRAP || (d.current == [] && d.overflow == []) { now, blocked := Serve(d, time, turn, id); }
  }

  /** The calls made between two times, each for an expiry that was due. */
  ghost predicate Made(calls: seq<nat>, calls': seq<nat>, log: seq<Call>, log': seq<Call>, now: nat) {
    && log <= log' && |calls| == |log| && |calls'| == |log'| && calls <= calls'
    && forall i :: |log| <= i < |log'| ==> calls'[i] == log'[i].id && log'[i].due <= log'[i].at <= now
  }

  lemma CallsOfTimer(log: seq<Call>, log': seq<Call>, recs: map<nat, Record>, recs': map<nat, Record>, id: nat)
    requires Tied(log, recs) && Tied(log', recs') && log <= log'
    requires (id in recs' <==> id in recs) && (id in recs ==> Continued(recs[id], recs'[id]))
    ensures if id in recs then recs'[id].fired == recs[id].fired + Dues(log', id, |log|)
            else Dues(log', id, |log|) == []
  {
    if id in recs {
      assert Dues(log, id, recs[id].since) == recs[id].fired && Dues(log', id, recs'[id].since) == recs'[id].fired;
      DuesSplit(log, log', id, recs[id].since);
    } else {
      NoDues(log', id, |log|);
    }
  }

  /** One turn. */
  method Serve(d: Daemon, time: nat, turn: Turn, ghost id: nat) returns (now: nat, blocked: bool)
    requires d.Valid() && time == d.base + d.lastTime && id in d.timers && (turn.Obey? ==> turn.id != id)
    requires turn.after < WRAP || d.Idle()
    modifies d
    ensures d.Valid() && now == d.base + d.lastTime == time + turn.after && id in d.timers
    ensures Advanced(old(d.timers[id]), d.timers[id], old(d.records), d.records, id, now)
    ensures CalledAt(old(d.log), d.log, now) && old(d.calls) <= d.calls
    ensures NoneEarly(old(d.timers), old(d.records), time) ==> NoneEarly(d.timers, d.records, now)
    ensures blocked && NoneEarly(d.timers, d.records, now) ==> AllOnTime(d.timers, d.records, now)
    ensures Served(Snap(old(d.timers), old(d.records), time), turn, Snap(d.timers, d.records, now))
  {
    IdleIsNone(d);
    now, blocked := time + turn.after, false;
    match turn {
      case Look(_) => blocked := LookAt(d, time, now);
      case Obey(_, other, c, age) =>
        var sent := if age <= now then now - age else now;
        if other in d.timers && (c.Start? ==> c.value == sent % WRAP) && (c.ChangePeriod? ==> 0 < c.period) {
          Obey(d, other, c, sent, time, now);
        } else {
          Sample(d, time, now);
        }
    }
    CallsFollow(old(d.calls), d.calls, old(d.log), d.log);
  }

  method LookAt(d: Daemon, ghost time: nat, now: nat) returns (blocked: bool)
    requires d.Valid() && time == d.base + d.lastTime && d.InTime(now)
    modifies d
    ensures d.Valid() && now == d.base + d.lastTime
            && AllAdvanced(old(d.timers), d.timers, old(d.records), d.records, now)
    ensures CalledAt(old(d.log), d.log, now)
    ensures NoneEarly(old(d.timers), old(d.records), time) ==> NoneEarly(d.timers, d.records, now)
    ensures blocked && NoneEarly(d.timers, d.records, now) ==> AllOnTime(d.timers, d.records, now)
  {
    var wait, forever;
    blocked, wait, forever := d.ProcessOrBlock(now % WRAP, now);
    if NoneEarly(old(d.timers), old(d.records), time) {
      NoneEarlyLater(old(d.timers), d.timers, old(d.records), d.records, time, now);
    }
    if blocked && NoneEarly(d.timers, d.records, now) { BlockedIsOnTime(d.timers, d.records, now); }
  }

  method Obey(d: Daemon, id: nat, c: Command, ghost sent: nat, ghost time: nat, now: nat)
    requires d.Valid() && time == d.base + d.lastTime && d.InTime(now) && id in d.timers
    requires sent <= now < sent + WRAP && (c.Start? ==> c.value == sent % WRAP) && (c.ChangePeriod? ==> 0 < c.period)
    modifies d
    ensures d.Valid() && now == d.base + d.lastTime
            && OthersAdvanced(old(d.timers), d.timers, old(d.records), d.records, id, now)
    ensures Obeyed(id, c, old(d.timers), d.timers, d.records, sent, now)
    ensures CalledAt(old(d.log), d.log, now)
    ensures NoneEarly(old(d.timers), old(d.records), time) ==> NoneEarly(d.timers, d.records, now)
  {
    d.Execute(id, c, now % WRAP, sent, now);
    if NoneEarly(old(d.timers), old(d.records), time) {
      NoneEarlyObeyed(old(d.timers), d.timers, old(d.records), d.records, id, time, now);
    }
  }

  method Sample(d: Daemon, ghost time: nat, now: nat)
    requires d.Valid() && time == d.base + d.lastTime && d.InTime(now)
    modifies d
    ensures d.Valid() && now == d.base + d.lastTime
            && AllAdvanced(old(d.timers), d.timers, old(d.records), d.records, now)
    ensures CalledAt(old(d.log), d.log, now)
    ensures NoneEarly(old(d.timers), old(d.records), time) ==> NoneEarly(d.timers, d.records, now)
  {
    var _ := d.SampleTimeNow(now % WRAP, now, {});
    if NoneEarly(old(d.timers), old(d.records), time) {
      NoneEarlyLater(old(d.timers), d.timers, old(d.records), d.records, time, now);
    }
  }

  lemma CallsFollow(calls: seq<nat>, calls': seq<nat>, log: seq<Call>, log': seq<Call>)
    requires log <= log' && |calls| == |log| && |calls'| == |log'|
    requires forall i :: 0 <= i < |log| ==> calls[i] == log[i].id
    requires forall i :: 0 <= i < |log'| ==> calls'[i] == log'[i].id
    ensures calls <= calls'
  {
  }
}
