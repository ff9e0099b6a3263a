/** The queue of freeRTOS/queue.c: ring storage of items, and the event lists of blocked tasks, which
    interrupts may not touch while a task has the queue locked. */
module RtosQueue {

  datatype Position = Back | Front | Overwrite

  /** `x` modulo `n`, for one turn. */
  function Wrap(x: nat, n: nat): nat {
    if x >= n then x - n else x
  }

  /** The items are those behind `readFrom`, and `writeTo` is behind them. */
  ghost predicate Holds<T>(data: seq<T>, writeTo: nat, readFrom: nat, contents: seq<T>) {
    && 1 <= |data| && |contents| <= |data| && readFrom < |data|
    && writeTo == Wrap(Wrap(readFrom + 1, |data|) + |contents|, |data|)
    && forall i :: 0 <= i < |contents| ==> contents[i] == data[Wrap(Wrap(readFrom + 1, |data|) + i, |data|)]
  }

  lemma Pushed<T>(data: seq<T>, writeTo: nat, readFrom: nat, contents: seq<T>, x: T)
    requires Holds(data, writeTo, readFrom, contents) && |contents| < |data|
    ensures Holds(data[writeTo := x], Wrap(writeTo + 1, |data|), readFrom, contents + [x])
  {
    var c := contents + [x];
    forall i | 0 <= i < |c| ensures c[i] == data[writeTo := x][Wrap(Wrap(readFrom + 1, |data|) + i, |data|)] { }
  }

  lemma Unshifted<T>(data: seq<T>, writeTo: nat, readFrom: nat, contents: seq<T>, x: T)
    requires Holds(data, writeTo, readFrom, contents) && |contents| < |data|
    ensures Holds(data[readFrom := x], writeTo, if readFrom == 0 then |data| - 1 else readFrom - 1, [x] + contents)
  {
    var c, r := [x] + contents, if readFrom == 0 then |data| - 1 else readFrom - 1;
    forall i | 0 <= i < |c| ensures c[i] == data[readFrom := x][Wrap(Wrap(r + 1, |data|) + i, |data|)] {
      if i > 0 { assert c[i] == contents[i - 1]; }
    }
  }

  lemma Shifted<T>(data: seq<T>, writeTo: nat, readFrom: nat, contents: seq<T>)
    requires Holds(data, writeTo, readFrom, contents) && 0 < |contents|
    ensures Holds(data, writeTo, Wrap(readFrom + 1, |data|), contents[1..])
    ensures contents[0] == data[Wrap(readFrom + 1, |data|)]
  {
    var c, r := contents[1..], Wrap(readFrom + 1, |data|);
    forall i | 0 <= i < |c| ensures c[i] == data[Wrap(Wrap(r + 1, |data|) + i, |data|)] {
      assert c[i] == contents[i + 1];
    }
  }

  /** Tasks that wait, and tasks that were taken off the list but have not yet tried again. */
  ghost predicate Tasks(waiting: seq<nat>, woken: set<nat>, n: nat) {
    && (forall i :: 0 <= i < |waiting| ==> waiting[i] < n && waiting[i] !in woken)
    && (forall i, j :: 0 <= i < j < |waiting| ==> waiting[i] != waiting[j])
  }

  /** No wakeup is lost: while a task waits, or has found that it has to, every item (or free place)
      is matched by a task that was woken or by a count of the lock, unless that count is at its cap. */
  ghost predicate Matched(waiting: seq<nat>, placing: bool, woken: set<nat>, items: nat, lock: int, n: nat) {
    waiting != [] || placing ==> items <= |woken| + (if lock > 0 then lock else 0) || lock >= n
  }

  /** With the queue unlocked, a task is woken for one more item. */
  lemma MatchedWoken(waiting: seq<nat>, woken: set<nat>, items: nat, waiting': seq<nat>, woken': set<nat>, items': nat,
                     n: nat)
    requires Matched(waiting, false, woken, items, -1, n) && items' <= items + 1
    requires if waiting == [] then waiting' == [] else |woken'| == |woken| + 1
    ensures Matched(waiting', false, woken', items', -1, n)
  {
  }

  lemma MatchedLess(waiting: seq<nat>, placing: bool, woken: set<nat>, items: nat, items': nat, lock: int, n: nat)
    requires Matched(waiting, placing, woken, items, lock, n) && items' <= items
    ensures Matched(waiting, placing, woken, items', lock, n)
  {
  }

  /** Only tasks that waited were woken. */
  ghost predicate OnlyWaiters(woken: set<nat>, waiting: seq<nat>, woken': set<nat>) {
    forall t :: t in woken' ==> t in woken || t in waiting
  }

  lemma {:induction false} FewTasks(waiting: seq<nat>, n: nat)
    requires forall i :: 0 <= i < |waiting| ==> waiting[i] < n
    requires forall i, j :: 0 <= i < j < |waiting| ==> waiting[i] != waiting[j]
    ensures |waiting| <= n
  {
    var s := set t | t in waiting;
    SizeOf(waiting, s);
    Range(s, n);
  }

  lemma PlacedTasks(w: seq<nat>, woken: set<nat>, n: nat, t: nat, at: nat)
    requires Tasks(w, woken, n) && t < n && t !in w && t !in woken && at <= |w|
    ensures Tasks(w[..at] + [t] + w[at..], woken, n)
  {
    var v := w[..at] + [t] + w[at..];
    forall i | 0 <= i < |v| ensures v[i] == if i < at then w[i] else if i == at then t else w[i - 1] { }
  }

  lemma {:induction false} SizeOf(w: seq<nat>, s: set<nat>)
    requires s == set t | t in w
    requires forall i, j :: 0 <= i < j < |w| ==> w[i] != w[j]
    ensures |s| == |w|
  {
    if w != [] {
      var last := w[|w| - 1];
      var v := w[..|w| - 1];
      assert w == v + [last] && last !in v;
      SizeOf(v, s - {last});
    }
  }

  lemma {:induction false} Range(s: set<nat>, n: nat)
    requires forall t :: t in s ==> t < n
    ensures |s| <= n
  {
    if n == 0 {
      assert s == {};
    } else {
      Range(s - {n - 1}, n - 1);
    }
  }

  /** What sending makes of the contents. */
  function Placed<T>(contents: seq<T>, x: T, pos: Position): seq<T> {
    match pos
    case Back => contents + [x]
    case Front => [x] + contents
    case Overwrite => [x]
  }

  class Queue<T(0)> {
    const data: array<T>
    const numTasks: nat             // uxTaskGetNumberOfTasks
    var writeTo: nat                // pcWriteTo, in items
    var readFrom: nat               // pcReadFrom: the item before the next to be read
    var messages: nat               // uxMessagesWaiting
    var txLock: int                 // -1: unlocked
    var rxLock: int
    var receivers: seq<nat>         // xTasksWaitingToReceive, by priority
    var senders: seq<nat>           // xTasksWaitingToSend, by priority

    ghost var contents: seq<T>
    ghost var wokenReceivers: set<nat>
    ghost var wokenSenders: set<nat>
    ghost var placingReceiver: bool // a task has found the locked queue empty and is about to wait
    ghost var placingSender: bool

    ghost predicate Ring()
      reads `writeTo, `readFrom, `messages, `contents, data
    {
      Holds(data[..], writeTo, readFrom, contents) && messages == |contents|
    }

    ghost predicate Waits()
      reads `txLock, `rxLock, `receivers, `senders, `contents, `wokenReceivers, `wokenSenders, `placingReceiver,
            `placingSender
    {
      && Tasks(receivers, wokenReceivers, numTasks) && Tasks(senders, wokenSenders, numTasks)
      && -1 <= txLock <= numTasks <= 127 && -1 <= rxLock <= numTasks
      && (placingReceiver ==> txLock >= 0) && (placingSender ==> rxLock >= 0)
      && Matched(receivers, placingReceiver, wokenReceivers, |contents|, txLock, numTasks)
      && |contents| <= data.Length
      && Matched(senders, placingSender, wokenSenders, data.Length - |contents|, rxLock, numTasks)
    }

    ghost predicate Valid()
      reads this, data
    {
      Ring() && Waits()
    }

    constructor (length: nat, numTasks: nat)
      requires 1 <= length && numTasks <= 127
      ensures Valid() && fresh(data) && contents == [] && txLock == -1 && rxLock == -1
    {
      data := new T[length];
      this.numTasks := numTasks;
      writeTo, readFrom, messages, txLock, rxLock := 0, length - 1, 0, -1, -1;
      receivers, senders := [], [];
      contents, wokenReceivers, wokenSenders, placingReceiver, placingSender := [], {}, {}, false, false;
    }

    /** prvCopyDataToQueue */
    method CopyToQueue(x: T, pos: Position)
      requires Ring() && (messages < data.Length || (pos.Overwrite? && data.Length == 1))
      requires pos.Overwrite? ==> data.Length == 1
      modifies `writeTo, `readFrom, `messages, `contents, data
      ensures Ring()
      ensures contents == Placed(old(contents), x, pos)
    {
      var n := messages;
      if pos.Back? {
        StoreBehind(x);
      } else {
        StoreBefore(x, pos);
        if pos.Overwrite? {
          if n > 0 { n := n - 1; }
        }
      }
      messages := n + 1;
    }

    /** At pcWriteTo */
    method StoreBehind(x: T)
      requires Ring() && messages < data.Length
      modifies `writeTo, `contents, data
      ensures Holds(data[..], writeTo, readFrom, contents) && contents == old(contents) + [x]
    {
      Pushed(data[..], writeTo, readFrom, contents, x);
      data[writeTo] := x;
      assert data[..] == old(data[..])[writeTo := x];
      writeTo := writeTo + 1;
      if writeTo >= data.Length { writeTo := 0; }
      contents := contents + [x];
    }

    /** At pcReadFrom, which moves back */
    method StoreBefore(x: T, pos: Position)
      requires Ring() && !pos.Back? && (messages < data.Length || pos.Overwrite?)
               && (pos.Overwrite? ==> data.Length == 1)
      modifies `readFrom, `contents, data
      ensures Holds(data[..], writeTo, readFrom, contents) && contents == Placed(old(contents), x, pos)
    {
      if |contents| < data.Length { Unshifted(data[..], writeTo, readFrom, contents, x); }
      data[readFrom] := x;
      assert data[..] == old(data[..])[readFrom := x];
      if readFrom == 0 { readFrom := data.Length - 1; } else { readFrom := readFrom - 1; }
      contents := if pos.Overwrite? then [x] else [x] + contents;
    }

    /** prvCopyDataFromQueue */
    method CopyFromQueue() returns (x: T)
      requires Ring() && messages > 0
      modifies `readFrom
      ensures x == contents[0] && readFrom == Wrap(old(readFrom) + 1, data.Length)
    {
      readFrom := readFrom + 1;
      if readFrom >= data.Length { readFrom := 0; }
      x := data[readFrom];
    }

    /** The item stays: the read position is put back. */
    method PeekItem() returns (x: T)
      requires Ring() && messages > 0
      modifies `readFrom
      ensures Ring() && x == contents[0]
    {
      var original := readFrom;
      Shifted(data[..], writeTo, readFrom, contents);
      x := CopyFromQueue();
      readFrom := original;
    }

    /** The item is taken out: the count follows prvCopyDataFromQueue. */
    method TakeItem() returns (x: T)
      requires Ring() && messages > 0
      modifies `readFrom, `messages, `contents
      ensures Ring() && old(contents) == [x] + contents
    {
      Shifted(data[..], writeTo, readFrom, contents);
      x := CopyFromQueue();
      messages := messages - 1;
      contents := contents[1..];
    }

    // ----- event lists

    /** xTaskRemoveFromEventList on the waiting receivers, if there are any. */
    method WakeReceiver()
      requires Tasks(receivers, wokenReceivers, numTasks)
      modifies `receivers, `wokenReceivers
      ensures Tasks(receivers, wokenReceivers, numTasks)
      ensures if old(receivers) == [] then receivers == [] && wokenReceivers == old(wokenReceivers)
              else receivers == old(receivers)[1..] && wokenReceivers == old(wokenReceivers) + {old(receivers)[0]}
                   && |wokenReceivers| == |old(wokenReceivers)| + 1
    {
      if receivers != [] {
        wokenReceivers := wokenReceivers + {receivers[0]};
        receivers := receivers[1..];
      }
    }

    method WakeSender()
      requires Tasks(senders, wokenSenders, numTasks)
      modifies `senders, `wokenSenders
      ensures Tasks(senders, wokenSenders, numTasks)
      ensures if old(senders) == [] then senders == [] && wokenSenders == old(wokenSenders)
              else senders == old(senders)[1..] && wokenSenders == old(wokenSenders) + {old(senders)[0]}
                   && |wokenSenders| == |old(wokenSenders)| + 1
    {
      if senders != [] {
        wokenSenders := wokenSenders + {senders[0]};
        senders := senders[1..];
      }
    }

    /** A pass of xQueueGenericSend by task `t`: with room, or when overwriting, the item goes in. */
    method Send(t: nat, x: T, pos: Position) returns (sent: bool)
      requires Valid() && txLock == -1 && rxLock == -1 && !placingReceiver && !placingSender && t < numTasks
      requires pos.Overwrite? ==> data.Length == 1
      requires t !in receivers && t !in senders
      modifies this, data
      ensures Valid() && txLock == -1 && rxLock == -1
      ensures sent <==> |old(contents)| < data.Length || pos.Overwrite?
      ensures !sent ==> contents == old(contents)
      ensures sent && pos.Back? ==> contents == old(contents) + [x]
      ensures sent && pos.Front? ==> contents == [x] + old(contents)
      ensures sent && pos.Overwrite? ==> contents == [x]
      ensures receivers == if sent && old(receivers) != [] then old(receivers)[1..] else old(receivers)
      ensures t !in wokenSenders && senders == old(senders) && wokenSenders <= old(wokenSenders)
      ensures OnlyWaiters(old(wokenReceivers), old(receivers), wokenReceivers)
    {
      sent := messages < data.Length || pos.Overwrite?;
      if sent {
        Post(t, x, pos);
      } else {
        wokenSenders := wokenSenders - {t};
      }
    }

    /** Task `t`, which may have been woken, puts an item in and wakes a receiver. */
    method Post(t: nat, x: T, pos: Position)
      requires Valid() && txLock == -1 && !placingReceiver && !placingSender
               && (messages < data.Length || pos.Overwrite?)
      requires (pos.Overwrite? ==> data.Length == 1) && t !in senders
      modifies `writeTo, `readFrom, `messages, `contents, `receivers, `wokenReceivers, `wokenSenders, data
      ensures Valid() && t !in wokenSenders && wokenSenders <= old(wokenSenders)
      ensures OnlyWaiters(old(wokenReceivers), old(receivers), wokenReceivers)
      ensures contents == Placed(old(contents), x, pos)
      ensures receivers == if old(receivers) != [] then old(receivers)[1..] else []
    {
      Removed(wokenSenders, t);
      wokenSenders := wokenSenders - {t};
      CopyToQueue(x, pos);
      WakeReceiver();
    }

    /** Task `t`, which may have been woken, looks at the first item and wakes the next receiver. */
    method Peek(t: nat) returns (x: T)
      requires Valid() && txLock == -1 && messages > 0 && !placingReceiver && t !in receivers
      modifies `readFrom, `receivers, `wokenReceivers
      ensures Valid() && x == contents[0] && t !in wokenReceivers
      ensures OnlyWaiters(old(wokenReceivers), old(receivers), wokenReceivers)
      ensures receivers == if old(receivers) != [] then old(receivers)[1..] else []
    {
      Removed(wokenReceivers, t);
      wokenReceivers := wokenReceivers - {t};
      x := PeekItem();
      WakeReceiver();
    }

    /** Task `t`, which may have been woken, takes the first item and wakes a sender. */
    method Take(t: nat) returns (x: T)
      requires Valid() && txLock == -1 && rxLock == -1 && messages > 0 && !placingReceiver && !placingSender
      modifies `readFrom, `messages, `contents, `wokenReceivers, `senders, `wokenSenders
      ensures Valid() && old(contents) == [x] + contents && t !in wokenReceivers
              && wokenReceivers <= old(wokenReceivers)
      ensures OnlyWaiters(old(wokenSenders), old(senders), wokenSenders)
      ensures senders == if old(senders) != [] then old(senders)[1..] else []
    {
      Removed(wokenReceivers, t);
      wokenReceivers := wokenReceivers - {t};
      x := TakeItem();
      WakeSender();
    }

    /** A pass of xQueueReceive or xQueuePeek by task `t`. */
    method Receive(t: nat, peek: bool) returns (got: bool, x: T)
      requires Valid() && txLock == -1 && rxLock == -1 && !placingReceiver && !placingSender && t < numTasks
      requires t !in receivers && t !in senders
      modifies this
      ensures Valid() && txLock == -1 && rxLock == -1
      ensures got <==> old(contents) != []
      ensures got ==> x == old(contents)[0]
      ensures contents == if got && !peek then old(contents)[1..] else old(contents)
      ensures receivers == if got && peek && old(receivers) != [] then old(receivers)[1..] else old(receivers)
      ensures senders == if got && !peek && old(senders) != [] then old(senders)[1..] else old(senders)
      ensures t !in wokenReceivers
      ensures OnlyWaiters(old(wokenReceivers), old(receivers), wokenReceivers)
      ensures OnlyWaiters(old(wokenSenders), old(senders), wokenSenders)
    {
      got := messages > 0;
      if !got {
        wokenReceivers := wokenReceivers - {t};
        x := data[0];
      } else if peek {
        x := Peek(t);
      } else {
        x := Take(t);
      }
    }

    // ----- interrupts

    /** prvIncrementQueueTxLock and prvIncrementQueueRxLock: the count stops at the number of tasks. */
    method Increment(lock: int) returns (l: int)
      requires 0 <= lock <= numTasks <= 127
      ensures l == if lock < numTasks then lock + 1 else lock
    {
      l := lock;
      if lock < numTasks {
        assert lock != 127;
        l := lock + 1;
      }
    }

    /** xQueueGenericSendFromISR, at any time */
    method SendFromIsr(x: T, pos: Position) returns (sent: bool)
      requires Valid() && (pos.Overwrite? ==> data.Length == 1)
      modifies `writeTo, `readFrom, `messages, `contents, `receivers, `wokenReceivers, `txLock, data
      ensures Valid()
      ensures sent <==> |old(contents)| < data.Length || pos.Overwrite?
      ensures !sent ==> contents == old(contents)
      ensures sent && pos.Back? ==> contents == old(contents) + [x]
      ensures sent && pos.Front? ==> contents == [x] + old(contents)
      ensures sent && pos.Overwrite? ==> contents == [x]
      ensures if !sent then txLock == old(txLock) && receivers == old(receivers)
              else if old(txLock) == -1 then txLock == -1
                   && receivers == (if old(receivers) == [] then [] else old(receivers)[1..])
              else txLock == (if old(txLock) < numTasks then old(txLock) + 1 else old(txLock))
                   && receivers == old(receivers)
      ensures OnlyWaiters(old(wokenReceivers), old(receivers), wokenReceivers)
    {
      sent := messages < data.Length || pos.Overwrite?;
      if sent {
        if txLock == -1 { PostAndWake(x, pos); } else { PostLocked(x, pos); }
      }
    }

    method PostAndWake(x: T, pos: Position)
      requires Valid() && txLock == -1 && (messages < data.Length || pos.Overwrite?)
               && (pos.Overwrite? ==> data.Length == 1)
      modifies `writeTo, `readFrom, `messages, `contents, `receivers, `wokenReceivers, data
      ensures Valid() && contents == Placed(old(contents), x, pos)
      ensures receivers == if old(receivers) == [] then [] else old(receivers)[1..]
      ensures OnlyWaiters(old(wokenReceivers), old(receivers), wokenReceivers)
    {
      ghost var n := |contents|;
      CopyToQueue(x, pos);
      MatchedLess(senders, placingSender, wokenSenders, data.Length - n, data.Length - |contents|, rxLock, numTasks);
      WakeReceiver();
      MatchedWoken(old(receivers), old(wokenReceivers), n, receivers, wokenReceivers, |contents|, numTasks);
    }

    method PostLocked(x: T, pos: Position)
      requires Valid() && txLock >= 0 && (messages < data.Length || pos.Overwrite?)
               && (pos.Overwrite? ==> data.Length == 1)
      modifies `writeTo, `readFrom, `messages, `contents, `txLock, data
      ensures Valid() && contents == Placed(old(contents), x, pos)
      ensures txLock == if old(txLock) < numTasks then old(txLock) + 1 else old(txLock)
    {
      CopyToQueue(x, pos);
      txLock := Increment(txLock);
    }

    /** xQueueReceiveFromISR, at any time */
    method ReceiveFromIsr() returns (got: bool, x: T)
      requires Valid()
      modifies `readFrom, `messages, `contents, `senders, `wokenSenders, `rxLock
      ensures Valid()
      ensures got <==> old(contents) != []
      ensures if got then old(contents) == [x] + contents else contents == []
      ensures if !got then rxLock == old(rxLock) && senders == old(senders)
              else if old(rxLock) == -1 then rxLock == -1
                   && senders == (if old(senders) == [] then [] else old(senders)[1..])
              else rxLock == (if old(rxLock) < numTasks then old(rxLock) + 1 else old(rxLock))
                   && senders == old(senders)
      ensures OnlyWaiters(old(wokenSenders), old(senders), wokenSenders)
    {
      got := messages > 0;
      if got {
        x := TakeItem();
        if rxLock == -1 {
          WakeSender();
        } else {
          rxLock := Increment(rxLock);
        }
      } else {
        x := data[0];
      }
    }

    // ----- blocking, with the scheduler suspended and the queue locked

    /** prvLockQueue */
    method Lock()
      requires Valid()
      modifies `txLock, `rxLock
      ensures Valid() && txLock == (if old(txLock) == -1 then 0 else old(txLock))
      ensures rxLock == if old(rxLock) == -1 then 0 else old(rxLock)
    {
      if rxLock == -1 { rxLock := 0; }
      if txLock == -1 { txLock := 0; }
    }

    /** prvIsQueueEmpty, by a task that is going to wait if it is */
    method IsEmpty() returns (empty: bool)
      requires Valid() && txLock >= 0
      modifies `placingReceiver
      ensures Valid() && (empty <==> contents == []) && placingReceiver == empty
    {
      empty := messages == 0;
      placingReceiver := empty;
    }

    /** prvIsQueueFull, by a task that is going to wait if it is */
    method IsFull() returns (full: bool)
      requires Valid() && rxLock >= 0
      modifies `placingSender
      ensures Valid() && (full <==> |contents| == data.Length) && placingSender == full
    {
      full := messages == data.Length;
      placingSender := full;
    }

    /** vTaskPlaceOnEventList on the receivers, at the place that the priority of `t` gives.  The
        queue need not be empty any more: interrupts may have posted since. */
    method PlaceReceiver(t: nat, at: nat)
      requires Valid() && txLock >= 0 && placingReceiver && at <= |receivers|
      requires t < numTasks && t !in receivers && t !in wokenReceivers
      modifies `receivers, `placingReceiver
      ensures Valid() && !placingReceiver && receivers == old(receivers)[..at] + [t] + old(receivers)[at..]
    {
      PlacedTasks(receivers, wokenReceivers, numTasks, t, at);
      receivers := receivers[..at] + [t] + receivers[at..];
      placingReceiver := false;
    }

    method PlaceSender(t: nat, at: nat)
      requires Valid() && rxLock >= 0 && placingSender && at <= |senders|
      requires t < numTasks && t !in senders && t !in wokenSenders
      modifies `senders, `placingSender
      ensures Valid() && !placingSender && senders == old(senders)[..at] + [t] + old(senders)[at..]
    {
      PlacedTasks(senders, wokenSenders, numTasks, t, at);
      senders := senders[..at] + [t] + senders[at..];
      placingSender := false;
    }

    /** The first half of prvUnlockQueue wakes exactly as many receivers as items were posted while
        the queue was locked, or all of them. */
    method UnlockTx()
      requires Valid() && txLock >= 0 && !placingReceiver
      modifies `txLock, `receivers, `wokenReceivers
      ensures Valid() && txLock == -1
      ensures var k := if old(txLock) < |old(receivers)| then old(txLock) else |old(receivers)|;
              receivers == old(receivers)[k..] && forall i :: 0 <= i < k ==> old(receivers)[i] in wokenReceivers
      ensures old(wokenReceivers) <= wokenReceivers
      ensures OnlyWaiters(old(wokenReceivers), old(receivers), wokenReceivers)
      ensures receivers != [] ==> |contents| <= |wokenReceivers|
    {
      var lock := txLock;
      ghost var k := 0;
      FewTasks(receivers, numTasks);
      while lock > 0
        invariant txLock == old(txLock) && 0 <= lock && k == txLock - lock && k <= |old(receivers)|
                  && receivers == old(receivers)[k..]
        invariant Tasks(receivers, wokenReceivers, numTasks) && |wokenReceivers| == |old(wokenReceivers)| + k
        invariant forall i :: 0 <= i < k ==> old(receivers)[i] in wokenReceivers
        invariant old(wokenReceivers) <= wokenReceivers
                  && OnlyWaiters(old(wokenReceivers), old(receivers), wokenReceivers)
        decreases lock
      {
        if receivers == [] { break; }
        WakeReceiver();
        lock, k := lock - 1, k + 1;
      }
      txLock := -1;
    }

    /** The second half, for the senders. */
    method UnlockRx()
      requires Valid() && rxLock >= 0 && !placingSender
      modifies `rxLock, `senders, `wokenSenders
      ensures Valid() && rxLock == -1
      ensures var k := if old(rxLock) < |old(senders)| then old(rxLock) else |old(senders)|;
              senders == old(senders)[k..] && forall i :: 0 <= i < k ==> old(senders)[i] in wokenSenders
      ensures old(wokenSenders) <= wokenSenders
      ensures OnlyWaiters(old(wokenSenders), old(senders), wokenSenders)
      ensures senders != [] ==> data.Length - |contents| <= |wokenSenders|
    {
      var lock := rxLock;
      ghost var k := 0;
      FewTasks(senders, numTasks);
      while lock > 0
        invariant rxLock == old(rxLock) && 0 <= lock && k == rxLock - lock && k <= |old(senders)|
                  && senders == old(senders)[k..]
        invariant Tasks(senders, wokenSenders, numTasks) && |wokenSenders| == |old(wokenSenders)| + k
        invariant forall i :: 0 <= i < k ==> old(senders)[i] in wokenSenders
        invariant old(wokenSenders) <= wokenSenders && OnlyWaiters(old(wokenSenders), old(senders), wokenSenders)
        decreases lock
      {
        if senders == [] { break; }
        WakeSender();
        lock, k := lock - 1, k + 1;
      }
      rxLock := -1;
    }

    /** The tick ends the wait of receiver number `i`. */
    method TimeOutReceiver(i: nat)
      requires Valid() && i < |receivers|
      modifies `receivers
      ensures Valid() && receivers == old(receivers)[..i] + old(receivers)[i + 1..]
    {
      receivers := receivers[..i] + receivers[i + 1..];
    }

    method TimeOutSender(i: nat)
      requires Valid() && i < |senders|
      modifies `senders
      ensures Valid() && senders == old(senders)[..i] + old(senders)[i + 1..]
    {
      senders := senders[..i] + senders[i + 1..];
    }

    /** With nobody woken and yet to try, a task waits only on an empty queue, or on a full one. */
    lemma NoLostWakeup()
      requires Valid() && txLock == -1 && rxLock == -1
      ensures receivers != [] && wokenReceivers == {} ==> contents == []
      ensures senders != [] && wokenSenders == {} ==> |contents| == data.Length
    {
      FewTasks(receivers, numTasks);
      FewTasks(senders, numTasks);
    }

    lemma Removed(s: set<nat>, t: nat)
      ensures |s - {t}| >= |s| - 1 && |s - {t}| <= |s|
    {
      if t in s { assert s == s - {t} + {t}; } else { assert s - {t} == s; }
    }
  }
}
