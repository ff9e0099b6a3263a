/** Event groups of freeRTOS/event_groups.c: bits, and tasks that wait for some or all of several bits. */
module EventGroup {

  /** A word of event bits, as the set of the numbers of its bits. */
  type Bits = set<nat>

  const CLEAR_ON_EXIT: nat := 24      // eventCLEAR_EVENTS_ON_EXIT_BIT
  const UNBLOCKED: nat := 25          // eventUNBLOCKED_DUE_TO_BIT_SET
  const WAIT_FOR_ALL: nat := 26       // eventWAIT_FOR_ALL_BITS

  /** eventEVENT_BITS_CONTROL_BYTES */
  const CONTROL: Bits := {24, 25, 26, 27, 28, 29, 30, 31}

  /** A blocked task and the value of its event list item: the bits it waits for and control bits. */
  datatype Waiter = Waiter(task: nat, value: Bits)
  {
    function Wanted(): Bits { value - CONTROL }
    predicate All() { WAIT_FOR_ALL in value }
    predicate Clears() { CLEAR_ON_EXIT in value }
  }

  /** A task taken off the list, and the value it finds in its item. */
  datatype Release = Release(task: nat, value: Bits)

  /** The wait condition. */
  predicate Met(bits: Bits, wanted: Bits, all: bool) {
    if all then wanted <= bits else bits * wanted != {}
  }

  predicate Satisfied(bits: Bits, w: Waiter) {
    Met(bits, w.Wanted(), w.All())
  }

  /** Clearing bits meets no condition. */
  lemma ClearingMeetsNothing(bits: Bits, cleared: Bits, wanted: Bits, all: bool)
    requires !Met(bits, wanted, all)
    ensures !Met(bits - cleared, wanted, all)
  {
  }

  /** What vTaskPlaceOnUnorderedEventList is given for a task. */
  function ItemValue(wanted: Bits, clear: bool, all: bool): Bits {
    wanted + (if clear then {CLEAR_ON_EXIT} else {}) + (if all then {WAIT_FOR_ALL} else {})
  }

  lemma ControlKept(wanted: Bits, clear: bool, all: bool)
    requires wanted !! CONTROL
    ensures var v := ItemValue(wanted, clear, all);
            v - CONTROL == wanted && (26 in v <==> all) && (24 in v <==> clear)
    ensures forall b :: b in CONTROL <==> 24 <= b < 32
  {
    assert WAIT_FOR_ALL in CONTROL && CLEAR_ON_EXIT in CONTROL;
  }

  // ----- what setting bits does to the waiting tasks

  ghost function KeptOf(w: Waiter, bits: Bits): seq<Waiter> {
    if Satisfied(bits, w) then [] else [w]
  }

  ghost function ReleaseOf(w: Waiter, bits: Bits): seq<Release> {
    if Satisfied(bits, w) then [Release(w.task, bits + {UNBLOCKED})] else []
  }

  ghost function ClearOf(w: Waiter, bits: Bits): Bits {
    if Satisfied(bits, w) && w.Clears() then w.Wanted() else {}
  }

  /** Those that go on waiting. */
  ghost function Kept(ws: seq<Waiter>, bits: Bits): seq<Waiter> {
    if ws == [] then [] else KeptOf(ws[0], bits) + Kept(ws[1..], bits)
  }

  /** Those that are released, each with the same value. */
  ghost function Released(ws: seq<Waiter>, bits: Bits): seq<Release> {
    if ws == [] then [] else ReleaseOf(ws[0], bits) + Released(ws[1..], bits)
  }

  /** The bits that they want cleared. */
  ghost function Cleared(ws: seq<Waiter>, bits: Bits): Bits {
    if ws == [] then {} else ClearOf(ws[0], bits) + Cleared(ws[1..], bits)
  }

  lemma {:induction false} KeptMembers(ws: seq<Waiter>, bits: Bits, w: Waiter)
    ensures w in Kept(ws, bits) <==> w in ws && !Satisfied(bits, w)
  {
    if ws != [] { KeptMembers(ws[1..], bits, w); }
  }

  /** A task is released if and only if its condition is met by the bits set so far. */
  lemma {:induction false} ReleasedMembers(ws: seq<Waiter>, bits: Bits, r: Release)
    ensures r in Released(ws, bits) <==>
            r.value == bits + {UNBLOCKED} && exists w :: w in ws && w.task == r.task && Satisfied(bits, w)
  {
    if ws != [] {
      ReleasedMembers(ws[1..], bits, r);
      assert ws == [ws[0]] + ws[1..];
    }
  }

  lemma {:induction false} KeptAppend(ws: seq<Waiter>, w: Waiter, bits: Bits)
    ensures Kept(ws + [w], bits) == Kept(ws, bits) + KeptOf(w, bits)
  {
    if ws == [] {
      assert [w][1..] == [] && ws + [w] == [w];
    } else {
      assert (ws + [w])[1..] == ws[1..] + [w];
      KeptAppend(ws[1..], w, bits);
    }
  }

  lemma {:induction false} ReleasedAppend(ws: seq<Waiter>, w: Waiter, bits: Bits)
    ensures Released(ws + [w], bits) == Released(ws, bits) + ReleaseOf(w, bits)
  {
    if ws == [] {
      assert [w][1..] == [] && ws + [w] == [w];
    } else {
      assert (ws + [w])[1..] == ws[1..] + [w];
      ReleasedAppend(ws[1..], w, bits);
    }
  }

  lemma {:induction false} ClearedAppend(ws: seq<Waiter>, w: Waiter, bits: Bits)
    ensures Cleared(ws + [w], bits) == Cleared(ws, bits) + ClearOf(w, bits)
  {
    if ws == [] {
      assert [w][1..] == [] && ws + [w] == [w];
    } else {
      assert (ws + [w])[1..] == ws[1..] + [w];
      ClearedAppend(ws[1..], w, bits);
    }
  }

  /** One step along the list, of which `k` tasks have been looked at. */
  lemma Step(ws: seq<Waiter>, k: nat, bits: Bits, waiting: seq<Waiter>, i: nat)
    requires k < |ws| && waiting == Kept(ws[..k], bits) + ws[k..] && i == |Kept(ws[..k], bits)|
    ensures i < |waiting| && waiting[i] == ws[k]
    ensures Released(ws[..k + 1], bits) == Released(ws[..k], bits) + ReleaseOf(ws[k], bits)
    ensures Cleared(ws[..k + 1], bits) == Cleared(ws[..k], bits) + ClearOf(ws[k], bits)
    ensures if Satisfied(bits, ws[k])
            then waiting[..i] + waiting[i + 1..] == Kept(ws[..k + 1], bits) + ws[k + 1..]
                 && i == |Kept(ws[..k + 1], bits)|
            else waiting == Kept(ws[..k + 1], bits) + ws[k + 1..] && i + 1 == |Kept(ws[..k + 1], bits)|
  {
    assert ws[..k + 1] == ws[..k] + [ws[k]];
    assert ws[k..] == [ws[k]] + ws[k + 1..];
    KeptAppend(ws[..k], ws[k], bits);
    ReleasedAppend(ws[..k], ws[k], bits);
    ClearedAppend(ws[..k], ws[k], bits);
    Along(Kept(ws[..k], bits), ws[k], ws[k + 1..], waiting, i);
  }

  lemma Along(kept: seq<Waiter>, w: Waiter, rest: seq<Waiter>, waiting: seq<Waiter>, i: nat)
    requires waiting == kept + ([w] + rest) && i == |kept|
    ensures waiting[i] == w && waiting[..i] + waiting[i + 1..] == kept + [] + rest && waiting == kept + [w] + rest
  {
  }

  lemma KeptUnsatisfied(ws: seq<Waiter>, bits: Bits, clear: Bits)
    ensures forall w :: w in Kept(ws, bits) ==> !Satisfied(bits - clear, w)
  {
    forall w | w in Kept(ws, bits) ensures !Satisfied(bits - clear, w) {
      KeptMembers(ws, bits, w);
      ClearingMeetsNothing(bits, clear, w.Wanted(), w.All());
    }
  }

  /** The bits that are cleared are those that a released task asked to have cleared. */
  lemma {:induction false} ClearedMembers(ws: seq<Waiter>, bits: Bits, b: nat)
    ensures b in Cleared(ws, bits) <==>
            exists w :: w in ws && Satisfied(bits, w) && CLEAR_ON_EXIT in w.value && b in w.value - CONTROL
  {
    if ws != [] {
      ClearedMembers(ws[1..], bits, b);
      assert ws == [ws[0]] + ws[1..];
    }
  }

  /** What setting bits does, task by task and bit by bit, in terms of the bits of the tasks' items: a task without
      bit 26 waits for any of its bits, one with it for all, and one with bit 24 has its bits cleared. */
  lemma SettingMeans(ws: seq<Waiter>, now: Bits, waiting: seq<Waiter>, rel: seq<Release>, bits: Bits)
    requires waiting == Kept(ws, now) && rel == Released(ws, now) && bits == now - Cleared(ws, now)
    ensures forall w :: w in waiting ==> w in ws
    ensures forall w :: w in ws && 26 !in w.value ==> (w in waiting <==> now * (w.value - CONTROL) == {})
    ensures forall w :: w in ws && 26 in w.value ==> (w in waiting <==> !(w.value - CONTROL <= now))
    ensures forall w :: w in ws && w !in waiting ==> Release(w.task, now + {25}) in rel
    ensures forall r :: r in rel ==> r.value == now + {25} && exists w :: w in ws && w !in waiting && w.task == r.task
    ensures forall b :: b in bits <==>
              b in now && !exists w :: w in ws && w !in waiting && 24 in w.value && b in w.value - CONTROL
  {
    forall w: Waiter ensures w in waiting <==> w in ws && !Satisfied(now, w) { KeptMembers(ws, now, w); }
    forall r ensures r in rel <==>
        r.value == now + {25} && exists w :: w in ws && w.task == r.task && Satisfied(now, w)
    {
      ReleasedMembers(ws, now, r);
    }
    forall b ensures b in bits <==>
        b in now && !exists w :: w in ws && Satisfied(now, w) && 24 in w.value && b in w.value - CONTROL
    {
      ClearedMembers(ws, now, b);
    }
  }

  /** The test of one waiting task in xEventGroupSetBits, and the bits it wants cleared. */
  method Examine(w: Waiter, bits: Bits) returns (found: bool, clear: Bits)
    ensures found == Satisfied(bits, w) && clear == ClearOf(w, bits)
  {
    var control := w.value * CONTROL;
    var wanted := w.value - CONTROL;
    found, clear := false, {};
    if WAIT_FOR_ALL !in control {
      if wanted * bits != {} { found := true; }
    } else if wanted * bits == wanted {
      found := true;
    }
    assert wanted * bits == bits * wanted && (wanted <= bits <==> wanted * bits == wanted);
    if found && CLEAR_ON_EXIT in control { clear := wanted; }
  }

  class Group {
    var bits: Bits
    var waiting: seq<Waiter>      // xTasksWaitingForBits
    var released: seq<Release>    // tasks moved to the ready list, in order

    /** No blocked task's condition is met. */
    ghost predicate Valid()
      reads this
    {
      && bits !! CONTROL
      && forall w :: w in waiting ==> !Satisfied(bits, w)
    }

    constructor ()
      ensures Valid() && bits == {} && waiting == []
    {
      bits, waiting, released := {}, [], [];
    }

    /** xEventGroupSetBits.  All tasks whose condition the new bits meet are released, with the same
        value; only then are the bits cleared that they asked to have cleared. */
    method SetBits(toSet: Bits)
      requires Valid() && toSet !! CONTROL
      modifies this
      ensures Valid()
      ensures var now := old(bits) + toSet;
              && waiting == Kept(old(waiting), now)
              && released == old(released) + Released(old(waiting), now)
              && bits == now - Cleared(old(waiting), now)
      // task by task: without bit 26 it waits for any of its bits, with it for all of them
      ensures forall w :: w in waiting ==> w in old(waiting)
      ensures forall w :: w in old(waiting) && 26 !in w.value ==>
                (w in waiting <==> (old(bits) + toSet) * (w.value - CONTROL) == {})
      ensures forall w :: w in old(waiting) && 26 in w.value ==>
                (w in waiting <==> !(w.value - CONTROL <= old(bits) + toSet))
      ensures forall w :: w in old(waiting) && w !in waiting ==>
                Release(w.task, old(bits) + toSet + {25}) in released[|old(released)|..]
      // bit by bit: cleared if a task that was released has bit 24 and waited for it
      ensures forall b :: b in bits <==>
                b in old(bits) + toSet
                && !exists w :: w in old(waiting) && w !in waiting && 24 in w.value && b in w.value - CONTROL
    {
      ghost var ws, before := waiting, released;
      ghost var k := 0;          // how many were looked at
      var i: nat, clear: Bits := 0, {};
      bits := bits + toSet;
      while i < |waiting|
        invariant k <= |ws| && bits == old(bits) + toSet && Looked(ws, k, i, clear, before)
        decreases |ws| - k
      {
        i, clear := Visit(i, clear, ws, k, before);
        k := k + 1;
      }
      assert ws[..k] == ws;
      KeptUnsatisfied(ws, bits, clear);
      bits := bits - clear;
      SettingMeans(ws, old(bits) + toSet, waiting, released[|before|..], bits);
    }

    /** Of the tasks `ws` that were waiting, `k` were looked at. */
    ghost predicate Looked(ws: seq<Waiter>, k: nat, i: nat, clear: Bits, before: seq<Release>)
      requires k <= |ws|
      reads `bits, `waiting, `released
    {
      && waiting == Kept(ws[..k], bits) + ws[k..] && i == |Kept(ws[..k], bits)|
      && released == before + Released(ws[..k], bits) && clear == Cleared(ws[..k], bits)
    }

    /** A pass of the loop of xEventGroupSetBits. */
    method Visit(i: nat, clear: Bits, ghost ws: seq<Waiter>, ghost k: nat, ghost before: seq<Release>)
      returns (i': nat, clear': Bits)
      requires k < |ws| && i < |waiting| && Looked(ws, k, i, clear, before)
      modifies `waiting, `released
      ensures Looked(ws, k + 1, i', clear', before)
    {
      Step(ws, k, bits, waiting, i);
      assert before + Released(ws[..k + 1], bits) == released + ReleaseOf(ws[k], bits);
      var found, mask := Examine(waiting[i], bits);
      i', clear' := i, clear + mask;
      if found { Unblock(i); } else { i' := i + 1; }
    }

    /** vTaskRemoveFromUnorderedEventList, for the `i`-th waiting task. */
    method Unblock(i: nat)
      requires i < |waiting|
      modifies `waiting, `released
      ensures waiting == old(waiting)[..i] + old(waiting)[i + 1..]
      ensures released == old(released) + [Release(old(waiting)[i].task, bits + {UNBLOCKED})]
    {
      released := released + [Release(waiting[i].task, bits + {UNBLOCKED})];
      waiting := waiting[..i] + waiting[i + 1..];
    }

    /** xEventGroupWaitBits up to the point where the task blocks, if it does. */
    method WaitBits(task: nat, wanted: Bits, clear: bool, all: bool, mayBlock: bool)
      returns (blocks: bool, result: Bits)
      requires Valid() && wanted !! CONTROL && wanted != {}
      modifies `bits, `waiting
      ensures Valid()
      ensures !all ==> (blocks <==> mayBlock && old(bits) * wanted == {})
      ensures all ==> (blocks <==> mayBlock && !(wanted <= old(bits)))
      ensures !blocks ==> result == old(bits) && waiting == old(waiting)
      ensures blocks ==> |waiting| == |old(waiting)| + 1 && waiting[..|old(waiting)|] == old(waiting)
      ensures blocks ==> var w := waiting[|old(waiting)|];
                w.task == task && w.value - CONTROL == wanted && (24 in w.value <==> clear) && (26 in w.value <==> all)
      ensures bits == if clear && (if all then wanted <= old(bits) else old(bits) * wanted != {})
                      then old(bits) - wanted else old(bits)
    {
      blocks, result := false, {};
      if Met(bits, wanted, all) {
        result := bits;
        if clear {
          Clearing(wanted);
          bits := bits - wanted;
        }
      } else if !mayBlock {
        result := bits;
      } else {
        ControlKept(wanted, clear, all);
        waiting := waiting + [Waiter(task, ItemValue(wanted, clear, all))];
        blocks := true;
      }
    }

    /** xEventGroupSync up to the point where the task blocks, if it does: the task's own bits are set
        first, and may complete the rendezvous of others. */
    method Sync(task: nat, toSet: Bits, wanted: Bits, mayBlock: bool) returns (blocks: bool, result: Bits)
      requires Valid() && toSet !! CONTROL && wanted !! CONTROL && wanted != {}
      modifies this
      ensures Valid()
      ensures var now := old(bits) + toSet;
              && released == old(released) + Released(old(waiting), now)
              && (blocks <==> !(wanted <= now) && mayBlock)
              && waiting == Kept(old(waiting), now)
                  + (if blocks then [Waiter(task, wanted + {24, 26})] else [])
              && bits == now - Cleared(old(waiting), now) - (if wanted <= now then wanted else {})
              && (wanted <= now ==> result == now)
              && (!(wanted <= now) && !blocks ==> result == bits)
    {
      var original := bits;
      SetBits(toSet);
      blocks, result := false, {};
      if (original + toSet) * wanted == wanted {
        assert wanted <= original + toSet;
        result := original + toSet;
        Clearing(wanted);
        bits := bits - wanted;
      } else {
        if mayBlock {
          ControlKept(wanted, true, true);
          assert ItemValue(wanted, true, true) == wanted + {24, 26};
          waiting := waiting + [Waiter(task, ItemValue(wanted, true, true))];
          blocks := true;
        } else {
          result := bits;
        }
      }
    }

    lemma Clearing(cleared: Bits)
      requires Valid()
      ensures forall w :: w in waiting ==> !Satisfied(bits - cleared, w)
    {
      forall w | w in waiting ensures !Satisfied(bits - cleared, w) {
        ClearingMeetsNothing(bits, cleared, w.Wanted(), w.All());
      }
    }

    /** xEventGroupClearBits */
    method ClearBits(toClear: Bits) returns (was: Bits)
      requires Valid() && toClear !! CONTROL
      modifies `bits
      ensures Valid() && was == old(bits) && bits == old(bits) - toClear
    {
      Clearing(toClear);
      was := bits;
      bits := bits - toClear;
    }

    /** The tick ends the wait of a task. */
    method TimeOut(i: nat)
      requires Valid() && i < |waiting|
      modifies `waiting
      ensures Valid() && waiting == old(waiting)[..i] + old(waiting)[i + 1..]
    {
      waiting := waiting[..i] + waiting[i + 1..];
    }

    /** A task runs again, with `value` in its item: the bits that released it, or what there is now
        after a timeout, which may meet its condition after all. */
    method Resume(value: Bits, wanted: Bits, clear: bool, all: bool) returns (result: Bits)
      requires Valid() && wanted !! CONTROL
      modifies `bits
      ensures Valid()
      ensures UNBLOCKED in value ==> result == value - CONTROL && bits == old(bits)
      ensures UNBLOCKED !in value ==>
                && result == old(bits)
                && bits == if clear && (if all then wanted <= old(bits) else old(bits) * wanted != {})
                           then old(bits) - wanted else old(bits)
    {
      result := value;
      if UNBLOCKED !in result {
        result := bits;
        if Met(result, wanted, all) && clear {
          Clearing(wanted);
          bits := bits - wanted;
        }
      }
      assert UNBLOCKED !in value ==> result - CONTROL == result;
      result := result - CONTROL;
    }
  }

  /** A task whose condition the new bits meet runs again and returns the bits that met it, also those
      that are cleared by then. */
  method SetAndResume(g: Group, toSet: Bits, w: Waiter) returns (result: Bits)
    requires g.Valid() && toSet !! CONTROL && w in g.waiting && Satisfied(g.bits + toSet, w)
    modifies g
    ensures g.Valid() && result == old(g.bits) + toSet && Satisfied(result, w)
    ensures g.bits == result - Cleared(old(g.waiting), result)
  {
    ghost var ws, now := g.waiting, g.bits + toSet;
    var before := |g.released|;
    g.SetBits(toSet);
    ReleasedMembers(ws, now, Release(w.task, now + {UNBLOCKED}));
    assert g.released[before..] == Released(ws, now);
    var r :| r in g.released[before..] && r.task == w.task;
    ReleasedValue(ws, now, r);
    assert w.Wanted() !! CONTROL;
    result := g.Resume(r.value, w.Wanted(), w.Clears(), w.All());
  }

  /** What a released task finds in its item. */
  lemma ReleasedValue(ws: seq<Waiter>, now: Bits, r: Release)
    requires now !! CONTROL && r in Released(ws, now)
    ensures UNBLOCKED in r.value && r.value - CONTROL == now
  {
    ReleasedMembers(ws, now, r);
    assert UNBLOCKED in CONTROL;
  }
}
