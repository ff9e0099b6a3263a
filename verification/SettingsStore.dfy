/** The settings of Settings/settings.cpp: two copies in memory, and files that are replaced so that a
    whole configuration survives a power cut.  Removing and renaming a file is atomic. */
module SettingsStore {

  /** A file: absent, not completely written, or a whole configuration. */
  datatype File<C> = Absent | Incomplete | Whole(config: C)

  /** What becomes of a file operation: it is done, or fails without effect, or the power is cut before it. */
  datatype Fate = Done | Fails | Cut

  datatype Outcome = Saved | Failed | PowerCut

  datatype Files<C> = Files(curr: File<C>, prev: File<C>, temp: File<C>)
  {
    /** The configuration that loading would find. */
    ghost predicate Keeps(c: C) {
      curr == Whole(c) || (curr == Absent && prev == Whole(c))
    }

    ghost predicate LoadsDefaults() {
      !curr.Whole? && !(curr.Absent? && prev.Whole?)
    }
  }

  class Settings<C(==)> {
    var files: Files<C>
    const defaults: C
    var copies: seq<C>          // settings[2]
    var active: nat
    var usedDefault: bool
    var currentAbsent: bool     // what the last load found

    ghost predicate Valid()
      reads `copies, `active
    {
      |copies| == 2 && active < 2
    }

    /** init_settings, with what is on the flash */
    constructor (files: Files<C>, defaults: C)
      ensures Valid() && active == 0 && usedDefault && currentAbsent && this.files == files && this.defaults == defaults
    {
      this.files, this.defaults := files, defaults;
      copies, active, usedDefault, currentAbsent := [defaults, defaults], 0, true, true;
    }

    /** load_settings, with working reads */
    method Load() returns (ok: bool)
      requires Valid()
      modifies `copies, `active, `usedDefault, `currentAbsent
      ensures Valid() && active != old(active)
      ensures currentAbsent <==> files.curr == Absent
      ensures ok == !usedDefault
      ensures ok <==> !files.LoadsDefaults()
      ensures if ok then files.Keeps(copies[active]) else copies[active] == defaults
      ensures copies[old(active)] == old(copies[active])
    {
      var next := 1 - active;
      currentAbsent := files.curr.Absent?;
      var file := if currentAbsent then files.prev else files.curr;
      usedDefault := !file.Whole?;
      if usedDefault {
        copies := copies[next := defaults];
      } else {
        copies := copies[next := file.config];
        assert files.Keeps(file.config);
      }
      active := next;
      ok := !usedDefault;
    }

    // ----- file operations

    /** f_unlink of the previous configuration */
    method RemovePrevious(fate: Fate) returns (ok: bool)
      modifies `files
      ensures ok <==> fate == Done
      ensures files == if ok then old(files).(prev := Absent) else old(files)
    {
      ok := fate == Done;
      if ok { files := files.(prev := Absent); }
    }

    /** f_rename, which fails if there is nothing to rename or the new name is taken */
    method RenameCurrent(fate: Fate) returns (ok: bool)
      modifies `files
      ensures ok <==> fate == Done && old(files).curr != Absent && old(files).prev == Absent
      ensures files == if ok then old(files).(curr := Absent, prev := old(files).curr) else old(files)
    {
      ok := fate == Done && files.curr != Absent && files.prev == Absent;
      if ok { files := files.(curr := Absent, prev := files.curr); }
    }

    method RenameTemp(fate: Fate) returns (ok: bool)
      modifies `files
      ensures ok <==> fate == Done && old(files).temp != Absent && old(files).curr == Absent
      ensures files == if ok then old(files).(temp := Absent, curr := old(files).temp) else old(files)
    {
      ok := fate == Done && files.temp != Absent && files.curr == Absent;
      if ok { files := files.(temp := Absent, curr := files.temp); }
    }

    /** f_open with FA_CREATE_ALWAYS, and f_write, which may write less */
    method CreateTemp(fate: Fate) returns (ok: bool)
      modifies `files
      ensures ok <==> fate == Done
      ensures files == if ok then old(files).(temp := Incomplete) else old(files)
    {
      ok := fate == Done;
      if ok { files := files.(temp := Incomplete); }
    }

    method WriteTemp(dto: C, fate: Fate) returns (ok: bool)
      modifies `files
      ensures ok <==> fate == Done
      ensures files == if ok then old(files).(temp := Whole(dto)) else old(files)
    {
      ok := fate == Done;
      if ok { files := files.(temp := Whole(dto)); }
    }

    /** save_settings; `fates` are those of its file operations. */
    method Save(dto: C, fates: seq<Fate>, ghost kept: C) returns (res: Outcome)
      requires |fates| == 6
      modifies `files
      ensures res.Saved? ==> files.curr == Whole(dto) && files.temp == Absent
      // unless the first part stops, it ends with the second one
      ensures !currentAbsent && fates[0] != Done ==>
                files == old(files) && res == if fates[0] == Cut then PowerCut else Failed
      ensures !currentAbsent && fates[0] == Done && (fates[1] != Done || old(files).curr == Absent) ==>
                files == old(files).(prev := Absent) && res == if fates[1] == Cut then PowerCut else Failed
      ensures currentAbsent || (fates[0] == Done && fates[1] == Done && old(files).curr != Absent) ==>
                && (res.Saved? <==> (forall i :: 2 <= i < 6 ==> fates[i] == Done)
                                    && (currentAbsent ==> old(files).curr == Absent))
                && files.prev == (if currentAbsent then old(files).prev else old(files).curr)
                && (!res.Saved? ==> files.curr == if currentAbsent then old(files).curr else Absent)
      // what was kept is kept, unless it was replaced, or a current file was missing that is not known to be,
      // in which case the previous one was removed and nothing is left
      ensures old(files).Keeps(kept) && !res.Saved? ==>
                (files.Keeps(kept) <==> currentAbsent || old(files).curr != Absent || fates[0] != Done)
      ensures old(files).Keeps(kept) && !res.Saved? && !files.Keeps(kept) ==> files.LoadsDefaults()
      // with working operations it succeeds if and only if the current file is there as expected
      ensures (forall i :: 0 <= i < 6 ==> fates[i] == Done) ==>
                (res.Saved? <==> (currentAbsent <==> old(files).curr == Absent))
      // a failure is harmless with a current file known to be absent, and leaves it so
      ensures currentAbsent && !res.Saved? ==> files.curr == old(files).curr
      // a current file that could be renamed, but not replaced, is the previous one
      ensures !currentAbsent && old(files).curr != Absent && fates[0] == Done && fates[1] == Done
              && fates[2] == Fails ==>
                res.Failed? && files.curr == Absent && files.prev == old(files).curr
      // a current file that is missing unnoticed costs the previous one
      ensures !currentAbsent && old(files).curr == Absent && fates[0] == Done && fates[1] == Done ==>
                res.Failed? && files.curr == Absent && files.prev == Absent
    {
      if !currentAbsent {
        var go;
        go, res := SetAside(fates[0], fates[1]);
        if !go { return; }
      }
      res := WriteNew(dto, fates[2..]);
    }

    /** The first part: the previous configuration is removed, and the current one becomes it. */
    method SetAside(first: Fate, second: Fate) returns (go: bool, res: Outcome)
      modifies `files
      ensures first != Done ==> !go && files == old(files) && res == if first == Cut then PowerCut else Failed
      ensures first == Done && (second != Done || old(files).curr == Absent) ==>
                !go && files == old(files).(prev := Absent) && res == if second == Cut then PowerCut else Failed
      ensures first == Done && second == Done && old(files).curr != Absent ==>
                go && files == old(files).(prev := old(files).curr, curr := Absent)
    {
      if first == Cut { return false, PowerCut; }
      var ok := RemovePrevious(first);
      if !ok { return false, Failed; }
      if second == Cut { return false, PowerCut; }
      ok := RenameCurrent(second);
      if !ok { return false, Failed; }
      go, res := true, Saved;
    }

    /** The second part: a new file is written and becomes the current one, if that place is free. */
    method WriteNew(dto: C, fates: seq<Fate>) returns (res: Outcome)
      requires |fates| == 4
      modifies `files
      ensures files.prev == old(files).prev
      ensures res.Saved? <==> fates == [Done, Done, Done, Done] && old(files).curr == Absent
      ensures res.PowerCut? <==>
                || fates[0] == Cut || (fates[0] == Done && (fates[1] == Cut || fates[2] == Cut))
                || (fates[0] == Done && fates[1] == Done && fates[2] == Done && fates[3] == Cut)
      ensures if res.Saved? then files.curr == Whole(dto) && files.temp == Absent
              else && files.curr == old(files).curr
                   && files.temp == if fates[0] != Done then old(files).temp
                                    else if fates[1] == Done then Whole(dto) else Incomplete
    {
      if fates[0] == Cut { return PowerCut; }
      var ok := CreateTemp(fates[0]);
      if !ok { return Failed; }
      if fates[1] == Cut { return PowerCut; }
      var written := WriteTemp(dto, fates[1]);
      if fates[2] == Cut { return PowerCut; }
      if fates[2] == Fails || !written { return Failed; }    // f_close
      if fates[3] == Cut { return PowerCut; }
      ok := RenameTemp(fates[3]);
      if !ok { return Failed; }
      res := Saved;
    }

    /** A setter: the copy that is not active is changed and saved, and then becomes active. */
    method Update(change: C -> C, fates: seq<Fate>) returns (res: Outcome)
      requires Valid() && !usedDefault && |fates| == 6
      modifies `copies, `active, `files
      ensures Valid()
      ensures res.Saved? <==>
                && (forall i :: (if currentAbsent then 2 else 0) <= i < 6 ==> fates[i] == Done)
                && (currentAbsent <==> old(files).curr == Absent)
      // the copy in memory changes exactly when the file was replaced
      ensures if res.Saved? then copies[active] == change(old(copies[active])) && files.curr == Whole(copies[active])
              else active == old(active) && copies[active] == old(copies[active])
      ensures old(files).Keeps(old(copies[active])) && !res.Saved? ==>
                (files.Keeps(copies[active]) <==> currentAbsent || old(files).curr != Absent || fates[0] != Done)
      ensures (forall i :: 0 <= i < 6 ==> fates[i] == Done) ==>
              (res.Saved? <==> (currentAbsent <==> old(files).curr == Absent))
      ensures currentAbsent && !res.Saved? ==> files.curr == old(files).curr
      // a current file that could be renamed, but not replaced, is the previous one
      ensures !currentAbsent && old(files).curr != Absent && fates[0] == Done && fates[1] == Done
              && fates[2] == Fails ==>
                res.Failed? && files.curr == Absent && files.prev == old(files).curr
      // a current file that is missing unnoticed costs the previous one
      ensures !currentAbsent && old(files).curr == Absent && fates[0] == Done && fates[1] == Done ==>
                res.Failed? && files.curr == Absent && files.prev == Absent
    {
      var next := 1 - active;
      copies := copies[next := copies[active]];
      copies := copies[next := change(copies[next])];
      res := Save(copies[next], fates, copies[active]);
      if res.Saved? { active := next; }
    }

    ghost function Now(): Snap<C>
      requires Valid()
      reads this
    {
      Snap(files, currentAbsent, copies[active])
    }

    /** The configuration in use is the one that loading would find, and a current file is missing
        only if that is known. */
    ghost predicate Safe()
      reads this
    {
      Valid() && !usedDefault && files.Keeps(copies[active]) && (currentAbsent || files.curr != Absent)
    }
  }

  /** The files, the flag, and the configuration in use. */
  datatype Snap<C> = Snap(files: Files<C>, currentAbsent: bool, config: C)

  /** An update is done if all its file operations are, and the flag is right; else the configuration stays, and a load
      sets the flag. */
  ghost predicate Took<C>(s: Snap<C>, change: C -> C, fates: seq<Fate>, s': Snap<C>)
    requires |fates| == 6
  {
    if && (forall i :: (if s.currentAbsent then 2 else 0) <= i < 6 ==> fates[i] == Done)
       && (s.currentAbsent <==> s.files.curr == Absent)
    then s'.config == change(s.config) && s'.files.curr == Whole(s'.config) && s'.currentAbsent == s.currentAbsent
    else s'.config == s.config && (s'.currentAbsent <==> s'.files.curr == Absent)
  }

  /** Any sequence of updates, each of which may be cut short at any file operation or fail, if a load
      follows every one that was not saved: each leaves the whole old or the whole new configuration. */
  method Run<C(==)>(s: Settings<C>, updates: seq<(C -> C, seq<Fate>)>)
    returns (ghost configs: seq<C>, ghost snaps: seq<Snap<C>>)
    requires s.Safe() && forall i :: 0 <= i < |updates| ==> |updates[i].1| == 6
    modifies s
    ensures s.Safe() && |configs| == |updates| + 1
    ensures configs[0] == old(s.copies[s.active]) && configs[|updates|] == s.copies[s.active]
    ensures forall i :: 0 <= i < |updates| ==>
            configs[i + 1] == configs[i] || configs[i + 1] == updates[i].0(configs[i])
    ensures |snaps| == |updates| + 1 && forall i :: 0 <= i < |updates| ==>
            Took(snaps[i], updates[i].0, updates[i].1, snaps[i + 1]) && snaps[i].config == configs[i]
    ensures snaps[0] == old(s.Now()) && snaps[|updates|] == s.Now()
  {
    configs, snaps := [s.copies[s.active]], [s.Now()];
    var i := 0;
    while i < |updates|
      invariant i <= |updates| && s.Safe() && |configs| == i + 1
      invariant configs[0] == old(s.copies[s.active]) && configs[i] == s.copies[s.active]
      invariant forall k :: 0 <= k < i ==> configs[k + 1] == configs[k] || configs[k + 1] == updates[k].0(configs[k])
      invariant |snaps| == i + 1 && snaps[0] == old(s.Now()) && snaps[i] == s.Now()
      invariant forall k :: 0 <= k < i ==>
                  Took(snaps[k], updates[k].0, updates[k].1, snaps[k + 1]) && snaps[k].config == configs[k]
    {
      var res := s.Update(updates[i].0, updates[i].1);
      if !res.Saved? { var _ := s.Load(); }
      configs, snaps := configs + [s.copies[s.active]], snaps + [s.Now()];
      i := i + 1;
    }
  }

  // ----- where it falls short of its purpose

  /** After a save that had to create the current file, it is still taken to be absent: the next save fails. */
  method SecondSaveFails<C(==)>(s: Settings<C>, a: C -> C, b: C -> C) returns (first: Outcome, second: Outcome)
    requires s.Safe() && s.files.curr == Absent
    modifies s
    ensures first == Saved && second != Saved && s.Safe()
  {
    var fine := seq(6, _ => Done);
    first := s.Update(a, fine);
    second := s.Update(b, fine);
  }

  /** A save that fails after the current file was renamed, tried again without a load, removes the
      only copy. */
  method RetryLosesAll<C(==)>(s: Settings<C>, a: C -> C) returns (first: Outcome, second: Outcome)
    requires s.Safe() && s.files.curr != Absent && !s.currentAbsent
    modifies s
    ensures first == Failed && second == Failed && s.files.LoadsDefaults()
  {
    first := s.Update(a, [Done, Done, Fails, Done, Done, Done]);
    second := s.Update(a, [Done, Done, Done, Done, Done, Done]);
  }
}
