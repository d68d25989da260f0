/**
 The commands of link.go as they run: one file operation after another, on the
 hooks directory, until they finish or the machine stops.
 */
module HooksDirectory {
  import opened Options
  import opened Text
  import opened HookScript
  import opened HookInstaller

  lemma RestFrom(hs: seq<Hook>, k: nat)
    requires k < |hs|
    ensures hs[k..] != [] && hs[k..][0] == hs[k] && hs[k..][1..] == hs[k + 1..]
    ensures Distinct(hs) ==> Distinct(hs[k..])
  {
  }

  /** These hooks are as they were. */
  ghost predicate AsBefore(d: Slots, was: Slots, hs: seq<Hook>)
  {
    forall h :: h in hs ==> h in d && h in was && d[h] == was[h]
  }

  lemma RestAsBefore(d: Slots, was: Slots, hs: seq<Hook>, s: Slot)
    requires Distinct(hs) && hs != [] && AsBefore(d, was, hs)
    ensures AsBefore(d[hs[0] := s], was, hs[1..])
  {
    assert forall i :: 0 < i < |hs| ==> hs[0] != hs[i];
  }

  datatype Removal = Absent | TakenOut | NotOurs | Failed

  function RemovalOf(s: Slot, h: Hook, f: RemoveFault): Removal
  {
    if s.at.None? then Absent else
    if Blocked(s) then Failed else
    if Foreign(s, h) then NotOurs else
    if f.Free? then TakenOut else Failed
  }

  lemma LeftAloneIs(d: Slots, bin: Option<string>)
    ensures LeftAlone(d, bin) <==>
            forall h: Hook :: h in d && d[h].at.Some? && d[h].at.value.File? &&
              Contains(d[h].at.value.content, Marker(h)) &&
              (bin.Some? ==> ScriptBin(d[h].at.value.content) == bin.value)
  {
    forall h: Hook
      ensures h in d
    {
      AllManaged(h);
    }
  }

  class Directory {
    const root: string
    var slots: Slots
    /** File operations left before the machine stops. */
    var left: nat

    constructor (root: string, slots: Slots, left: nat)
      ensures this.root == root && this.slots == slots && this.left == left
    {
      this.root, this.slots, this.left := root, slots, left;
    }

    /** linkInstallHook. `fault` is the operation that fails, `cut` how much of
        the script a write leaves when the machine stops. */
    method InstallHook(h: Hook, text: string, fault: Fault, cut: nat) returns (code: int, crashed: bool)
      requires h in slots
      modifies this`slots, this`left
      ensures h in slots && slots == old(slots)[h := slots[h]]
      ensures InstallPasses(old(slots)[h], h, text, slots[h])
      ensures !crashed ==>
                var a := Try(old(slots)[h], h, text, fault);
                slots[h] == a.slot && code == if a.ok then OK else USAGE
    {
      var s := slots[h];
      if Foreign(s, h) {
        if s.saved.Some? || fault.NoMove? {
          return USAGE, false;
        }
        if left == 0 {
          return OK, true;
        }
        slots, left := slots[h := Slot(None, s.at)], left - 1;
      } else if Blocked(s) {
        return USAGE, false;
      }
      if fault == NoWrite(None) {
        return USAGE, false;
      }
      if left == 0 {
        return OK, true;
      }
      var wrote := if fault.NoWrite? then fault.wrote.value else cut;
      WritePasses(s, h, text, Part(text, wrote));
      slots, left := slots[h := Written(slots[h], Part(text, wrote))], left - 1;
      if fault.NoWrite? {
        return USAGE, false;
      }
      if left == 0 {
        return OK, true;
      }
      WritePasses(s, h, text, text);
      slots, left := slots[h := Written(slots[h], text)], left - 1;
      return OK, false;
    }

    /** runLinkInstall. Stopped anywhere, each hook is in a state its own
        install goes through; not stopped, the outcome is Install's. With a
        conflict or without a binary it never gets as far as a file operation. */
    method LinkInstall(bin: Option<string>, faults: Faults, cut: nat) returns (code: int, crashed: bool)
      modifies this`slots, this`left
      ensures bin.Some? ==> Next(old(slots), Link(Scripts(root, bin.value)), slots)
      ensures !crashed ==> Outcome(slots, code) == Install(old(slots), root, bin, faults)
      ensures AnyConflict(old(slots)) || bin.None? ==>
                !crashed && code == USAGE && slots == old(slots) && left == old(left)
      ensures !crashed ==> code == 0 || code == 2
      ensures !crashed && code == 0 ==>
                && bin.Some?
                && forall h: Hook :: h in old(slots) && h in slots &&
                     LeftInstalled(old(slots)[h], slots[h], h,
                                   Script(h, bin.value, root + "/" + Name(h) + ".innsegl-previous"))
    {
      for k := 0 to |MANAGED|
        invariant slots == old(slots) && left == old(left)
        invariant forall j :: 0 <= j < k ==> MANAGED[j] in slots && !Conflict(slots[MANAGED[j]], MANAGED[j])
      {
        var h := MANAGED[k];
        if Conflict(slots[h], h) {
          return USAGE, false;
        }
      }
      assert !AnyConflict(slots) by {
        forall h | h in slots
          ensures !Conflict(slots[h], h)
        {
          AllManaged(h);
        }
      }
      if bin.None? {
        return USAGE, false;
      }
      code, crashed := InstallAll(Scripts(root, bin.value), faults, cut);
      InstallEachCode(old(slots), Scripts(root, bin.value), faults, MANAGED);
      if !crashed && code == 0 {
        forall h: Hook
          ensures h in old(slots) && h in slots
          ensures LeftInstalled(old(slots)[h], slots[h], h,
                                Script(h, bin.value, root + "/" + Name(h) + ".innsegl-previous"))
        {
          InstallLeaves(old(slots), root, bin.value, faults, h);
        }
      }
    }

    /** The second loop of runLinkInstall. */
    method InstallAll(text: Texts, faults: Faults, cut: nat) returns (code: int, crashed: bool)
      modifies this`slots, this`left
      ensures Next(old(slots), Link(text), slots)
      ensures !crashed ==> Outcome(slots, code) == InstallEach(old(slots), text, faults, MANAGED)
    {
      AllManaged(PostCommit);
      for k := 0 to |MANAGED|
        invariant forall j :: k <= j < |MANAGED| ==>
                    MANAGED[j] in slots && slots[MANAGED[j]] == old(slots)[MANAGED[j]]
        invariant Next(old(slots), Link(text), slots)
        invariant InstallEach(old(slots), text, faults, MANAGED) == InstallEach(slots, text, faults, MANAGED[k..])
      {
        ghost var was := slots;
        var h := MANAGED[k];
        InstallEachStep(slots, text, faults, k);
        code, crashed := InstallHook(h, text(h), faults(h), cut);
        LinkAlso(old(slots), text, was, h, slots[h]);
        if crashed || code != OK {
          return;
        }
      }
      return OK, false;
    }

    /** linkRemoveHook. */
    method RemoveHook(h: Hook, fault: RemoveFault) returns (outcome: Removal, crashed: bool)
      requires h in slots
      modifies this`slots, this`left
      ensures h in slots && slots == old(slots)[h := slots[h]]
      ensures RemovePasses(old(slots)[h], h, slots[h])
      ensures !crashed ==>
                outcome == RemovalOf(old(slots)[h], h, fault) && slots[h] == TryRemove(old(slots)[h], h, fault).slot
    {
      var s := slots[h];
      if s.at.None? {
        return Absent, false;
      } else if Blocked(s) {
        return Failed, false;
      } else if Foreign(s, h) {
        return NotOurs, false;
      }
      if fault.NoRemove? {
        return Failed, false;
      }
      if left == 0 {
        return Failed, true;
      }
      slots, left := slots[h := Slot(None, s.saved)], left - 1;
      if fault.NoRestore? {
        return Failed, false;
      }
      if s.saved.Some? {
        if left == 0 {
          return Failed, true;
        }
        slots, left := slots[h := Slot(s.saved, None)], left - 1;
      }
      return TakenOut, false;
    }

    /** runLinkRemove, with its two counters. */
    method LinkRemove(faults: RemoveFaults) returns (code: int, crashed: bool)
      modifies this`slots, this`left
      ensures Next(old(slots), Unlink, slots)
      ensures !crashed ==> Outcome(slots, code) == Remove(old(slots), faults)
      ensures !crashed && (forall h :: h in old(slots) ==> !Blocked(old(slots)[h]) && faults(h).Free?) ==>
                && slots == (map h | h in old(slots) :: Removed(old(slots)[h], h))
                && code == if (exists h :: h in old(slots) && Foreign(old(slots)[h], h)) &&
                              !(exists h :: h in old(slots) && Managed(old(slots)[h], h)) then 2 else 0
    {
      if forall h :: h in slots ==> !Blocked(slots[h]) && faults(h).Free? {
        RemoveIs(slots, faults);
      }
      AllManaged(PostCommit);
      code, crashed := RemoveAll(MANAGED, faults);
    }

    method RemoveAll(hs: seq<Hook>, faults: RemoveFaults) returns (code: int, crashed: bool)
      requires Distinct(hs) && forall h :: h in hs ==> h in slots
      modifies this`slots, this`left
      ensures Next(old(slots), Unlink, slots)
      ensures !crashed ==> Outcome(slots, code) == RemoveEach(old(slots), faults, hs, 0, 0)
    {
      var removed, foreign: nat := 0, 0;
      for k := 0 to |hs|
        invariant AsBefore(slots, old(slots), hs[k..])
        invariant Next(old(slots), Unlink, slots)
        invariant RemoveEach(old(slots), faults, hs, 0, 0) == RemoveEach(slots, faults, hs[k..], removed, foreign)
      {
        ghost var was := slots;
        var h := hs[k];
        RestFrom(hs, k);
        var outcome;
        outcome, crashed := RemoveHook(h, faults(h));
        UnlinkAlso(old(slots), was, h, slots[h]);
        RestAsBefore(was, old(slots), hs[k..], slots[h]);
        if crashed {
          return USAGE, true;
        }
        RemoveEachStep(was, faults, hs[k..], removed, foreign);
        match outcome
        case TakenOut => removed := removed + 1;
        case NotOurs => foreign := foreign + 1;
        case Failed => return USAGE, false;
        case Absent =>
      }
      if foreign > 0 && removed == 0 {
        return USAGE, false;
      }
      return OK, false;
    }

    /** linkEnsure: `linked` reports whether it installed the hooks. */
    method LinkEnsure(bin: Option<string>, faults: Faults, cut: nat)
      returns (linked: bool, failed: bool, crashed: bool)
      modifies this`slots, this`left
      ensures bin.Some? ==> Next(old(slots), Link(Scripts(root, bin.value)), slots)
      ensures !crashed ==>
                var r := Ensure(old(slots), root, bin, faults);
                slots == r.0.slots && linked == r.1 && failed == (r.0.code != OK)
      // Left alone exactly when every hook is innsegl's and runs the binary, if
      // there is one to name.
      ensures !crashed ==>
                (!linked && !failed <==>
                 forall h: Hook :: h in old(slots) && old(slots)[h].at.Some? && old(slots)[h].at.value.File? &&
                   Contains(old(slots)[h].at.value.content, Marker(h)) &&
                   (bin.Some? ==> ScriptBin(old(slots)[h].at.value.content) == bin.value))
      ensures !crashed && !linked && !failed ==> slots == old(slots)
      ensures !crashed && linked ==>
                && bin.Some?
                && forall h: Hook :: h in old(slots) && h in slots &&
                     LeftInstalled(old(slots)[h], slots[h], h,
                                   Script(h, bin.value, root + "/" + Name(h) + ".innsegl-previous"))
    {
      LeftAloneIs(slots, bin);
      var complete := true;
      for k := 0 to |MANAGED|
        invariant complete <==> forall j :: 0 <= j < k ==> MANAGED[j] in slots && Managed(slots[MANAGED[j]], MANAGED[j])
      {
        complete := complete && Managed(slots[MANAGED[k]], MANAGED[k]);
      }
      assert complete <==> Complete(slots) by {
        forall h | h in slots
          ensures complete ==> Managed(slots[h], h)
        {
          AllManaged(h);
        }
      }
      if complete {
        if bin.None? || NamesBinary(slots, bin.value) {
          return false, false, false;
        }
      }
      var code;
      code, crashed := LinkInstall(bin, faults, cut);
      return code == OK && !crashed, code != OK, crashed;
    }
  }

  lemma WritePasses(s: Slot, h: Hook, text: string, part: string)
    requires !Blocked(s) && !Conflict(s, h) && part <= text
    ensures InstallPasses(s, h, text, Written(SetAside(s, h), part))
    ensures Written(Written(SetAside(s, h), part), text) == Written(SetAside(s, h), text)
  {
  }

  /** A hook not touched so far may go through its own install, or its own
      removal, after the others. */
  lemma LinkAlso(d0: Slots, text: Texts, d: Slots, h: Hook, s: Slot)
    requires Next(d0, Link(text), d) && h in d0 && InstallPasses(d0[h], h, text(h), s)
    ensures Next(d0, Link(text), d[h := s])
  {
  }

  lemma UnlinkAlso(d0: Slots, d: Slots, h: Hook, s: Slot)
    requires Next(d0, Unlink, d) && h in d0 && RemovePasses(d0[h], h, s)
    ensures Next(d0, Unlink, d[h := s])
  {
  }

  lemma InstallEachStep(d: Slots, text: Texts, f: Faults, k: nat)
    requires k < |MANAGED| && MANAGED[k] in d
    ensures var h := MANAGED[k];
            var a := Try(d[h], h, text(h), f(h));
            InstallEach(d, text, f, MANAGED[k..]) ==
            if a.ok then InstallEach(d[h := a.slot], text, f, MANAGED[k + 1..]) else Outcome(d[h := a.slot], USAGE)
  {
    assert MANAGED[k..][0] == MANAGED[k] && MANAGED[k..][1..] == MANAGED[k + 1..];
  }

  lemma RemoveEachStep(d: Slots, f: RemoveFaults, hs: seq<Hook>, removed: nat, foreign: nat)
    requires hs != [] && hs[0] in d
    ensures var h := hs[0];
            var s := TryRemove(d[h], h, f(h)).slot;
            RemoveEach(d, f, hs, removed, foreign) ==
            match RemovalOf(d[h], h, f(h))
            case Failed => Outcome(d[h := s], USAGE)
            case TakenOut => RemoveEach(d[h := s], f, hs[1..], removed + 1, foreign)
            case NotOurs => RemoveEach(d[h := s], f, hs[1..], removed, foreign + 1)
            case Absent => RemoveEach(d[h := s], f, hs[1..], removed, foreign)
  {
  }
}
