/**
 `innsegl link` and `innsegl link -remove` (cmd/innsegl/link.go): installing
 three git hooks next to hooks that may already be there, and taking them out
 again. Each managed hook has two places in the hooks directory, its own path
 and the path a foreign hook is moved aside to. A crash may follow any file
 operation, the middle of a write included.
 */
module HookInstaller {
  import opened Options
  import opened Text
  import opened HookScript

  const OK := 0
  const USAGE := 2
  const EXECUTABLE := 0x1ed  // 0o755
  const PREVIOUS_SUFFIX := ".innsegl-previous"

  /** Who wrote a file. The code never reads this: it only sees content. */
  datatype Author = User | Innsegl

  /** A file, or something at that path that cannot be read as one. */
  datatype Entry = File(content: string, mode: int, author: Author) | Unreadable

  datatype Slot = Slot(at: Option<Entry>, saved: Option<Entry>)

  type Slots = m: map<Hook, Slot> | PrepareCommitMsg in m && PostCommit in m && ReferenceTransaction in m
    witness map[PrepareCommitMsg := Slot(None, None), PostCommit := Slot(None, None), ReferenceTransaction := Slot(None, None)]

  const MANAGED := [PrepareCommitMsg, PostCommit, ReferenceTransaction]

  function SavedPath(root: string, h: Hook): string
  {
    root + "/" + Name(h) + PREVIOUS_SUFFIX
  }

  function HookText(root: string, bin: string, h: Hook): string
  {
    Script(h, bin, SavedPath(root, h))
  }

  type Texts = Hook -> string

  /** The three scripts for one binary. */
  function Scripts(root: string, bin: string): Texts
  {
    h => HookText(root, bin, h)
  }

  /** The hook there is innsegl's own, by its marker. */
  predicate Managed(s: Slot, h: Hook)
  {
    s.at.Some? && s.at.value.File? && Contains(s.at.value.content, Marker(h))
  }

  /** Someone else's hook, which must be moved aside. */
  predicate Foreign(s: Slot, h: Hook)
  {
    s.at.Some? && s.at.value.File? && !Contains(s.at.value.content, Marker(h))
  }

  predicate Blocked(s: Slot)
  {
    s.at.Some? && s.at.value.Unreadable?
  }

  /** A foreign hook with nowhere to go: both places are taken. */
  predicate Conflict(s: Slot, h: Hook)
  {
    Foreign(s, h) && s.saved.Some?
  }

  // ------------------------------------------------------ one hook, by steps

  function SetAside(s: Slot, h: Hook): Slot
  {
    if Foreign(s, h) then Slot(None, s.at) else s
  }

  /** os.WriteFile: a file that is there keeps its mode. */
  function Written(s: Slot, text: string): Slot
  {
    var mode := if s.at.Some? && s.at.value.File? then s.at.value.mode else EXECUTABLE;
    s.(at := Some(File(text, mode, Innsegl)))
  }

  function Installed(s: Slot, h: Hook, text: string): Slot
  {
    Written(SetAside(s, h), text)
  }

  /** Every state of the slot an install of one hook goes through. */
  ghost predicate InstallPasses(s: Slot, h: Hook, text: string, s': Slot)
  {
    || s' == s
    || (!Blocked(s) && !Conflict(s, h) &&
        (s' == SetAside(s, h) || exists part :: part <= text && s' == Written(SetAside(s, h), part)))
  }

  function Removed(s: Slot, h: Hook): Slot
  {
    if Managed(s, h) then Slot(s.saved, None) else s
  }

  ghost predicate RemovePasses(s: Slot, h: Hook, s': Slot)
  {
    s' == s || (Managed(s, h) && (s' == Slot(None, s.saved) || s' == Slot(s.saved, None)))
  }

  // ------------------------------------------------ file operations that fail

  /** What the install of one hook runs into: nothing; the hook there cannot be
      moved aside; or the script cannot be written, after none or some of it. */
  datatype Fault = Fine | NoMove | NoWrite(wrote: Option<nat>)

  type Faults = Hook -> Fault

  datatype Attempt = Attempt(slot: Slot, ok: bool)

  function Part(text: string, n: nat): (part: string)
    ensures part <= text
  {
    text[..if n < |text| then n else |text|]
  }

  /** linkInstallHook, with an operation that fails. */
  function Try(s: Slot, h: Hook, text: string, f: Fault): Attempt
  {
    if Blocked(s) || Conflict(s, h) || (Foreign(s, h) && f.NoMove?) then Attempt(s, false) else
    var aside := SetAside(s, h);
    match f
    case NoWrite(None) => Attempt(aside, false)
    case NoWrite(Some(n)) => Attempt(Written(aside, Part(text, n)), false)
    case _ => Attempt(Written(aside, text), true)
  }

  /** The hook can be installed. */
  predicate Goes(s: Slot, h: Hook, f: Fault)
  {
    !Blocked(s) && !Conflict(s, h) && !(Foreign(s, h) && f.NoMove?) && !f.NoWrite?
  }

  /** What the removal of one hook runs into: the hook cannot be removed, or the
      saved one cannot be put back. */
  datatype RemoveFault = Free | NoRemove | NoRestore

  type RemoveFaults = Hook -> RemoveFault

  /** linkRemoveHook, with an operation that fails. */
  function TryRemove(s: Slot, h: Hook, f: RemoveFault): Attempt
  {
    if Blocked(s) || (Managed(s, h) && f.NoRemove?) then Attempt(s, false) else
    if Managed(s, h) && f.NoRestore? then Attempt(Slot(None, s.saved), false) else
    Attempt(Removed(s, h), true)
  }

  // ---------------------------------------------------------- whole commands

  datatype Outcome = Outcome(slots: Slots, code: int)

  /** The second loop of runLinkInstall: hook by hook, stopping at the first
      that cannot be installed. */
  function InstallEach(d: Slots, text: Texts, f: Faults, hs: seq<Hook>): Outcome
  {
    if hs == [] then Outcome(d, OK) else
    var h := hs[0];
    if h !in d then Outcome(d, USAGE) else
    var a := Try(d[h], h, text(h), f(h));
    if a.ok then InstallEach(d[h := a.slot], text, f, hs[1..]) else Outcome(d[h := a.slot], USAGE)
  }

  predicate AnyConflict(d: Slots)
  {
    exists h :: h in d && Conflict(d[h], h)
  }

  /** runLinkInstall: every hook is checked, then a binary is named, then the
      hooks are written. */
  function Install(d: Slots, root: string, bin: Option<string>, f: Faults): Outcome
  {
    if AnyConflict(d) || bin.None? then Outcome(d, USAGE) else InstallEach(d, Scripts(root, bin.value), f, MANAGED)
  }

  /** runLinkRemove up to the first hook that cannot be read, removed or put
      back. */
  function RemoveEach(d: Slots, f: RemoveFaults, hs: seq<Hook>, removed: nat, foreign: nat): Outcome
  {
    if hs == [] then Outcome(d, if foreign > 0 && removed == 0 then USAGE else OK) else
    var h := hs[0];
    if h !in d then Outcome(d, USAGE) else
    var a := TryRemove(d[h], h, f(h));
    if !a.ok then Outcome(d[h := a.slot], USAGE) else
    RemoveEach(d[h := a.slot], f, hs[1..],
               if Managed(d[h], h) then removed + 1 else removed,
               if Foreign(d[h], h) then foreign + 1 else foreign)
  }

  function Remove(d: Slots, f: RemoveFaults): Outcome
  {
    RemoveEach(d, f, MANAGED, 0, 0)
  }

  predicate NamesBinary(d: Slots, bin: string)
  {
    forall h :: h in d ==> d[h].at.Some? && d[h].at.value.File? && ScriptBin(d[h].at.value.content) == bin
  }

  predicate Complete(d: Slots)
  {
    forall h :: h in d ==> Managed(d[h], h)
  }

  /** linkEnsure leaves a linked repository alone when its hooks run the binary,
      or when there is no binary to name. */
  predicate LeftAlone(d: Slots, bin: Option<string>)
  {
    Complete(d) && (bin.None? || NamesBinary(d, bin.value))
  }

  function Ensure(d: Slots, root: string, bin: Option<string>, f: Faults): (r: (Outcome, bool))
  {
    if LeftAlone(d, bin) then (Outcome(d, OK), false) else
    var r := Install(d, root, bin, f);
    (r, r.code == OK)
  }

  // ------------------------------------------------- conservation of hooks

  function OfUser(e: Option<Entry>): multiset<Entry>
  {
    if e.Some? && (e.value.Unreadable? || e.value.author.User?) then multiset{e.value} else multiset{}
  }

  /** What a user has put at a hook's two places. */
  function UserFiles(s: Slot): multiset<Entry>
  {
    OfUser(s.at) + OfUser(s.saved)
  }

  /** The assumption innsegl rests on: no foreign hook carries its marker. */
  predicate WellMarked(s: Slot, h: Hook)
  {
    forall e :: e in UserFiles(s) && e.File? ==> !Contains(e.content, Marker(h))
  }

  lemma ManagedIsNotUsers(s: Slot, h: Hook)
    requires WellMarked(s, h)
    ensures Managed(s, h) ==> OfUser(s.at) == multiset{}
  {
    assert forall e :: e in OfUser(s.at) ==> e in UserFiles(s);
  }

  /** Installing keeps every file of the user's, whenever it is cut off. */
  lemma InstallConserves(s: Slot, h: Hook, text: string, s': Slot)
    requires WellMarked(s, h) && InstallPasses(s, h, text, s')
    ensures UserFiles(s') == UserFiles(s)
  {
    ManagedIsNotUsers(s, h);
  }

  lemma RemoveConserves(s: Slot, h: Hook, s': Slot)
    requires WellMarked(s, h) && RemovePasses(s, h, s')
    ensures UserFiles(s') == UserFiles(s)
  {
    ManagedIsNotUsers(s, h);
  }

  /** A run: link, link -remove and session re-links, each cut off anywhere,
      and a user who adds a hook where none of theirs is. */
  datatype Step =
    | Link(text: Texts)
    | Unlink
    | UserAdds(h: Hook, hook: Entry)

  ghost predicate Next(d: Slots, step: Step, d': Slots)
  {
    match step
    case Link(text) => forall h :: h in d && h in d' ==> InstallPasses(d[h], h, text(h), d'[h])
    case Unlink => forall h :: h in d && h in d' ==> RemovePasses(d[h], h, d'[h])
    case UserAdds(h, e) =>
      && e.File? && e.author.User? && !Contains(e.content, Marker(h))
      && h in d && OfUser(d[h].at) == multiset{}
      && d' == d[h := d[h].(at := Some(e))]
  }

  ghost predicate Run(ds: seq<Slots>, steps: seq<Step>)
  {
    |ds| == |steps| + 1 && forall i :: 0 <= i < |steps| ==> Next(ds[i], steps[i], ds[i + 1])
  }

  /** What one step of a run adds to a hook's places. */
  function AddedBy(step: Step, h: Hook): multiset<Entry>
  {
    if step.UserAdds? && step.h == h then multiset{step.hook} else multiset{}
  }

  function Added(steps: seq<Step>, h: Hook): multiset<Entry>
  {
    if steps == [] then multiset{} else
    var n := |steps| - 1;
    Added(steps[..n], h) + AddedBy(steps[n], h)
  }

  lemma AddConserves(s: Slot, e: Entry, h: Hook)
    requires WellMarked(s, h) && OfUser(s.at) == multiset{}
    requires e.File? && e.author.User? && !Contains(e.content, Marker(h))
    ensures UserFiles(s.(at := Some(e))) == UserFiles(s) + multiset{e}
  {}

  lemma NextConserves(d: Slots, step: Step, d': Slots, h: Hook)
    requires Next(d, step, d') && h in d && WellMarked(d[h], h)
    ensures h in d' && UserFiles(d'[h]) == UserFiles(d[h]) + AddedBy(step, h)
  {
    assert h in d';
    match step
    case Link(text) => InstallConserves(d[h], h, text(h), d'[h]);
    case Unlink => RemoveConserves(d[h], h, d'[h]);
    case UserAdds(g, e) =>
      if g == h {
        AddConserves(d[h], e, h);
      }
  }

  ghost predicate Holds(d: Slots, h: Hook, users: multiset<Entry>)
  {
    h in d && WellMarked(d[h], h) && UserFiles(d[h]) == users
  }

  lemma StepHolds(d: Slots, step: Step, d': Slots, h: Hook, users: multiset<Entry>)
    requires Next(d, step, d') && Holds(d, h, users)
    ensures Holds(d', h, users + AddedBy(step, h))
  {
    NextConserves(d, step, d', h);
    assert forall e :: e in AddedBy(step, h) ==> e == step.hook && !Contains(e.content, Marker(h));
  }

  lemma AddedSnoc(steps: seq<Step>, i: nat, h: Hook)
    requires i < |steps|
    ensures Added(steps[..i + 1], h) == Added(steps[..i], h) + AddedBy(steps[i], h)
  {
    assert steps[..i + 1][..i] == steps[..i];
  }

  lemma RunHolds(ds: seq<Slots>, steps: seq<Step>, i: nat, h: Hook, users: multiset<Entry>)
    requires Run(ds, steps) && i < |steps| && Holds(ds[i], h, users + Added(steps[..i], h))
    ensures Holds(ds[i + 1], h, users + Added(steps[..i + 1], h))
  {
    var a, b := Added(steps[..i], h), AddedBy(steps[i], h);
    StepHolds(ds[i], steps[i], ds[i + 1], h, users + a);
    AddedSnoc(steps, i, h);
    assert users + a + b == users + (a + b);
  }

  /** Over every run and every crash, a hook's two places hold exactly the
      hooks that were there and the hooks added since: none is lost, none is
      overwritten. */
  lemma {:induction false} HooksNeverLost(ds: seq<Slots>, steps: seq<Step>, i: nat, h: Hook,
                                          users: multiset<Entry>)
    requires Run(ds, steps) && i <= |steps| && Holds(ds[0], h, users)
    ensures Holds(ds[i], h, users + Added(steps[..i], h))
    decreases i
  {
    if i == 0 {
      assert users + multiset{} == users;
    } else {
      HooksNeverLost(ds, steps, i - 1, h, users);
      RunHolds(ds, steps, i - 1, h, users);
    }
  }

  // --------------------------------------------- a write that was cut off

  /** Neither place changes any more: the hook is foreign and both are taken. */
  lemma ConflictStays(s: Slot, h: Hook, text: string, s': Slot)
    requires Conflict(s, h) && (InstallPasses(s, h, text, s') || RemovePasses(s, h, s'))
    ensures s' == s
  {
  }

  /** So it is over every run of links and removals, until the user steps in. */
  lemma {:induction false} StuckForever(ds: seq<Slots>, steps: seq<Step>, i: nat, h: Hook)
    requires Run(ds, steps) && i <= |steps| && h in ds[0] && Conflict(ds[0][h], h)
    requires forall j :: 0 <= j < i ==> !steps[j].UserAdds?
    ensures h in ds[i] && ds[i][h] == ds[0][h]
    decreases i
  {
    if i > 0 {
      StuckForever(ds, steps, i - 1, h);
      assert Next(ds[i - 1], steps[i - 1], ds[i]);
      assert h in ds[i];
      if steps[i - 1].Link? {
        ConflictStays(ds[i - 1][h], h, steps[i - 1].text(h), ds[i][h]);
      } else {
        ConflictStays(ds[i - 1][h], h, "", ds[i][h]);
      }
    }
  }

  /** The file is the hook with nothing set aside, or it is set aside. */
  predicate Keeps(s: Slot, e: Entry)
  {
    s == Slot(Some(e), None) || s.saved == Some(e)
  }

  lemma KeptStays(s: Slot, h: Hook, text: string, s': Slot, e: Entry)
    requires Keeps(s, e) && e.File? && !Contains(e.content, Marker(h))
    requires InstallPasses(s, h, text, s') || RemovePasses(s, h, s')
    ensures Keeps(s', e)
  {
  }

  /** A fragment taken for the user's hook is treated as one over every run of
      links and removals, finished or cut off: it is never gone. */
  lemma {:induction false} FragmentForever(ds: seq<Slots>, steps: seq<Step>, i: nat, h: Hook, e: Entry)
    requires Run(ds, steps) && i <= |steps| && h in ds[0] && Keeps(ds[0][h], e)
    requires e.File? && !Contains(e.content, Marker(h))
    requires forall j :: 0 <= j < i ==> !steps[j].UserAdds?
    ensures h in ds[i] && Keeps(ds[i][h], e)
    decreases i
  {
    if i > 0 {
      FragmentForever(ds, steps, i - 1, h, e);
      assert Next(ds[i - 1], steps[i - 1], ds[i]);
      assert h in ds[i];
      KeptStays(ds[i - 1][h], h, if steps[i - 1].Link? then steps[i - 1].text(h) else "", ds[i][h], e);
    }
  }

  const SHEBANG := "#!/bin/sh\n# "

  /** The first bytes of every script, up to and with its marker. */
  function Opening(h: Hook): string
  {
    SHEBANG + Marker(h)
  }

  lemma ScriptOpens(root: string, bin: string, h: Hook)
    ensures Opening(h) <= HookText(root, bin, h)
  {
    var pre := Preamble(h);
    var rest := pre[2..] + [BinLine(h, bin)] + Epilogue(h, SavedPath(root, h));
    var tail := " \U{2014} do not edit by hand.";
    assert pre + [BinLine(h, bin)] + Epilogue(h, SavedPath(root, h)) == [pre[0], pre[1]] + rest;
    LinesTwo(pre[0], pre[1], rest);
    assert pre[0] == "#!/bin/sh" && pre[1] == "# " + Marker(h) + tail;
    OpensThere(pre[0], "# ", Marker(h), tail, Lines(rest));
    assert "#!/bin/sh" + "\n" + "# " == SHEBANG;
  }

  lemma LinesTwo(a: string, b: string, rest: seq<string>)
    ensures Lines([a, b] + rest) == a + "\n" + (b + "\n" + Lines(rest))
  {
    var ls := [a, b] + rest;
    assert ls[1..] == [b] + rest && ls[1..][1..] == rest;
  }

  lemma OpensThere(a: string, b: string, m: string, tail: string, more: string)
    ensures a + "\n" + b + m <= a + "\n" + (b + m + tail + "\n" + more)
  {
    assert a + "\n" + (b + m + tail + "\n" + more) == a + "\n" + b + m + (tail + "\n" + more);
  }

  lemma MarkerInShebang(k: nat)
    requires k < |SHEBANG| && SHEBANG[k] == 'i'
    ensures k == 4 && SHEBANG[6] == '/'
  {
  }

  /** The marker stands nowhere earlier in the opening. */
  lemma MarkerNotBefore(h: Hook, k: nat)
    requires k <= |Opening(h)| && Marker(h) <= Opening(h)[k..]
    ensures k >= |SHEBANG|
  {
    var m, open := Marker(h), Opening(h);
    assert m[0] == 'i' && m[2] == 'n';
    assert open[k] == open[k..][0] == m[0] && open[k + 2] == open[k..][2] == m[2];
    assert k < |SHEBANG| ==> open[k] == SHEBANG[k];
    assert open[6] == SHEBANG[6] == '/';
    if k < |SHEBANG| {
      MarkerInShebang(k);
    }
  }

  lemma MarkerInside(h: Hook, part: string)
    requires Opening(h) <= part
    ensures Contains(part, Marker(h))
  {
    var rest := part[|Opening(h)|..];
    assert part == SHEBANG + Marker(h) + rest;
    ContainsMiddle(SHEBANG, Marker(h), rest);
  }

  /** A text cut off before the end of its one occurrence of `m` has none. */
  lemma CutOffAvoids(head: string, m: string, part: string)
    requires part <= head + m && |part| < |head + m|
    requires forall k: nat :: k < |head| ==> !(m <= (head + m)[k..])
    ensures !Contains(part, m)
  {
    var open := head + m;
    ContainsAt(part, m);
    forall k: nat | k <= |part|
      ensures !(m <= part[k..])
    {
      assert open[k..] == part[k..] + open[|part|..];
      assert k >= |head| ==> |part[k..]| < |m|;
    }
  }

  /** A cut-off script carries its marker exactly when it was written that far. */
  lemma MarkedIff(h: Hook, text: string, part: string)
    requires Opening(h) <= text && part <= text
    ensures Contains(part, Marker(h)) <==> |part| >= |Opening(h)|
  {
    if |part| >= |Opening(h)| {
      PrefixOfPrefix(Opening(h), part, text);
      MarkerInside(h, part);
    } else {
      PrefixOfPrefix(part, Opening(h), text);
      forall k: nat | k < |SHEBANG|
        ensures !(Marker(h) <= (SHEBANG + Marker(h))[k..])
      {
        if Marker(h) <= Opening(h)[k..] {
          MarkerNotBefore(h, k);
        }
      }
      CutOffAvoids(SHEBANG, Marker(h), part);
    }
  }

  lemma PrefixOfPrefix(a: string, b: string, whole: string)
    requires a <= whole && b <= whole && |a| <= |b|
    ensures a <= b
  {
  }

  /** A later link, or a later removal, does what it would do if the write had
      not been cut off. `again` is any later script. */
  predicate Recovers(s: Slot, torn: Slot, h: Hook, again: string)
  {
    && Goes(torn, h, Fine) && Installed(torn, h, again) == Installed(s, h, again)
    && Removed(torn, h) == Removed(Installed(s, h, again), h)
  }

  /** The write of a hook was cut off, from any state in which it could begin.
      Both commands recover exactly when it had got past the marker. Otherwise
      they take the fragment for the user's hook, and a removal leaves it. If a
      hook is set aside, whether it was just now or earlier, that is a conflict.
      If none is, over an empty place or innsegl's own hook, a link sets the
      fragment aside, and the removal after it puts the fragment back. */
  lemma RecoversIff(s: Slot, h: Hook, text: string, part: string, again: string)
    requires !Blocked(s) && !Conflict(s, h) && part <= text
    requires Opening(h) <= text && Opening(h) <= again
    ensures var aside := SetAside(s, h);
            var torn := Written(aside, part);
            && (Recovers(s, torn, h, again) <==> |part| >= |Opening(h)|)
            && (Recovers(s, torn, h, again) && Foreign(s, h) ==> Removed(torn, h) == s)
            && (!Recovers(s, torn, h, again) ==> Foreign(torn, h) && Removed(torn, h) == torn)
            && (!Recovers(s, torn, h, again) && aside.saved.Some? ==> Conflict(torn, h))
            && (!Recovers(s, torn, h, again) && aside.saved.None? ==>
                  Goes(torn, h, Fine) && Installed(torn, h, again).saved == torn.at &&
                  Removed(Installed(torn, h, again), h) == torn)
  {
    MarkedIff(h, text, part);
    MarkerInside(h, again);
  }

  // ---------------------------------------------------- what install does

  predicate Ready(d: Slots, f: Faults, h: Hook)
  {
    h in d && Goes(d[h], h, f(h))
  }

  /** The hooks in `hs` installed, every other one as it was. */
  function InstalledOn(d: Slots, text: Texts, hs: seq<Hook>): (r: Slots)
  {
    map h | h in d :: if h in hs then Installed(d[h], h, text(h)) else d[h]
  }

  lemma InstalledOnCons(d: Slots, text: Texts, h: Hook, hs: seq<Hook>)
    requires h in d && h !in hs
    ensures InstalledOn(d[h := Installed(d[h], h, text(h))], text, hs) ==
            InstalledOn(d, text, [h] + hs)
  {}

  lemma ReadyElsewhere(d: Slots, f: Faults, h: Hook, s: Slot, g: Hook)
    requires g != h
    ensures Ready(d[h := s], f, g) <==> Ready(d, f, g)
  {
  }

  lemma ReadyRest(d: Slots, f: Faults, hs: seq<Hook>, s: Slot)
    requires hs != [] && Distinct(hs)
    ensures Distinct(hs[1..])
    ensures forall j :: 0 <= j < |hs[1..]| ==> (Ready(d[hs[0] := s], f, hs[1..][j]) <==> Ready(d, f, hs[j + 1]))
  {
    forall j | 0 <= j < |hs[1..]|
      ensures Ready(d[hs[0] := s], f, hs[1..][j]) <==> Ready(d, f, hs[j + 1])
    {
      ReadyElsewhere(d, f, hs[0], s, hs[1..][j]);
    }
  }

  lemma EachStep(d: Slots, text: Texts, f: Faults, hs: seq<Hook>)
    requires hs != [] && Ready(d, f, hs[0])
    ensures InstallEach(d, text, f, hs) ==
            InstallEach(d[hs[0] := Installed(d[hs[0]], hs[0], text(hs[0]))], text, f, hs[1..])
  {
  }

  /** What is left when the loop stops at hook `k`, or gets past the last. */
  function StoppedAt(d: Slots, text: Texts, f: Faults, hs: seq<Hook>, k: nat): Outcome
    requires k <= |hs|
  {
    var done := InstalledOn(d, text, hs[..k]);
    if k == |hs| then Outcome(done, OK) else
    if hs[k] !in d then Outcome(done, USAGE) else
    Outcome(done[hs[k] := Try(d[hs[k]], hs[k], text(hs[k]), f(hs[k])).slot], USAGE)
  }

  lemma StoppedAtCons(d: Slots, text: Texts, f: Faults, h: Hook, rest: seq<Hook>, k: nat)
    requires h in d && k <= |rest| && h !in rest
    ensures StoppedAt(d[h := Installed(d[h], h, text(h))], text, f, rest, k) ==
            StoppedAt(d, text, f, [h] + rest, k + 1)
  {
    assert ([h] + rest)[..k + 1] == [h] + rest[..k];
    InstalledOnCons(d, text, h, rest[..k]);
    if k < |rest| {
      assert ([h] + rest)[k + 1] == rest[k];
    }
  }

  /** The loop installs the hooks in front of the first that does not go, does of
      that one what can be done, and no more. */
  lemma {:induction false} EachUpTo(d: Slots, text: Texts, f: Faults, hs: seq<Hook>, k: nat)
    requires Distinct(hs) && k <= |hs|
    requires forall j :: 0 <= j < k ==> Ready(d, f, hs[j])
    requires k < |hs| ==> !Ready(d, f, hs[k])
    ensures InstallEach(d, text, f, hs) == StoppedAt(d, text, f, hs, k)
  {
    if k == 0 {
      assert InstalledOn(d, text, []) == d;
    } else {
      var h, rest := hs[0], hs[1..];
      var s := Installed(d[h], h, text(h));
      EachStep(d, text, f, hs);
      ReadyRest(d, f, hs, s);
      EachUpTo(d[h := s], text, f, rest, k - 1);
      assert hs == [h] + rest;
      StoppedAtCons(d, text, f, h, rest, k - 1);
    }
  }

  lemma AllManaged(h: Hook)
    ensures h in MANAGED && Distinct(MANAGED)
  {
    assert MANAGED[0] == PrepareCommitMsg && MANAGED[1] == PostCommit && MANAGED[2] == ReferenceTransaction;
  }

  /** The index of the first hook that does not go; 3 with none. */
  function FirstStuck(d: Slots, f: Faults): (k: nat)
    ensures k <= 3
    ensures forall j :: 0 <= j < k ==> Ready(d, f, MANAGED[j])
    ensures k < 3 ==> MANAGED[k] in d && !Ready(d, f, MANAGED[k])
  {
    if !Ready(d, f, PrepareCommitMsg) then 0 else
    if !Ready(d, f, PostCommit) then 1 else
    if !Ready(d, f, ReferenceTransaction) then 2 else 3
  }

  /** Without a conflict, install writes the hooks in front of the first that
      does not go. */
  lemma InstallOutcome(d: Slots, root: string, bin: string, f: Faults)
    requires !AnyConflict(d)
    ensures Install(d, root, Some(bin), f) == StoppedAt(d, Scripts(root, bin), f, MANAGED, FirstStuck(d, f))
  {
    AllManaged(PostCommit);
    EachUpTo(d, Scripts(root, bin), f, MANAGED, FirstStuck(d, f));
  }

  lemma InstallRefusedIff(d: Slots, root: string, bin: Option<string>, f: Faults)
    ensures Install(d, root, bin, f).code == OK <==>
            !AnyConflict(d) && bin.Some? && forall h :: h in d ==> Goes(d[h], h, f(h))
  {
    if !AnyConflict(d) && bin.Some? {
      InstallOutcome(d, root, bin.value, f);
    }
    forall h | h in d && FirstStuck(d, f) == 3
      ensures Ready(d, f, h)
    {
      AllManaged(h);
      var j :| 0 <= j < 3 && MANAGED[j] == h;
    }
  }

  /** innsegl's hook with this text is already there. */
  predicate UpToDate(s: Slot, h: Hook, text: string)
  {
    Managed(s, h) && s.at.value.content == text
  }

  lemma InstalledSameIff(s: Slot, h: Hook, root: string, bin: string)
    requires WellMarked(s, h) && !Blocked(s) && !Conflict(s, h)
    ensures Installed(s, h, HookText(root, bin, h)) == s <==> UpToDate(s, h, HookText(root, bin, h))
  {
    ScriptHasMarker(h, bin, SavedPath(root, h));
    ManagedIsNotUsers(s, h);
  }

  /** The hook that stopped the install is as it was: it could not be read; or it
      is a user's and could not be moved; or it is innsegl's or missing and nothing
      was written; or what was written is what was there. */
  predicate Untouched(s: Slot, h: Hook, text: string, f: Fault)
  {
    || Blocked(s)
    || (Foreign(s, h) && f.NoMove?)
    || (!Foreign(s, h) && f == NoWrite(None))
    || (f.NoWrite? && f.wrote.Some? && UpToDate(s, h, Part(text, f.wrote.value)))
  }

  lemma UntouchedIff(s: Slot, h: Hook, text: string, f: Fault)
    requires WellMarked(s, h) && !Conflict(s, h) && !Goes(s, h, f)
    ensures Try(s, h, text, f).slot == s <==> Untouched(s, h, text, f)
  {
    ManagedIsNotUsers(s, h);
  }

  predicate AllUpToDate(d: Slots, root: string, bin: string, hs: seq<Hook>)
  {
    forall h :: h in hs ==> h in d && UpToDate(d[h], h, HookText(root, bin, h))
  }

  lemma InstalledOnSameIff(d: Slots, root: string, bin: string, hs: seq<Hook>)
    requires forall h :: h in hs ==> h in d && WellMarked(d[h], h) && !Blocked(d[h]) && !Conflict(d[h], h)
    ensures InstalledOn(d, Scripts(root, bin), hs) == d <==> AllUpToDate(d, root, bin, hs)
  {
    var d' := InstalledOn(d, Scripts(root, bin), hs);
    forall h | h in hs
      ensures d'[h] == d[h] <==> UpToDate(d[h], h, HookText(root, bin, h))
    {
      InstalledSameIff(d[h], h, root, bin);
    }
    if AllUpToDate(d, root, bin, hs) {
      assert forall h :: h in d ==> d'[h] == d[h];
    }
  }

  /** The hooks in front of `k` are up to date, and hook `k` is untouched. */
  predicate NothingDone(d: Slots, root: string, bin: string, f: Faults, k: nat)
    requires k < 3
  {
    var h := MANAGED[k];
    AllUpToDate(d, root, bin, MANAGED[..k]) && h in d && Untouched(d[h], h, HookText(root, bin, h), f(h))
  }

  lemma StoppedSameIff(d: Slots, root: string, bin: string, f: Faults, k: nat)
    requires !AnyConflict(d) && forall h :: h in d ==> WellMarked(d[h], h)
    requires k < 3 && k == FirstStuck(d, f)
    ensures StoppedAt(d, Scripts(root, bin), f, MANAGED, k).slots == d <==> NothingDone(d, root, bin, f, k)
  {
    var hs, h := MANAGED[..k], MANAGED[k];
    AllManaged(h);
    forall g | g in hs
      ensures g in d && !Blocked(d[g]) && !Conflict(d[g], g) && g != h
    {
      var j :| 0 <= j < |hs| && hs[j] == g;
      assert MANAGED[j] == g && Ready(d, f, MANAGED[j]);
    }
    InstalledOnSameIff(d, root, bin, hs);
    UntouchedIff(d[h], h, HookText(root, bin, h), f(h));
    var done := InstalledOn(d, Scripts(root, bin), hs);
    assert done[h] == d[h];
    UpdateSameIff(d, done, h, Try(d[h], h, HookText(root, bin, h), f(h)).slot);
  }

  lemma UpdateSameIff(d: Slots, done: Slots, h: Hook, s: Slot)
    requires h in d && done.Keys == d.Keys && done[h] == d[h]
    ensures done[h := s] == d <==> done == d && s == d[h]
  {
    if done[h := s] == d {
      assert d[h] == s;
      assert done[h := s] == done;
    }
    if done == d && s == d[h] {
      assert done[h := s] == done;
    }
  }

  /** "A refusal leaves the repository exactly as it was" holds exactly when every
      hook goes, or the hooks in front of the first that does not are up to date
      and that one is not touched. */
  lemma RefusalKeepsAllIff(d: Slots, root: string, bin: string, f: Faults)
    requires !AnyConflict(d) && forall h :: h in d ==> WellMarked(d[h], h)
    ensures (Install(d, root, Some(bin), f).code != OK ==> Install(d, root, Some(bin), f).slots == d) <==>
            FirstStuck(d, f) == 3 || NothingDone(d, root, bin, f, FirstStuck(d, f))
  {
    InstallOutcome(d, root, bin, f);
    if FirstStuck(d, f) < 3 {
      StoppedSameIff(d, root, bin, f, FirstStuck(d, f));
    }
  }

  /** The inputs that show it: a prepare-commit-msg that is still to be written,
      and behind it a post-commit that cannot be read, or that can be read and not
      written. */
  lemma LaterHookIsNotChecked(root: string, bin: string, f: Faults, post: Slot)
    requires Blocked(post) || (!Conflict(post, PostCommit) && f(PostCommit).NoWrite?)
    requires f(PrepareCommitMsg).Fine?
    ensures var d: Slots := map[PrepareCommitMsg := Slot(None, None), PostCommit := post,
                                ReferenceTransaction := Slot(None, None)];
            && !AnyConflict(d)
            && Install(d, root, Some(bin), f).code != OK && Install(d, root, Some(bin), f).slots != d
  {
    var d: Slots := map[PrepareCommitMsg := Slot(None, None), PostCommit := post,
                        ReferenceTransaction := Slot(None, None)];
    assert !AnyConflict(d);
    assert FirstStuck(d, f) == 1;
    InstallOutcome(d, root, bin, f);
    assert MANAGED[..1] == [PrepareCommitMsg];
    assert Install(d, root, Some(bin), f).slots[PrepareCommitMsg].at.Some?;
  }

  lemma InstalledAgain(s: Slot, h: Hook, root: string, bin: string)
    requires !Blocked(s) && !Conflict(s, h)
    ensures var s' := Installed(s, h, HookText(root, bin, h));
            !Blocked(s') && !Conflict(s', h) && Managed(s', h) && Installed(s', h, HookText(root, bin, h)) == s'
  {
    ScriptHasMarker(h, bin, SavedPath(root, h));
  }

  lemma InstallOkOutcome(d: Slots, root: string, bin: string, f: Faults)
    requires Install(d, root, Some(bin), f).code == OK
    ensures forall h :: h in d ==> !Blocked(d[h]) && !Conflict(d[h], h) && Goes(d[h], h, f(h))
    ensures forall h :: h in d ==>
              h in Install(d, root, Some(bin), f).slots &&
              Install(d, root, Some(bin), f).slots[h] == Installed(d[h], h, HookText(root, bin, h))
    ensures Install(d, root, Some(bin), f).slots.Keys == d.Keys
  {
    InstallOkIs(d, root, bin, f);
    forall h | h in d
      ensures h in MANAGED
    {
      AllManaged(h);
    }
  }

  lemma {:induction false} InstallEachCode(d: Slots, text: Texts, f: Faults, hs: seq<Hook>)
    ensures InstallEach(d, text, f, hs).code == 0 || InstallEach(d, text, f, hs).code == 2
    decreases |hs|
  {
    if hs != [] && hs[0] in d {
      var a := Try(d[hs[0]], hs[0], text(hs[0]), f(hs[0]));
      InstallEachCode(d[hs[0] := a.slot], text, f, hs[1..]);
    }
  }

  /** The three execute bits. */
  predicate Executable(mode: int)
  {
    mode % 2 == 1 && mode / 8 % 2 == 1 && mode / 64 % 2 == 1
  }

  /** What a completed install leaves at a hook: its script, written by innsegl,
      with mode 0755, or with the mode of innsegl's own hook that was there; and
      the hook that was there aside, if it was another's. */
  predicate LeftInstalled(s: Slot, s': Slot, h: Hook, text: string)
  {
    && s'.at.Some? && s'.at.value.File? && s'.at.value.content == text && s'.at.value.author == Innsegl
    && s'.at.value.mode == (if s.at.Some? && s.at.value.File? && Contains(s.at.value.content, Marker(h))
                            then s.at.value.mode else 7 * 64 + 5 * 8 + 5)
    && s'.saved == if s.at.Some? && s.at.value.File? && !Contains(s.at.value.content, Marker(h)) then s.at else s.saved
  }

  lemma InstallLeaves(d: Slots, root: string, bin: string, f: Faults, h: Hook)
    requires Install(d, root, Some(bin), f).code == 0
    ensures h in d && h in Install(d, root, Some(bin), f).slots
    ensures LeftInstalled(d[h], Install(d, root, Some(bin), f).slots[h], h,
                          Script(h, bin, root + "/" + Name(h) + ".innsegl-previous"))
  {
    InstallOkOutcome(d, root, bin, f);
    AllManaged(h);
  }

  /** So all three hooks can be run exactly when none of innsegl's own that was
      there lacked the bits. */
  lemma HooksCanRunIff(d: Slots, root: string, bin: string, f: Faults)
    requires Install(d, root, Some(bin), f).code == 0
    ensures var d' := Install(d, root, Some(bin), f).slots;
            (forall h :: h in d' ==> d'[h].at.Some? && d'[h].at.value.File? && Executable(d'[h].at.value.mode)) <==>
            (forall h :: h in d && d[h].at.Some? && d[h].at.value.File? &&
                         Contains(d[h].at.value.content, Marker(h)) ==>
               Executable(d[h].at.value.mode))
  {
    var d' := Install(d, root, Some(bin), f).slots;
    forall h: Hook
      ensures h in d && h in d'
      ensures LeftInstalled(d[h], d'[h], h, Script(h, bin, root + "/" + Name(h) + ".innsegl-previous"))
    {
      InstallLeaves(d, root, bin, f, h);
    }
    assert Executable(7 * 64 + 5 * 8 + 5);
  }

  lemma InstallOkIs(d: Slots, root: string, bin: string, f: Faults)
    requires Install(d, root, Some(bin), f).code == OK
    ensures Install(d, root, Some(bin), f) == Outcome(InstalledOn(d, Scripts(root, bin), MANAGED), OK)
    ensures forall h :: h in d ==> Goes(d[h], h, f(h))
  {
    InstallRefusedIff(d, root, Some(bin), f);
    InstallOutcome(d, root, bin, f);
    AllGo(d, f);
  }

  lemma AllGo(d: Slots, f: Faults)
    requires forall h :: h in d ==> Goes(d[h], h, f(h))
    ensures FirstStuck(d, f) == 3 && MANAGED[..3] == MANAGED
  {
  }

  /** Installing twice is installing once. */
  lemma InstallTwice(d: Slots, root: string, bin: string, f: Faults)
    requires Install(d, root, Some(bin), f).code == OK
    ensures Install(Install(d, root, Some(bin), f).slots, root, Some(bin), f) == Install(d, root, Some(bin), f)
  {
    var d' := Install(d, root, Some(bin), f).slots;
    InstallOkOutcome(d, root, bin, f);
    forall h | h in d'
      ensures Goes(d'[h], h, f(h)) && !Conflict(d'[h], h) && Installed(d'[h], h, HookText(root, bin, h)) == d'[h]
    {
      InstalledAgain(d[h], h, root, bin);
    }
    InstallRefusedIff(d', root, Some(bin), f);
    InstallOkOutcome(d', root, bin, f);
    var d'' := Install(d', root, Some(bin), f).slots;
    assert d'' == d' by {
      assert forall h :: h in d' ==> d''[h] == d'[h];
    }
  }

  // ------------------------------------------------------ what remove does

  function RemovedOn(d: Slots, hs: seq<Hook>): (r: Slots)
  {
    map h | h in d :: if h in hs then Removed(d[h], h) else d[h]
  }

  lemma RemovedOnCons(d: Slots, h: Hook, hs: seq<Hook>)
    requires h in d && h !in hs
    ensures RemovedOn(d[h := Removed(d[h], h)], hs) == RemovedOn(d, [h] + hs)
  {}

  lemma {:induction false} RemoveEachAll(d: Slots, f: RemoveFaults, hs: seq<Hook>, removed: nat, foreign: nat)
    requires Distinct(hs) && forall j :: 0 <= j < |hs| ==> hs[j] in d
    requires RemoveEach(d, f, hs, removed, foreign).code == OK
    ensures RemoveEach(d, f, hs, removed, foreign).slots == RemovedOn(d, hs)
    decreases |hs|
  {
    if hs == [] {
      assert RemovedOn(d, hs) == d;
    } else {
      var h, rest := hs[0], hs[1..];
      assert hs[0] in d;
      assert TryRemove(d[h], h, f(h)) == Attempt(Removed(d[h], h), true);
      assert forall j :: 0 <= j < |rest| ==> rest[j] == hs[j + 1] && rest[j] != h;
      RemoveEachAll(d[h := Removed(d[h], h)], f, rest,
                    if Managed(d[h], h) then removed + 1 else removed,
                    if Foreign(d[h], h) then foreign + 1 else foreign);
      RemovedOnCons(d, h, rest);
      assert hs == [h] + rest;
    }
  }

  /** With every hook readable and no operation failing, each hook of innsegl's
      gives way to what was saved, no other is touched, and it is an error exactly
      when there were other hooks and none of innsegl's. */
  lemma {:induction false} RemoveEachIs(d: Slots, f: RemoveFaults, hs: seq<Hook>, removed: nat, foreign: nat)
    requires Distinct(hs) && forall j :: 0 <= j < |hs| ==> hs[j] in d && !Blocked(d[hs[j]]) && f(hs[j]).Free?
    ensures RemoveEach(d, f, hs, removed, foreign).slots == RemovedOn(d, hs)
    ensures RemoveEach(d, f, hs, removed, foreign).code ==
            if removed == 0 && (foreign > 0 || exists h :: h in hs && Foreign(d[h], h)) &&
               !(exists h :: h in hs && Managed(d[h], h)) then 2 else 0
    decreases |hs|
  {
    if hs == [] {
      assert RemovedOn(d, hs) == d;
    } else {
      var h, rest := hs[0], hs[1..];
      var d' := d[h := Removed(d[h], h)];
      assert hs[0] in d;
      assert TryRemove(d[h], h, f(h)) == Attempt(Removed(d[h], h), true);
      assert forall j :: 0 <= j < |rest| ==> rest[j] == hs[j + 1] && rest[j] != h && d'[rest[j]] == d[rest[j]];
      RemoveEachIs(d', f, rest, if Managed(d[h], h) then removed + 1 else removed,
                   if Foreign(d[h], h) then foreign + 1 else foreign);
      RemovedOnCons(d, h, rest);
      assert hs == [h] + rest;
      assert forall g :: g in hs <==> g == h || g in rest;
      assert forall g :: g in rest ==> d'[g] == d[g];
    }
  }

  lemma RemoveIs(d: Slots, f: RemoveFaults)
    requires forall h :: h in d ==> !Blocked(d[h]) && f(h).Free?
    ensures Remove(d, f).slots == map h | h in d :: Removed(d[h], h)
    ensures Remove(d, f).code ==
            if (exists h :: h in d && Foreign(d[h], h)) && !(exists h :: h in d && Managed(d[h], h)) then 2 else 0
  {
    forall h: Hook
      ensures h in d && h in MANAGED
    {
      AllManaged(h);
    }
    RemoveEachIs(d, f, MANAGED, 0, 0);
  }

  lemma RoundTripSlot(s: Slot, h: Hook, root: string, bin: string)
    requires !Blocked(s) && !Conflict(s, h)
    ensures Removed(Installed(s, h, HookText(root, bin, h)), h) == s <==> s.saved.None? && !Managed(s, h)
  {
    ScriptHasMarker(h, bin, SavedPath(root, h));
  }

  lemma RoundTripAt(d: Slots, root: string, bin: string, f: Faults, g: RemoveFaults, h: Hook)
    requires Install(d, root, Some(bin), f).code == OK && h in d
    requires Remove(Install(d, root, Some(bin), f).slots, g).code == OK
    ensures var d'' := Remove(Install(d, root, Some(bin), f).slots, g).slots;
            h in d'' && (d''[h] == d[h] <==> d[h].saved.None? && !Managed(d[h], h))
  {
    var d' := Install(d, root, Some(bin), f).slots;
    InstallOkOutcome(d, root, bin, f);
    AllManaged(h);
    assert forall j :: 0 <= j < |MANAGED| ==> MANAGED[j] in d';
    RemoveEachAll(d', g, MANAGED, 0, 0);
    RoundTripSlot(d[h], h, root, bin);
  }

  /** Install then remove, both without an error, give back the hook entries,
      modes included, exactly when nothing was saved and no hook was innsegl's
      before. */
  lemma InstallThenRemoveIff(d: Slots, root: string, bin: string, f: Faults, g: RemoveFaults)
    requires Install(d, root, Some(bin), f).code == OK
    requires Remove(Install(d, root, Some(bin), f).slots, g).code == OK
    ensures Remove(Install(d, root, Some(bin), f).slots, g).slots == d <==>
            forall h :: h in d ==> d[h].saved.None? && !Managed(d[h], h)
  {
    var d'' := Remove(Install(d, root, Some(bin), f).slots, g).slots;
    forall h | h in d
      ensures h in d'' && (d''[h] == d[h] <==> d[h].saved.None? && !Managed(d[h], h))
    {
      RoundTripAt(d, root, bin, f, g, h);
    }
    assert forall h :: h in d'' ==> h in d by {
      assert forall h: Hook :: h in d by { forall h: Hook ensures h in d { AllManaged(h); } }
    }
    if forall h :: h in d ==> d[h].saved.None? && !Managed(d[h], h) {
      assert d'' == d;
    }
  }

  // ------------------------------------------------------ session re-links

  /** A re-link that installed the hooks leaves the next one nothing to do,
      exactly when the binary's path can be read back out of them; in every
      case the next one changes no file. */
  lemma EnsureTwice(d: Slots, root: string, bin: string, f: Faults)
    requires Ensure(d, root, Some(bin), f).1
    ensures var d' := Ensure(d, root, Some(bin), f).0.slots;
            && Ensure(d', root, Some(bin), f).0 == Outcome(d', OK)
            && (!Ensure(d', root, Some(bin), f).1 <==> '\n' !in bin && !Contains(bin, TOKEN))
  {
    var d' := Ensure(d, root, Some(bin), f).0.slots;
    InstallOkOutcome(d, root, bin, f);
    forall h | h in d'
      ensures Managed(d'[h], h)
      ensures ScriptBin(d'[h].at.value.content) == bin <==> '\n' !in bin && !Contains(bin, TOKEN)
    {
      InstalledAgain(d[h], h, root, bin);
      ReadsBackIff(h, bin, SavedPath(root, h));
    }
    assert PostCommit in d';
    assert NamesBinary(d', bin) <==> '\n' !in bin && !Contains(bin, TOKEN);
    InstallTwice(d, root, bin, f);
  }
}
