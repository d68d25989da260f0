/**
 writeMessageKeyFile (cmd/innsegl/gateway.go): gateway replicas, running as one
 non-root user, publish a derived key as one file. Each reads the path, writes
 a temporary file created with mode 0400, and renames it into place. A file of
 mode 0400 that is already there cannot be opened for writing again, so opening
 the temporary file takes it. Replicas interleave at every system call, a write
 reaches the file piece by piece, and any replica may stop at any point and
 start again.
 */
module KeyFile {
  import opened Options

  type Bytes = seq<int>

  /** Where a replica is in writeMessageKeyFile. */
  datatype PC =
    | Start
    | SawNothing
    | Writing(n: nat)
    | Written
    | RenameFailed
    | Finished
    | Failed

  /** The key file, the temporary file, and the replicas. */
  datatype State = State(path: Option<Bytes>, tmp: Option<Bytes>, pcs: map<nat, PC>)

  datatype Event =
    | Read(i: nat)
    | Open(i: nat)
    | Write(i: nat, m: nat)
    | Close(i: nat)
    | Rename(i: nat, ioError: bool)
    | Cleanup(i: nat)
    | Stop(i: nat)
    | Restart(i: nat)

  predicate Enabled(keys: map<nat, Bytes>, s: State, e: Event)
  {
    && e.i in s.pcs && e.i in keys
    && match e
       case Read(i) => s.pcs[i] == Start
       case Open(i) => s.pcs[i] == SawNothing
       case Write(i, m) => s.pcs[i].Writing? && s.pcs[i].n <= m <= |keys[i]| && s.tmp.Some?
       case Close(i) => s.pcs[i] == Writing(|keys[i]|)
       case Rename(i, _) => s.pcs[i] == Written
       case Cleanup(i) => s.pcs[i] == RenameFailed
       case Stop(i) => true
       case Restart(i) => s.pcs[i] == Finished || s.pcs[i] == Failed
  }

  function Next(keys: map<nat, Bytes>, s: State, e: Event): State
    requires Enabled(keys, s, e)
  {
    match e
    case Read(i) =>
      if s.path.None? then s.(pcs := s.pcs[i := SawNothing]) else
      s.(pcs := s.pcs[i := if s.path.value == keys[i] then Finished else Failed])
    case Open(i) =>
      if s.tmp.Some? then s.(pcs := s.pcs[i := Failed]) else
      s.(tmp := Some([]), pcs := s.pcs[i := Writing(0)])
    case Write(i, m) => s.(tmp := Some(keys[i][..m]), pcs := s.pcs[i := Writing(m)])
    case Close(i) => s.(pcs := s.pcs[i := Written])
    case Rename(i, ioError) =>
      if ioError || s.tmp.None? then s.(pcs := s.pcs[i := RenameFailed]) else
      State(s.tmp, None, s.pcs[i := Finished])
    case Cleanup(i) => s.(tmp := None, pcs := s.pcs[i := Failed])
    case Stop(i) => s.(pcs := s.pcs[i := Failed])
    case Restart(i) => s.(pcs := s.pcs[i := Start])
  }

  function Init(keys: map<nat, Bytes>): State
  {
    State(None, None, map i | i in keys :: Start)
  }

  ghost predicate Run(keys: map<nat, Bytes>, ss: seq<State>, es: seq<Event>)
  {
    && |ss| == |es| + 1
    && forall k :: 0 <= k < |es| ==> Enabled(keys, ss[k], es[k]) && ss[k + 1] == Next(keys, ss[k], es[k])
  }

  // ----------------------------------------------------------- the invariant

  /** The replica holds the temporary file. */
  predicate Holds(pc: PC)
  {
    pc.Writing? || pc.Written? || pc.RenameFailed?
  }

  predicate OneHolder(s: State)
  {
    forall i, j :: i in s.pcs && j in s.pcs && Holds(s.pcs[i]) && Holds(s.pcs[j]) ==> i == j
  }

  /** The holder's temporary file has what it has written so far. */
  predicate HolderWrote(keys: map<nat, Bytes>, s: State, i: nat)
    requires i in s.pcs && i in keys
  {
    match s.pcs[i]
    case Writing(n) => n <= |keys[i]| && s.tmp == Some(keys[i][..n])
    case Written => s.tmp == Some(keys[i])
    case RenameFailed => s.tmp == Some(keys[i])
    case _ => true
  }

  /** The key file is absent, or some replica's whole key. */
  predicate WholeKey(keys: map<nat, Bytes>, s: State)
  {
    s.path.Some? ==> exists i :: i in keys && keys[i] == s.path.value
  }

  predicate Inv(keys: map<nat, Bytes>, s: State)
  {
    && s.pcs.Keys == keys.Keys
    && OneHolder(s)
    && (forall i :: i in s.pcs && i in keys ==> HolderWrote(keys, s, i))
    && WholeKey(keys, s)
  }

  /** Only the holder touches the temporary file, and only an absent one can
      be taken. */
  lemma TmpSteps(keys: map<nat, Bytes>, s: State, e: Event)
    requires Inv(keys, s) && Enabled(keys, s, e) && !Holds(s.pcs[e.i])
    ensures Next(keys, s, e).tmp == s.tmp || s.tmp.None?
    ensures Holds(Next(keys, s, e).pcs[e.i]) ==> s.tmp.None?
  {}

  lemma HoldersKept(keys: map<nat, Bytes>, s: State, e: Event)
    requires Inv(keys, s) && Enabled(keys, s, e)
    ensures OneHolder(Next(keys, s, e))
  {
    var s' := Next(keys, s, e);
    assert s'.pcs == s.pcs[e.i := s'.pcs[e.i]];
    if !Holds(s.pcs[e.i]) {
      TmpSteps(keys, s, e);
      assert s.tmp.None? ==> forall j :: j in s.pcs && j in keys ==> HolderWrote(keys, s, j) && !Holds(s.pcs[j]);
    }
  }

  lemma WroteKept(keys: map<nat, Bytes>, s: State, e: Event, j: nat)
    requires Inv(keys, s) && Enabled(keys, s, e) && j in keys
    ensures j in Next(keys, s, e).pcs && HolderWrote(keys, Next(keys, s, e), j)
  {
    assert HolderWrote(keys, s, j);
    if j == e.i {
      assert keys[j][..|keys[j]|] == keys[j];
    } else if Holds(s.pcs[j]) {
      assert !Holds(s.pcs[e.i]);
      TmpSteps(keys, s, e);
    }
  }

  /** The path changes only when a replica renames its whole key onto it. */
  lemma PathSteps(keys: map<nat, Bytes>, s: State, e: Event)
    requires Inv(keys, s) && Enabled(keys, s, e)
    ensures Next(keys, s, e).path == s.path || Next(keys, s, e).path == Some(keys[e.i])
  {
    assert HolderWrote(keys, s, e.i);
  }

  lemma NextKeeps(keys: map<nat, Bytes>, s: State, e: Event)
    requires Inv(keys, s) && Enabled(keys, s, e)
    ensures Inv(keys, Next(keys, s, e))
  {
    HoldersKept(keys, s, e);
    PathSteps(keys, s, e);
    forall j | j in keys
      ensures j in Next(keys, s, e).pcs && HolderWrote(keys, Next(keys, s, e), j)
    {
      WroteKept(keys, s, e, j);
    }
    assert Next(keys, s, e).pcs.Keys == s.pcs.Keys;
  }

  lemma {:induction false} RunKeeps(keys: map<nat, Bytes>, ss: seq<State>, es: seq<Event>, k: nat)
    requires Run(keys, ss, es) && Inv(keys, ss[0]) && k <= |es|
    ensures Inv(keys, ss[k])
  {
    if k > 0 {
      RunKeeps(keys, ss, es, k - 1);
      NextKeeps(keys, ss[k - 1], es[k - 1]);
    }
  }

  /** Whatever the keys: a reader never sees part of one, at any point of any
      interleaving. */
  lemma ReaderSeesWholeKey(keys: map<nat, Bytes>, ss: seq<State>, es: seq<Event>, k: nat)
    requires Run(keys, ss, es) && ss[0] == Init(keys) && k <= |es|
    ensures ss[k].path.None? || exists i :: i in keys && ss[k].path == Some(keys[i])
  {
    RunKeeps(keys, ss, es, k);
  }

  ghost predicate Agree(keys: map<nat, Bytes>)
  {
    forall i, j :: i in keys && j in keys ==> keys[i] == keys[j]
  }

  /** When the replicas derive the same key, it is published once and for all. */
  lemma {:induction false} PublishedForGood(keys: map<nat, Bytes>, ss: seq<State>, es: seq<Event>, k: nat, m: nat)
    requires Run(keys, ss, es) && ss[0] == Init(keys) && Agree(keys)
    requires k <= m <= |es| && ss[k].path.Some?
    ensures ss[m].path == ss[k].path
    decreases m
  {
    if k < m {
      PublishedForGood(keys, ss, es, k, m - 1);
      RunKeeps(keys, ss, es, m - 1);
      PathSteps(keys, ss[m - 1], es[m - 1]);
    }
  }

  // --------------------------------------------- two keys under one key id

  ghost predicate NeverChanges(keys: map<nat, Bytes>)
  {
    forall ss: seq<State>, es: seq<Event>, k: nat, m: nat ::
      Run(keys, ss, es) && ss[0] == Init(keys) && k <= m <= |es| && ss[k].path.Some? ==> ss[m].path == ss[k].path
  }

  lemma Extend(keys: map<nat, Bytes>, ss: seq<State>, es: seq<Event>, e: Event)
    requires Run(keys, ss, es) && Enabled(keys, ss[|es|], e)
    ensures Run(keys, ss + [Next(keys, ss[|es|], e)], es + [e])
  {
    var ss', es' := ss + [Next(keys, ss[|es|], e)], es + [e];
    forall k | 0 <= k < |es'|
      ensures Enabled(keys, ss'[k], es'[k]) && ss'[k + 1] == Next(keys, ss'[k], es'[k])
    {
      assert ss'[k] == ss[k];
      assert k < |es| ==> es'[k] == es[k] && ss'[k + 1] == ss[k + 1];
    }
  }

  /** A replica that saw nothing, and finds no temporary file, publishes. */
  lemma TakesTurn(keys: map<nat, Bytes>, ss: seq<State>, es: seq<Event>, i: nat)
    returns (ss': seq<State>, es': seq<Event>)
    requires Run(keys, ss, es) && i in keys && i in ss[|es|].pcs
    requires ss[|es|].tmp.None? && ss[|es|].pcs[i] == SawNothing
    ensures Run(keys, ss', es') && ss <= ss' && |es| <= |es'|
    ensures ss'[|es'|] == State(Some(keys[i]), None, ss[|es|].pcs[i := Finished])
  {
    var s := ss[|es|];
    ss', es' := ss, es;
    var s1 := State(s.path, Some([]), s.pcs[i := Writing(0)]);
    Extend(keys, ss', es', Open(i));
    ss', es' := ss' + [s1], es' + [Open(i)];
    var w := Write(i, |keys[i]|);
    var s2 := State(s.path, Some(keys[i]), s.pcs[i := Writing(|keys[i]|)]);
    assert keys[i][..|keys[i]|] == keys[i];
    assert Next(keys, s1, w) == s2;
    Extend(keys, ss', es', w);
    ss', es' := ss' + [s2], es' + [w];
    var s3 := State(s.path, Some(keys[i]), s.pcs[i := Written]);
    assert Next(keys, s2, Close(i)) == s3;
    Extend(keys, ss', es', Close(i));
    ss', es' := ss' + [s3], es' + [Close(i)];
    var s4 := State(Some(keys[i]), None, s.pcs[i := Finished]);
    assert Next(keys, s3, Rename(i, false)) == s4;
    Extend(keys, ss', es', Rename(i, false));
    ss', es' := ss' + [s4], es' + [Rename(i, false)];
  }

  /** Two replicas with different keys can both find nothing, and then each
      publishes its own. */
  lemma DifferentKeysOverwrite(keys: map<nat, Bytes>, i: nat, j: nat)
    requires i in keys && j in keys && keys[i] != keys[j]
    ensures !NeverChanges(keys)
  {
    var s0 := Init(keys);
    var s1 := s0.(pcs := s0.pcs[i := SawNothing]);
    var s2 := s1.(pcs := s1.pcs[j := SawNothing]);
    var ss, es := [s0], [];
    Extend(keys, ss, es, Read(i));
    ss, es := ss + [s1], es + [Read(i)];
    Extend(keys, ss, es, Read(j));
    ss, es := ss + [s2], es + [Read(j)];
    var ss1, es1 := TakesTurn(keys, ss, es, i);
    var ss2, es2 := TakesTurn(keys, ss1, es1, j);
    assert ss2[0] == ss1[0] == ss[0] == s0;
    assert ss2[|es1|] == ss1[|es1|];
    assert ss2[|es1|].path == Some(keys[i]) && ss2[|es2|].path == Some(keys[j]);
  }

  /** The published key never changes, in any run, exactly when the replicas
      agree on it. */
  lemma NeverChangesIff(keys: map<nat, Bytes>)
    ensures NeverChanges(keys) <==> Agree(keys)
  {
    if Agree(keys) {
      forall ss: seq<State>, es: seq<Event>, k: nat, m: nat |
        Run(keys, ss, es) && ss[0] == Init(keys) && k <= m <= |es| && ss[k].path.Some?
        ensures ss[m].path == ss[k].path
      {
        PublishedForGood(keys, ss, es, k, m);
      }
    } else {
      var i, j :| i in keys && j in keys && keys[i] != keys[j];
      DifferentKeysOverwrite(keys, i, j);
    }
  }

  // --------------------------------------------------- a writer that stopped

  /** A temporary file nobody holds any more. */
  predicate Abandoned(s: State)
  {
    s.tmp.Some? && forall i :: i in s.pcs ==> !Holds(s.pcs[i])
  }

  /** A temporary file left behind is never written, published or removed
      again, however often the replicas are started. */
  lemma {:induction false} AbandonedForGood(keys: map<nat, Bytes>, ss: seq<State>, es: seq<Event>, k: nat, m: nat)
    requires Run(keys, ss, es) && k <= m <= |es| && Abandoned(ss[k])
    ensures Abandoned(ss[m]) && ss[m].tmp == ss[k].tmp && ss[m].path == ss[k].path
    decreases m
  {
    if k < m {
      AbandonedForGood(keys, ss, es, k, m - 1);
      var s, e := ss[m - 1], es[m - 1];
      assert Enabled(keys, s, e) && !Holds(s.pcs[e.i]);
    }
  }

  /** One replica that opens the temporary file and stops leaves it behind. */
  lemma AbandonedAtFirst(keys: map<nat, Bytes>, i: nat) returns (ss: seq<State>, es: seq<Event>)
    requires i in keys
    ensures Run(keys, ss, es) && ss[0] == Init(keys) && Abandoned(ss[|es|]) && ss[|es|].path.None?
  {
    var s0 := Init(keys);
    var s1 := s0.(pcs := s0.pcs[i := SawNothing]);
    var s2 := State(None, Some([]), s1.pcs[i := Writing(0)]);
    ss, es := [s0], [];
    Extend(keys, ss, es, Read(i));
    ss, es := ss + [s1], es + [Read(i)];
    Extend(keys, ss, es, Open(i));
    ss, es := ss + [s2], es + [Open(i)];
    Extend(keys, ss, es, Stop(i));
    ss, es := ss + [Next(keys, s2, Stop(i))], es + [Stop(i)];
  }

  lemma ReadsAndPublishes(keys: map<nat, Bytes>, ss: seq<State>, es: seq<Event>, i: nat)
    returns (ss': seq<State>, es': seq<Event>)
    requires Run(keys, ss, es) && i in keys && i in ss[|es|].pcs
    requires ss[|es|].path.None? && ss[|es|].tmp.None? && ss[|es|].pcs[i] == Start
    ensures Run(keys, ss', es') && ss <= ss' && ss'[|es'|].path.Some?
  {
    var s := Next(keys, ss[|es|], Read(i));
    Extend(keys, ss, es, Read(i));
    ss', es' := TakesTurn(keys, ss + [s], es + [Read(i)], i);
  }

  /** With no temporary file there, any replica can publish. */
  lemma FreePublishes(keys: map<nat, Bytes>, ss: seq<State>, es: seq<Event>, i: nat)
    returns (ss': seq<State>, es': seq<Event>)
    requires Run(keys, ss, es) && i in keys && i in ss[|es|].pcs
    requires ss[|es|].path.None? && ss[|es|].tmp.None? && !Holds(ss[|es|].pcs[i])
    ensures Run(keys, ss', es') && ss <= ss' && ss'[|es'|].path.Some?
  {
    var s := ss[|es|];
    if s.pcs[i] == SawNothing {
      ss', es' := TakesTurn(keys, ss, es, i);
    } else if s.pcs[i] == Start {
      ss', es' := ReadsAndPublishes(keys, ss, es, i);
    } else {
      Extend(keys, ss, es, Restart(i));
      ss', es' := ReadsAndPublishes(keys, ss + [Next(keys, s, Restart(i))], es + [Restart(i)], i);
    }
  }

  /** The replica that holds the temporary file can publish. */
  lemma HolderPublishes(keys: map<nat, Bytes>, ss: seq<State>, es: seq<Event>, i: nat)
    returns (ss': seq<State>, es': seq<Event>)
    requires Run(keys, ss, es) && i in keys && i in ss[|es|].pcs
    requires Holds(ss[|es|].pcs[i]) && HolderWrote(keys, ss[|es|], i) && ss[|es|].path.None?
    ensures Run(keys, ss', es') && ss <= ss' && ss'[|es'|].path.Some?
  {
    ss', es' := ss, es;
    var s := ss[|es|];
    if s.pcs[i].RenameFailed? {
      Extend(keys, ss', es', Cleanup(i));
      ss', es' := FreePublishes(keys, ss' + [Next(keys, s, Cleanup(i))], es' + [Cleanup(i)], i);
    } else {
      if s.pcs[i].Writing? {
        var w := Write(i, |keys[i]|);
        Extend(keys, ss', es', w);
        s := Next(keys, s, w);
        ss', es' := ss' + [s], es' + [w];
        Extend(keys, ss', es', Close(i));
        s := Next(keys, s, Close(i));
        ss', es' := ss' + [s], es' + [Close(i)];
      }
      Extend(keys, ss', es', Rename(i, false));
      s := Next(keys, s, Rename(i, false));
      ss', es' := ss' + [s], es' + [Rename(i, false)];
    }
  }

  /** Whatever the replicas do from here on, the key is not published. */
  ghost predicate NeverPublished(keys: map<nat, Bytes>, s: State)
  {
    forall ss: seq<State>, es: seq<Event> :: Run(keys, ss, es) && ss[0] == s ==> ss[|es|].path.None?
  }

  /** At any point of any run before the key is published, it can still be
      published, by starting replicas again, exactly when no temporary file was
      left behind. */
  lemma NeverPublishedIff(keys: map<nat, Bytes>, ss: seq<State>, es: seq<Event>)
    requires Run(keys, ss, es) && ss[0] == Init(keys) && keys != map[] && ss[|es|].path.None?
    ensures NeverPublished(keys, ss[|es|]) <==> Abandoned(ss[|es|])
  {
    var s := ss[|es|];
    RunKeeps(keys, ss, es, |es|);
    if Abandoned(s) {
      forall ss': seq<State>, es': seq<Event> | Run(keys, ss', es') && ss'[0] == s
        ensures ss'[|es'|].path.None?
      {
        AbandonedForGood(keys, ss', es', 0, |es'|);
      }
    } else {
      var ss', es';
      if i :| i in s.pcs && Holds(s.pcs[i]) {
        assert HolderWrote(keys, s, i);
        ss', es' := HolderPublishes(keys, [s], [], i);
      } else {
        var i :| i in keys;
        ss', es' := FreePublishes(keys, [s], [], i);
      }
      assert Run(keys, ss', es') && ss'[0] == s && ss'[|es'|].path.Some?;
    }
  }

  // ------------------------------------------------- one call on its own

  /** writeMessageKeyFile from start to end, with no one else taking a step:
      it is a run of the protocol, an equal key is left alone, a different one
      is refused, and a new one is published whole or not at all. */
  method WriteMessageKeyFile(keys: map<nat, Bytes>, s0: State, i: nat, chunk: nat, ioError: bool)
    returns (s: State, ghost ss: seq<State>, ghost es: seq<Event>)
    requires i in keys && i in s0.pcs && s0.pcs[i] == Start && chunk > 0
    ensures Run(keys, ss, es) && ss[0] == s0 && ss[|es|] == s
    ensures s0.path.Some? ==>
              s == s0.(pcs := s0.pcs[i := if s0.path.value == keys[i] then Finished else Failed])
    ensures s0.path.None? && s0.tmp.Some? ==> s == s0.(pcs := s0.pcs[i := Failed])
    ensures s0.path.None? && s0.tmp.None? ==>
              s == if ioError then s0.(pcs := s0.pcs[i := Failed])
                   else State(Some(keys[i]), None, s0.pcs[i := Finished])
  {
    s, ss, es := s0, [s0], [];
    s, ss, es := Take(keys, s, ss, es, Read(i));
    if s.pcs[i] != SawNothing {
      return;
    }
    s, ss, es := Take(keys, s, ss, es, Open(i));
    if s.pcs[i] == Failed {
      return;
    }
    var n := 0;
    while n < |keys[i]|
      invariant 0 <= n <= |keys[i]|
      invariant Run(keys, ss, es) && ss[0] == s0 && ss[|es|] == s
      invariant s == State(None, Some(keys[i][..n]), s0.pcs[i := Writing(n)])
    {
      var m := if n + chunk < |keys[i]| then n + chunk else |keys[i]|;
      s, ss, es := Take(keys, s, ss, es, Write(i, m));
      n := m;
    }
    assert keys[i][..n] == keys[i];
    s, ss, es := Take(keys, s, ss, es, Close(i));
    s, ss, es := Take(keys, s, ss, es, Rename(i, ioError));
    if s.pcs[i] == RenameFailed {
      s, ss, es := Take(keys, s, ss, es, Cleanup(i));
    }
  }

  method Take(keys: map<nat, Bytes>, s: State, ghost ss: seq<State>, ghost es: seq<Event>, e: Event)
    returns (s': State, ghost ss': seq<State>, ghost es': seq<Event>)
    requires Run(keys, ss, es) && ss[|es|] == s && Enabled(keys, s, e)
    ensures s' == Next(keys, s, e) && Run(keys, ss', es') && ss'[0] == ss[0] && ss'[|es'|] == s'
  {
    Extend(keys, ss, es, e);
    s' := Next(keys, s, e);
    ss', es' := ss + [s'], es + [e];
  }
}
