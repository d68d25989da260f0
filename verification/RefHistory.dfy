/**
 Whole runs of a repository under the ref backstop: agent transactions pass
 the hook, the operator's do not (operator decision 6 in hookreftx.go), tags
 and remote-tracking refs and every other ref move freely, and objects and
 grafts appear at any time.
 */
module RefHistory {
  import opened Options
  import opened Text
  import opened Signature
  import opened CommitGraph
  import opened GitRecord
  import opened GitView
  import opened RefBackstop

  datatype Update = Update(oldId: string, newId: string, ref: string)

  /** What git asks of the characters of a ref name: no ASCII space, no control
      character. */
  predicate RefName(ref: string)
  {
    ref != "" && forall i :: 0 <= i < |ref| ==> ref[i] > ' ' && ref[i] != '\U{7f}'
  }

  predicate WellFormed(u: Update)
  {
    Solid(u.oldId) && Solid(u.newId) && RefName(u.ref)
  }

  /** The line git writes to the hook for one update. */
  function Line(u: Update): string
  {
    u.oldId + " " + u.newId + " " + u.ref
  }

  function Lines(us: seq<Update>): (ls: seq<string>)
    ensures |ls| == |us| && forall i :: 0 <= i < |us| ==> ls[i] == Line(us[i])
  {
    seq(|us|, i requires 0 <= i < |us| => Line(us[i]))
  }

  /** The hook reads back what git printed, the ref in as many fields as it has
      words. */
  lemma LineFields(u: Update)
    requires WellFormed(u)
    ensures Fields(Line(u)) == [u.oldId, u.newId] + Fields(u.ref)
    ensures Solid(u.ref) ==> Fields(Line(u)) == [u.oldId, u.newId, u.ref]
  {
    FieldsTwo(u.oldId, u.newId, u.ref);
    if Solid(u.ref) {
      FieldsLast(u.ref);
    }
  }

  predicate SetsBranch(u: Update)
  {
    IsBranch(u.ref) && !NullId(u.newId)
  }

  /** The hook acts on the update. */
  predicate Checked(u: Update)
  {
    |Fields(u.ref)| == 1 && IsBranch(Fields(u.ref)[0]) && !IsZeroObjectId(u.newId)
  }

  lemma RelevantIff(u: Update)
    requires WellFormed(u)
    ensures Relevant(Line(u)) <==> Checked(u)
    ensures Checked(u) ==> Fields(Line(u))[1] == u.newId
  {
    LineFields(u);
  }

  /** The hook passes over a branch update exactly when git deletes the branch, or
      a space, as Go counts them, stands in the branch's name in front of another
      character. */
  lemma CheckedIff(u: Update)
    requires IsBranch(u.ref)
    ensures Checked(u) <==> !NullId(u.newId) && Unbroken(u.ref)
  {
    HeadsSolid();
    WordBegins("refs/heads/", u.ref);
    assert u.ref[0] == "refs/heads/"[0];
    OneField(u.ref);
    ZeroIsNull(u.newId);
  }

  lemma HeadsSolid()
    ensures Solid("refs/heads/")
  {
  }

  /** The hook's verdict, said about the updates themselves. */
  lemma AdmitsUpdates(r: Repo, rev: RevList, us: seq<Update>)
    requires forall u :: u in us ==> WellFormed(u)
    ensures Admits(r, rev, Lines(us)) <==> forall u :: u in us && Checked(u) ==> Passed(r, rev, u.newId)
  {
    forall i | 0 <= i < |us|
      ensures Relevant(Lines(us)[i]) <==> Checked(us[i])
      ensures Checked(us[i]) ==> Fields(Lines(us)[i])[1] == us[i].newId
    {
      assert us[i] in us;
      RelevantIff(us[i]);
    }
    if Admits(r, rev, Lines(us)) {
      forall u | u in us && Checked(u)
        ensures Passed(r, rev, u.newId)
      {
        var i :| 0 <= i < |us| && us[i] == u;
        assert Lines(us)[i] in Lines(us);
      }
    }
  }

  /** The refs after a transaction: a zero id deletes, any other sets. */
  function Moved(r: Repo, us: seq<Update>): map<string, Commit>
  {
    if us == [] then r.refs else
    var n := |us| - 1;
    var refs := Moved(r, us[..n]);
    var u := us[n];
    if NullId(u.newId) then refs - {u.ref} else
    if u.newId in r.objects then refs[u.ref := r.objects[u.newId]] else refs
  }

  lemma {:induction false} MovedValue(r: Repo, us: seq<Update>, ref: string)
    requires ref in Moved(r, us)
    ensures || (ref in r.refs && Moved(r, us)[ref] == r.refs[ref])
            || exists u :: u in us && u.ref == ref && !NullId(u.newId) && u.newId in r.objects &&
                           Moved(r, us)[ref] == r.objects[u.newId]
  {
    if us != [] {
      var n := |us| - 1;
      var u := us[n];
      assert u in us;
      if ref != u.ref || (!NullId(u.newId) && u.newId !in r.objects) {
        MovedValue(r, us[..n], ref);
      }
    }
  }

  /** What a run of the hook meets: its environment, git's answers, and whether
      its input can be read. */
  datatype Hook = Hook(env: map<string, string>, rev: RevList, readFails: bool)

  datatype Step =
    | Store(id: string, commit: Commit)
    | Graft(grafts: map<string, seq<Commit>>)
    | Operator(updates: seq<Update>)
    | Agent(updates: seq<Update>, hook: Hook, code: int)

  /** What git requires before it runs the hook. */
  predicate Prepared(r: Repo, us: seq<Update>)
  {
    forall u :: u in us ==> WellFormed(u) && (NullId(u.newId) || u.newId in r.objects)
  }

  /** The hook, run in an agent's session, exits with this code. */
  ghost predicate Verdict(r: Repo, us: seq<Update>, hook: Hook, code: int)
  {
    && AgentSession(hook.env) && Answers(r, hook.rev)
    && code == ExitCode(r, hook.rev, ["prepared"], hook.env, Lines(us), hook.readFails)
  }

  /** Which is 0 exactly when every update it acts on passes. */
  lemma VerdictUpdates(r: Repo, us: seq<Update>, hook: Hook, code: int)
    requires Prepared(r, us) && Verdict(r, us, hook, code)
    ensures code == 0 || code == 1
    ensures code == 0 <==> !hook.readFails && forall u :: u in us && Checked(u) ==> Passed(r, hook.rev, u.newId)
  {
    VerdictIff(r, hook.rev, ["prepared"], hook.env, Lines(us), hook.readFails);
    AdmitsUpdates(r, hook.rev, us);
  }

  ghost predicate Next(r: Repo, s: Step, r': Repo)
  {
    match s
    case Store(id, c) =>
      && ValidId(id) && (id in r.objects <==> c in r.objects.Values) && (id in r.objects ==> r.objects[id] == c)
      && (forall i :: 0 <= i < |c.parents| ==> c.parents[i] in r.objects.Values)
      && r' == r.(objects := r.objects[id := c])
    case Graft(grafts) =>
      && (forall id, i :: id in grafts && 0 <= i < |grafts[id]| ==> grafts[id][i] in r.objects.Values)
      && r' == r.(grafts := grafts)
    case Operator(us) =>
      Prepared(r, us) && r' == r.(refs := Moved(r, us))
    case Agent(us, hook, code) =>
      && Prepared(r, us) && Verdict(r, us, hook, code)
      && r' == if code == 0 then r.(refs := Moved(r, us)) else r
  }

  ghost predicate Run(rs: seq<Repo>, ss: seq<Step>)
  {
    && |rs| == |ss| + 1
    && Closed(rs[0])
    && forall i :: 0 <= i < |ss| ==> Next(rs[i], ss[i], rs[i + 1])
  }

  // ----------------------------------------------------------- the theorem

  ghost predicate FromRef(r: Repo, c: Commit)
  {
    exists ref :: ref in r.refs && c in Ancestors(r.refs[ref])
  }

  ghost predicate FromTagOrRemote(r: Repo, c: Commit)
  {
    exists ref :: ref in r.refs && (IsTag(ref) || IsRemote(ref)) && c in Ancestors(r.refs[ref])
  }

  ghost predicate SetByOperator(r: Repo, s: Step, c: Commit)
  {
    s.Operator? && exists u :: u in s.updates && u.newId in r.objects && c in Ancestors(r.objects[u.newId])
  }

  /** Reachable from an initial ref, from a tag or remote ref at some point so
      far, or from a value the operator gave some ref. */
  ghost predicate Exempt(rs: seq<Repo>, ss: seq<Step>, i: nat, c: Commit)
    requires i < |rs| == |ss| + 1
  {
    || FromRef(rs[0], c)
    || (exists j :: 0 <= j <= i && FromTagOrRemote(rs[j], c))
    || (exists j :: 0 <= j < i && SetByOperator(rs[j], ss[j], c))
  }

  /** An admitted branch update that reaches the commit. */
  ghost predicate Brings(r: Repo, s: Step, u: Update, c: Commit)
  {
    && s.Agent? && s.code == 0 && u in s.updates && SetsBranch(u)
    && u.newId in r.objects && c in Ancestors(r.objects[u.newId])
  }

  /** One such was judged while something stood in for a commit that it or a
      branch, a tag or a remote ref reaches. */
  ghost predicate JudgedBent(r: Repo, s: Step, c: Commit)
  {
    exists u :: Brings(r, s, u, c) && !Straight(r, r.objects[u.newId])
  }

  ghost predicate Bent(rs: seq<Repo>, ss: seq<Step>, i: nat, c: Commit)
    requires i < |rs| == |ss| + 1
  {
    exists j :: 0 <= j < i && JudgedBent(rs[j], ss[j], c)
  }

  /** One such was not judged: its branch's name is more than one word. */
  ghost predicate NotJudged(r: Repo, s: Step, c: Commit)
  {
    exists u :: Brings(r, s, u, c) && !Unbroken(u.ref)
  }

  ghost predicate Overlooked(rs: seq<Repo>, ss: seq<Step>, i: nat, c: Commit)
    requires i < |rs| == |ss| + 1
  {
    exists j :: 0 <= j < i && NotJudged(rs[j], ss[j], c)
  }

  /** Signed, or misread by the hook, or none of the hook's business, or let in
      when git read something else, or on a branch the hook overlooks. */
  ghost predicate Accounted(rs: seq<Repo>, ss: seq<Step>, i: nat, c: Commit)
    requires i < |rs| == |ss| + 1
  {
    || Signed(c.text) || (Misread(c.text) && c in rs[i].objects.Values)
    || Exempt(rs, ss, i, c) || Bent(rs, ss, i, c) || Overlooked(rs, ss, i, c)
  }

  lemma ObjectsStay(r: Repo, s: Step, r': Repo, c: Commit)
    requires Next(r, s, r') && c in r.objects.Values
    ensures c in r'.objects.Values
  {
    var id :| id in r.objects && r.objects[id] == c;
    assert id in r'.objects && r'.objects[id] == c;
  }

  lemma AccountedLater(rs: seq<Repo>, ss: seq<Step>, i: nat, c: Commit)
    requires i + 1 < |rs| == |ss| + 1 && Next(rs[i], ss[i], rs[i + 1])
    requires Accounted(rs, ss, i, c)
    ensures Accounted(rs, ss, i + 1, c)
  {
    if c in rs[i].objects.Values {
      ObjectsStay(rs[i], ss[i], rs[i + 1], c);
    }
    if j :| 0 <= j <= i && FromTagOrRemote(rs[j], c) {
      assert 0 <= j <= i + 1;
    }
    if j :| 0 <= j < i && SetByOperator(rs[j], ss[j], c) {
      assert 0 <= j < i + 1;
    }
    if j :| 0 <= j < i && JudgedBent(rs[j], ss[j], c) {
      assert 0 <= j < i + 1;
    }
    if j :| 0 <= j < i && NotJudged(rs[j], ss[j], c) {
      assert 0 <= j < i + 1;
    }
  }

  /** A commit an admitted branch update reaches is stored, and is signed or
      misread, or was already reachable from a branch, a tag or a remote ref. */
  lemma AdmittedReach(r: Repo, us: seq<Update>, hook: Hook, u: Update, c: Commit)
    requires Closed(r) && Prepared(r, us) && Verdict(r, us, hook, 0)
    requires u in us && SetsBranch(u) && u.newId in r.objects && c in Ancestors(r.objects[u.newId])
    requires Straight(r, r.objects[u.newId]) && Unbroken(u.ref)
    ensures c in r.objects.Values && (Signed(c.text) || Misread(c.text) || Reached(r, c))
  {
    VerdictUpdates(r, us, hook, 0);
    CheckedIff(u);
    assert Clean(r, u.newId);
    StraightNew(r, r.objects[u.newId], c);
    ReadItself(r, c);
    TakenAsSignedIff(c.text);
  }

  lemma ReachedBy(r: Repo, c: Commit)
    requires Reached(r, c)
    ensures FromTagOrRemote(r, c) || exists b :: b in r.refs && IsBranch(b) && c in Ancestors(r.refs[b])
  {
  }

  lemma {:induction false} RunAccounts(rs: seq<Repo>, ss: seq<Step>, i: nat, b: string, c: Commit)
    requires Run(rs, ss) && i < |rs|
    requires b in rs[i].refs && IsBranch(b) && c in Ancestors(rs[i].refs[b])
    ensures Accounted(rs, ss, i, c)
    decreases i, 0
  {
    if i == 0 {
      InitialAccounts(rs, ss, b, c);
    } else if b in rs[i - 1].refs && rs[i].refs[b] == rs[i - 1].refs[b] {
      RunAccounts(rs, ss, i - 1, b, c);
      assert Next(rs[i - 1], ss[i - 1], rs[i]);
      AccountedLater(rs, ss, i - 1, c);
    } else {
      MovedAccounts(rs, ss, i - 1, b, c);
    }
  }

  lemma InitialAccounts(rs: seq<Repo>, ss: seq<Step>, b: string, c: Commit)
    requires |rs| == |ss| + 1 && b in rs[0].refs && c in Ancestors(rs[0].refs[b])
    ensures Accounted(rs, ss, 0, c)
  {
    assert FromRef(rs[0], c);
  }

  lemma {:induction false} MovedAccounts(rs: seq<Repo>, ss: seq<Step>, i: nat, b: string, c: Commit)
    requires Run(rs, ss) && i < |ss|
    requires b in rs[i + 1].refs && IsBranch(b) && c in Ancestors(rs[i + 1].refs[b])
    requires b in rs[i].refs ==> rs[i + 1].refs[b] != rs[i].refs[b]
    ensures Accounted(rs, ss, i + 1, c)
    decreases i, 2
  {
    assert Next(rs[i], ss[i], rs[i + 1]);
    var u := NewValue(rs[i], ss[i], rs[i + 1], b);
    if ss[i].Operator? {
      OperatorAccounts(rs, ss, i, u, c);
    } else {
      AgentAccounts(rs, ss, i, u, c);
    }
  }

  lemma OperatorAccounts(rs: seq<Repo>, ss: seq<Step>, i: nat, u: Update, c: Commit)
    requires |rs| == |ss| + 1 && i < |ss| && ss[i].Operator?
    requires u in ss[i].updates && u.newId in rs[i].objects && c in Ancestors(rs[i].objects[u.newId])
    ensures Accounted(rs, ss, i + 1, c)
  {
    assert SetByOperator(rs[i], ss[i], c);
  }

  /** A ref's new value is that of an update the operator made, or that was
      admitted. */
  lemma NewValue(r: Repo, s: Step, r': Repo, b: string) returns (u: Update)
    requires Next(r, s, r') && b in r'.refs && (b in r.refs ==> r'.refs[b] != r.refs[b])
    ensures s.Operator? || (s.Agent? && s.code == 0)
    ensures u in s.updates && u.ref == b && !NullId(u.newId)
    ensures u.newId in r.objects && r'.refs[b] == r.objects[u.newId]
  {
    MovedValue(r, s.updates, b);
    u :| u in s.updates && u.ref == b && !NullId(u.newId) && u.newId in r.objects &&
         r'.refs[b] == r.objects[u.newId];
  }

  lemma {:induction false} AgentAccounts(rs: seq<Repo>, ss: seq<Step>, i: nat, u: Update, c: Commit)
    requires Run(rs, ss) && i < |ss| && ss[i].Agent? && ss[i].code == 0
    requires u in ss[i].updates && SetsBranch(u) && u.newId in rs[i].objects && c in Ancestors(rs[i].objects[u.newId])
    ensures Accounted(rs, ss, i + 1, c)
    decreases i, 1
  {
    assert Next(rs[i], ss[i], rs[i + 1]);
    assert Brings(rs[i], ss[i], u, c);
    if !Straight(rs[i], rs[i].objects[u.newId]) {
      assert JudgedBent(rs[i], ss[i], c);
    } else if !Unbroken(u.ref) {
      assert NotJudged(rs[i], ss[i], c);
    } else {
      RunClosed(rs, ss, i);
      AdmittedReach(rs[i], ss[i].updates, ss[i].hook, u, c);
      ObjectsStay(rs[i], ss[i], rs[i + 1], c);
      if Reached(rs[i], c) {
        ReachedBy(rs[i], c);
        if !FromTagOrRemote(rs[i], c) {
          var b :| b in rs[i].refs && IsBranch(b) && c in Ancestors(rs[i].refs[b]);
          RunAccounts(rs, ss, i, b, c);
          AccountedLater(rs, ss, i, c);
        }
      }
    }
  }

  /** The backstop's promise over every run: each commit reachable from a
      branch is signed, or was reachable from an initial ref, from a tag or a
      remote ref at some point, or from a value the operator set -- or it is
      an unsigned commit the hook misreads, or it came in while something stood
      in for a commit the hook had to walk, or on a branch whose name is more
      than one word to the hook. */
  lemma EveryBranchCommitAccounted(rs: seq<Repo>, ss: seq<Step>, i: nat, b: string, c: Commit)
    requires Run(rs, ss) && i < |rs|
    requires b in rs[i].refs && "refs/heads/" <= b && c in Ancestors(rs[i].refs[b])
    ensures Signed(c.text) || Exempt(rs, ss, i, c) || Misread(c.text) || Bent(rs, ss, i, c) || Overlooked(rs, ss, i, c)
  {
    RunAccounts(rs, ss, i, b, c);
  }

  /** The promise as the hook's documentation makes it. */
  ghost predicate Promise(rs: seq<Repo>, ss: seq<Step>)
    requires |rs| == |ss| + 1
  {
    forall i, b, c :: 0 <= i < |rs| && b in rs[i].refs && IsBranch(b) && c in Ancestors(rs[i].refs[b]) ==>
      Signed(c.text) || Exempt(rs, ss, i, c)
  }

  /** Every commit of the run, stored at first or later, has one of these texts. */
  ghost predicate Texts(rs: seq<Repo>, ss: seq<Step>, texts: string -> bool)
    requires |rs| == |ss| + 1
  {
    && (forall id :: id in rs[0].objects ==> texts(rs[0].objects[id].text))
    && (forall i :: 0 <= i < |ss| && ss[i].Store? ==> texts(ss[i].commit.text))
  }

  lemma {:induction false} StoredTexts(rs: seq<Repo>, ss: seq<Step>, texts: string -> bool, i: nat, id: string)
    requires Run(rs, ss) && Texts(rs, ss, texts) && i < |rs| && id in rs[i].objects
    ensures texts(rs[i].objects[id].text)
    decreases i
  {
    if i > 0 {
      assert Next(rs[i - 1], ss[i - 1], rs[i]);
      if id in rs[i - 1].objects {
        StoredTexts(rs, ss, texts, i - 1, id);
      }
    }
  }

  /** Whenever the hook judges a branch update, nothing stands in for a commit it
      has to walk. */
  ghost predicate StraightRun(rs: seq<Repo>, ss: seq<Step>)
    requires |rs| == |ss| + 1
  {
    forall i, u :: 0 <= i < |ss| && ss[i].Agent? && u in ss[i].updates && SetsBranch(u) && u.newId in rs[i].objects ==>
      Straight(rs[i], rs[i].objects[u.newId])
  }

  /** Every branch an agent's transaction names is one word to the hook. */
  ghost predicate UnbrokenRun(ss: seq<Step>)
  {
    forall i, u :: 0 <= i < |ss| && ss[i].Agent? && u in ss[i].updates && SetsBranch(u) ==> Unbroken(u.ref)
  }

  lemma BranchStored(rs: seq<Repo>, ss: seq<Step>, i: nat, b: string, c: Commit) returns (id: string)
    requires Run(rs, ss) && i < |rs| && b in rs[i].refs && c in Ancestors(rs[i].refs[b])
    ensures id in rs[i].objects && rs[i].objects[id] == c
  {
    RunClosed(rs, ss, i);
    var k := IdOf(rs[i], rs[i].refs[b]);
    assert c in rs[i].objects.Values;
    id := IdOf(rs[i], c);
  }

  lemma PromiseHolds(rs: seq<Repo>, ss: seq<Step>, texts: string -> bool)
    requires Run(rs, ss) && Texts(rs, ss, texts)
    requires || (forall t :: texts(t) ==> Signed(t))
             || (StraightRun(rs, ss) && UnbrokenRun(ss) && forall t :: texts(t) ==> !Misread(t))
    ensures Promise(rs, ss)
  {
    forall i, b, c | 0 <= i < |rs| && b in rs[i].refs && IsBranch(b) && c in Ancestors(rs[i].refs[b])
      ensures Signed(c.text) || Exempt(rs, ss, i, c)
    {
      var id := BranchStored(rs, ss, i, b, c);
      StoredTexts(rs, ss, texts, i, id);
      RunAccounts(rs, ss, i, b, c);
    }
  }

  lemma Breaks(rs: seq<Repo>, ss: seq<Step>, i: nat, b: string, c: Commit)
    requires i < |rs| == |ss| + 1 && b in rs[i].refs && IsBranch(b) && c in Ancestors(rs[i].refs[b])
    requires !Signed(c.text) && !Exempt(rs, ss, i, c)
    ensures !Promise(rs, ss)
  {
  }

  lemma TwoSteps(rs: seq<Repo>, ss: seq<Step>)
    requires |rs| == 3 && |ss| == 2 && Closed(rs[0]) && Next(rs[0], ss[0], rs[1]) && Next(rs[1], ss[1], rs[2])
    ensures Run(rs, ss)
  {
  }

  lemma OneText(rs: seq<Repo>, ss: seq<Step>, t: string)
    requires |rs| == |ss| + 1 && forall id :: id in rs[0].objects ==> rs[0].objects[id].text == t
    requires forall i :: 0 <= i < |ss| && ss[i].Store? ==> ss[i].commit.text == t
    ensures Texts(rs, ss, x => x == t)
  {
  }

  const BRANCH := "refs/heads/b"

  lemma BranchOnly(b: string)
    requires b == BRANCH || b == "refs/heads/a"
    ensures IsBranch(b) && RefName(b) && Unbroken(b)
  {
  }

  lemma BranchOnlyKind(b: string)
    requires IsBranch(b)
    ensures !IsTag(b) && !IsRemote(b)
  {
    assert b[5] == "refs/heads/"[5] == 'h' && "refs/tags/"[5] == 't' && "refs/remotes/"[5] == 'r';
  }

  /** git's answers: this text for this one id, an error for every other. */
  function Only(id: string, text: string): RevList
  {
    x => if x == id then Some(text) else None
  }

  function Session(rev: RevList): Hook
  {
    Hook(map[AGENT_SESSION := "1"], rev, false)
  }

  lemma CanAnswer(r: Repo, id: string) returns (rev: RevList)
    requires Closed(r) && id in r.objects && forall c :: c in NewCommits(r, r.objects[id]) ==> Readable(r, c)
    ensures Answers(r, rev) && rev(id).Some?
  {
    var c := r.objects[id];
    var text, recs := CanPrint(r, NewCommits(r, c));
    assert Prints(r, c, text);
    rev := Only(id, text);
  }

  /** A session in which every update the hook acts on passes is let through. */
  lemma SessionPasses(r: Repo, us: seq<Update>, rev: RevList)
    requires Answers(r, rev) && forall u :: u in us ==> WellFormed(u)
    requires forall u :: u in us && Checked(u) ==> Passed(r, rev, u.newId)
    ensures Verdict(r, us, Session(rev), 0)
  {
    var hook := Session(rev);
    assert hook.env[AGENT_SESSION] == "1" && |"1"| == 1;
    AdmitsUpdates(r, rev, us);
    VerdictIff(r, rev, ["prepared"], hook.env, Lines(us), false);
  }

  /** An update git can answer for, whose new commits are all taken as signed, is
      admitted. */
  lemma OneAdmitted(r: Repo, u: Update) returns (hook: Hook)
    requires Closed(r) && WellFormed(u) && Clean(r, u.newId)
    requires forall c :: c in NewCommits(r, r.objects[u.newId]) ==> Readable(r, c)
    ensures Verdict(r, [u], hook, 0)
  {
    var rev := CanAnswer(r, u.newId);
    SessionPasses(r, [u], rev);
    hook := Session(rev);
  }

  lemma OneMoves(r: Repo, u: Update)
    requires u.newId in r.objects && !NullId(u.newId)
    ensures Moved(r, [u]) == r.refs[u.ref := r.objects[u.newId]]
  {
    assert [u][..0] == [] && Moved(r, []) == r.refs;
  }

  /** An update the hook does not act on is admitted, whatever it adds. */
  lemma NotCheckedAdmitted(r: Repo, u: Update) returns (hook: Hook)
    requires WellFormed(u) && !Checked(u)
    ensures Verdict(r, [u], hook, 0)
  {
    var rev: RevList := x => None;
    SessionPasses(r, [u], rev);
    hook := Session(rev);
  }

  lemma RootClean(r: Repo, id: string)
    requires Closed(r) && id in r.objects && r.objects[id].parents == [] && Straight(r, r.objects[id])
    requires TakenAsSigned(r.objects[id].text)
    ensures Clean(r, id) && forall d :: d in NewCommits(r, r.objects[id]) ==> Readable(r, d)
  {
    var c := r.objects[id];
    NoParent(c);
    forall d | d in NewCommits(r, c)
      ensures Taken(r, d) && Readable(r, d)
    {
      StraightNew(r, c, d);
      ReadItself(r, d);
    }
  }

  /** The repositories of the run: empty, the root commit stored, and put on a
      branch. */
  function RootRepos(c: Commit, b: string): seq<Repo>
  {
    var objects := map["1" := c];
    [Repo(map[], map[], map[]), Repo(objects, map[], map[]), Repo(objects, map[b := c], map[])]
  }

  lemma RootClosed(c: Commit, b: string)
    requires c.parents == []
    ensures Closed(RootRepos(c, b)[0]) && Closed(RootRepos(c, b)[1]) && Straight(RootRepos(c, b)[1], c)
  {
    NoParent(c);
    assert RootRepos(c, b)[1].objects["1"] == c;
  }

  function RootUpdate(b: string): Update
  {
    Update("0", "1", b)
  }

  /** The root commit is stored, and if the hook admits the update it goes on the
      branch. */
  lemma RootSteps(c: Commit, b: string, hook: Hook)
    requires c.parents == [] && RefName(b) && Verdict(RootRepos(c, b)[1], [RootUpdate(b)], hook, 0)
    ensures Next(RootRepos(c, b)[0], Store("1", c), RootRepos(c, b)[1])
    ensures Next(RootRepos(c, b)[1], Agent([RootUpdate(b)], hook, 0), RootRepos(c, b)[2])
  {
    var u := RootUpdate(b);
    assert u.newId[0] == '1';
    OneMoves(RootRepos(c, b)[1], u);
  }

  /** Then an unsigned text breaks the promise, with nothing standing in. */
  lemma RootRun(t: string, b: string, hook: Hook) returns (rs: seq<Repo>, ss: seq<Step>)
    requires !Signed(t) && IsBranch(b) && RefName(b)
    requires Verdict(RootRepos(Commit([], t), b)[1], [RootUpdate(b)], hook, 0)
    ensures Run(rs, ss) && Texts(rs, ss, x => x == t) && StraightRun(rs, ss) && !Promise(rs, ss)
    ensures Unbroken(b) ==> UnbrokenRun(ss)
  {
    var c := Commit([], t);
    rs := RootRepos(c, b);
    ss := [Store("1", c), Agent([RootUpdate(b)], hook, 0)];
    RootClosed(c, b);
    RootSteps(c, b, hook);
    TwoSteps(rs, ss);
    OneText(rs, ss, t);
    RootStraight(c, b, ss);
    RootNotExempt(c, b, ss);
    Breaks(rs, ss, 2, b, c);
  }

  lemma RootStraight(c: Commit, b: string, ss: seq<Step>)
    requires c.parents == [] && |ss| == 2 && ss[0].Store? && ss[1].Agent? && ss[1].updates == [RootUpdate(b)]
    ensures StraightRun(RootRepos(c, b), ss) && (Unbroken(b) ==> UnbrokenRun(ss))
  {
    RootClosed(c, b);
    assert forall u :: u in ss[1].updates ==> u == RootUpdate(b);
  }

  lemma RootNotExempt(c: Commit, b: string, ss: seq<Step>)
    requires |ss| == 2 && !ss[0].Operator? && !ss[1].Operator? && IsBranch(b)
    ensures !Exempt(RootRepos(c, b), ss, 2, c)
  {
    var rs := RootRepos(c, b);
    BranchOnlyKind(b);
    assert rs[0].refs == map[] && rs[1].refs == map[];
    assert forall ref :: ref in rs[2].refs ==> ref == b;
    assert forall j :: 0 <= j <= 2 ==> !FromTagOrRemote(rs[j], c);
  }

  /** A run over one misread commit, with nothing standing in for anything and a
      branch of one word, that breaks the promise. */
  lemma MisreadRun(t: string) returns (rs: seq<Repo>, ss: seq<Step>)
    requires Misread(t)
    ensures Run(rs, ss) && Texts(rs, ss, x => x == t) && StraightRun(rs, ss) && UnbrokenRun(ss) && !Promise(rs, ss)
  {
    var c := Commit([], t);
    TakenAsSignedIff(t);
    BranchOnly(BRANCH);
    RootClosed(c, BRANCH);
    RootClean(RootRepos(c, BRANCH)[1], "1");
    var hook := OneAdmitted(RootRepos(c, BRANCH)[1], RootUpdate(BRANCH));
    rs, ss := RootRun(t, BRANCH, hook);
  }

  /** A run over one unsigned commit, with nothing standing in for anything, that
      breaks the promise on any branch whose name is more than one word. */
  lemma SpacedRun(t: string, b: string) returns (rs: seq<Repo>, ss: seq<Step>)
    requires !Signed(t) && IsBranch(b) && RefName(b) && !Unbroken(b)
    ensures Run(rs, ss) && Texts(rs, ss, x => x == t) && StraightRun(rs, ss) && !Promise(rs, ss)
  {
    var u := RootUpdate(b);
    assert u.newId[0] == '1';
    CheckedIff(u);
    var hook := NotCheckedAdmitted(RootRepos(Commit([], t), b)[1], u);
    rs, ss := RootRun(t, b, hook);
  }

  /** Such a name: git takes a no-break space, and Go splits at it. */
  const SPACED := "refs/heads/a\U{a0}b"

  lemma SpacedName()
    ensures IsBranch(SPACED) && RefName(SPACED) && !Unbroken(SPACED)
  {
    assert IsSpace(SPACED[12]) && !IsSpace(SPACED[13]);
  }

  ghost predicate PromisedFor(texts: string -> bool, straight: bool, unbroken: bool)
  {
    forall rs: seq<Repo>, ss ::
      Run(rs, ss) && Texts(rs, ss, texts) && (straight ==> StraightRun(rs, ss)) && (unbroken ==> UnbrokenRun(ss)) ==>
        Promise(rs, ss)
  }

  lemma TextsWiden(rs: seq<Repo>, ss: seq<Step>, t: string, texts: string -> bool)
    requires |rs| == |ss| + 1 && Texts(rs, ss, x => x == t) && texts(t)
    ensures Texts(rs, ss, texts)
  {
  }

  /** With no operator step, nothing standing in for a commit, every branch one
      word, no commit misread, and nothing unsigned behind the initial refs or any
      tag or remote ref, no branch ever reaches an unsigned commit. */
  lemma AllSignedForever(rs: seq<Repo>, ss: seq<Step>, i: nat, b: string, c: Commit)
    requires Run(rs, ss) && i < |rs|
    requires forall j :: 0 <= j < |ss| ==> !ss[j].Operator?
    requires StraightRun(rs, ss) && UnbrokenRun(ss) && Texts(rs, ss, t => !Misread(t))
    requires forall d :: FromRef(rs[0], d) ==> Signed(d.text)
    requires forall j, d :: 0 <= j < |rs| && FromTagOrRemote(rs[j], d) ==> Signed(d.text)
    requires b in rs[i].refs && "refs/heads/" <= b && c in Ancestors(rs[i].refs[b])
    ensures Signed(c.text)
  {
    PromiseHolds(rs, ss, t => !Misread(t));
    assert IsBranch(b);
    if Exempt(rs, ss, i, c) {
      ExemptSigned(rs, ss, i, c);
    }
  }

  lemma ExemptSigned(rs: seq<Repo>, ss: seq<Step>, i: nat, c: Commit)
    requires i < |rs| == |ss| + 1 && Exempt(rs, ss, i, c)
    requires forall j :: 0 <= j < |ss| ==> !ss[j].Operator?
    requires forall d :: FromRef(rs[0], d) ==> Signed(d.text)
    requires forall j, d :: 0 <= j < |rs| && FromTagOrRemote(rs[j], d) ==> Signed(d.text)
    ensures Signed(c.text)
  {
  }

  // ------------------------------------------------- an object replaced

  /** Three unsigned commits: one on a branch, one on top of it, and one on top
      of that. */
  function Bottom(t: string): Commit { Commit([], t) }
  function Middle(t: string): Commit { Commit([Bottom(t)], t) }
  function Top(t: string): Commit { Commit([Middle(t)], t) }

  function ThreeObjects(t: string): map<string, Commit>
  {
    map["1" := Bottom(t), "2" := Middle(t), "3" := Top(t)]
  }

  /** The bottom one is on a branch; then it is replaced by the top one, so that
      git finds the middle one below the branch; then the middle one is put on
      a branch. */
  function ReplacedRepos(t: string): seq<Repo>
  {
    var refs := map["refs/heads/a" := Bottom(t)];
    var replaced := refs["refs/replace/1" := Top(t)];
    [Repo(ThreeObjects(t), refs, map[]), Repo(ThreeObjects(t), replaced, map[]),
     Repo(ThreeObjects(t), replaced[BRANCH := Middle(t)], map[])]
  }

  lemma ThreeTexts(t: string)
    ensures forall id :: id in ThreeObjects(t) ==> ThreeObjects(t)[id].text == t
  {
  }

  lemma ThreeAncestors(t: string)
    ensures Ancestors(Bottom(t)) == {Bottom(t)} && Ancestors(Middle(t)) == {Middle(t), Bottom(t)}
    ensures Ancestors(Top(t)) == {Top(t), Middle(t), Bottom(t)}
    ensures Bottom(t) != Middle(t) && Middle(t) != Top(t) && Bottom(t) != Top(t)
  {
    NoParent(Bottom(t));
    SingleParent(Middle(t), Bottom(t));
    SingleParent(Top(t), Middle(t));
    assert |Bottom(t).parents| == 0 && |Middle(t).parents| == 1;
    assert Middle(t).parents[0] == Bottom(t) && Top(t).parents[0] == Middle(t);
  }

  lemma ThreeClosed(t: string, refs: map<string, Commit>)
    requires forall ref :: ref in refs ==> refs[ref] in {Bottom(t), Middle(t), Top(t)}
    ensures Closed(Repo(ThreeObjects(t), refs, map[]))
  {
    ThreeAncestors(t);
    var objects := ThreeObjects(t);
    assert objects["1"] == Bottom(t) && objects["2"] == Middle(t) && objects["3"] == Top(t);
    assert objects.Values == {Bottom(t), Middle(t), Top(t)};
  }

  lemma ReplacedNames()
    ensures REPLACE + "1" == "refs/replace/1"
    ensures REPLACE + "3" != "refs/replace/1" && REPLACE + "3" != "refs/heads/a"
    ensures !IsBranch("refs/replace/1") && !Excluded("refs/replace/1")
  {
    assert (REPLACE + "3")[13] == '3' && "refs/replace/1"[13] == '1';
    assert (REPLACE + "3")[5] == 'r' && "refs/heads/a"[5] == 'h';
    assert "refs/replace/1"[5] == 'r' && "refs/heads/"[5] == 'h' && "refs/tags/"[5] == 't';
    assert "refs/replace/1"[7] == 'p' && "refs/remotes/"[7] == 'm';
  }

  lemma ReplaceRefName(ref: string)
    requires ref == "refs/replace/1"
    ensures RefName(ref) && Solid(ref) && !IsBranch(ref)
  {
    assert ref[5] == 'r' && "refs/heads/"[5] == 'h';
  }

  lemma SolidNotChecked(u: Update)
    requires Solid(u.ref) && !IsBranch(u.ref)
    ensures !Checked(u) && !SetsBranch(u)
  {
    FieldsLast(u.ref);
  }

  lemma ReplaceUpdate(ref: string) returns (u: Update)
    requires ref == "refs/replace/1"
    ensures u == Update("0", "3", ref) && WellFormed(u) && !NullId(u.newId)
    ensures !Checked(u) && !SetsBranch(u)
  {
    u := Update("0", "3", ref);
    ReplaceRefName(ref);
    SolidNotChecked(u);
    assert u.newId[0] == '3';
  }

  /** What git reads for the bottom commit is the top one. */
  lemma BottomReplaced(t: string)
    ensures Read(ReplacedRepos(t)[1], Bottom(t)) == Top(t)
  {
    var r := ReplacedRepos(t)[1];
    ThreeAncestors(t);
    ReplacedNames();
    assert r.objects["1"] == Bottom(t) && r.objects["3"] == Top(t);
    assert IdOf(r, Bottom(t)) == "1" && IdOf(r, Top(t)) == "3";
    assert Replaced(r, Top(t), DEPTH - 1) == Some(Top(t));
  }

  /** So everything below the middle commit counts as held. */
  lemma MiddleClean(t: string)
    ensures Clean(ReplacedRepos(t)[1], "2") && NewCommits(ReplacedRepos(t)[1], Middle(t)) == {}
  {
    var r := ReplacedRepos(t)[1];
    BottomReplaced(t);
    BranchOnly("refs/heads/a");
    forall c | Walked(r, Middle(t), c)
      ensures Held(r, c)
    {
      assert Middle(t) in Read(r, Bottom(t)).parents;
      WalkedOver(r, Bottom(t), Middle(t), c);
      assert r.refs["refs/heads/a"] == Bottom(t);
    }
    assert r.objects["2"] == Middle(t);
  }

  lemma ReplacedNotExempt(t: string, ss: seq<Step>)
    requires |ss| == 2 && !ss[0].Operator? && !ss[1].Operator?
    ensures !Exempt(ReplacedRepos(t), ss, 2, Middle(t))
  {
    var rs := ReplacedRepos(t);
    ThreeAncestors(t);
    ReplacedRefs(t);
    assert forall j :: 0 <= j <= 2 ==> !FromTagOrRemote(rs[j], Middle(t));
  }

  lemma ReplacedRefs(t: string)
    ensures forall j, ref :: 0 <= j <= 2 && ref in ReplacedRepos(t)[j].refs ==> !IsTag(ref) && !IsRemote(ref)
  {
    BranchOnly(BRANCH);
    BranchOnly("refs/heads/a");
    BranchOnlyKind(BRANCH);
    BranchOnlyKind("refs/heads/a");
    ReplacedNames();
  }

  /** A run over one unsigned text that breaks the promise: the hook lets a ref
      under refs/replace/ through, and then what git reads is not what is there. */
  lemma ReplacedRun(t: string) returns (rs: seq<Repo>, ss: seq<Step>)
    requires !Signed(t)
    ensures Run(rs, ss) && Texts(rs, ss, x => x == t) && UnbrokenRun(ss) && !Promise(rs, ss)
  {
    rs := ReplacedRepos(t);
    ThreeClosed(t, rs[0].refs);
    var first := ReplaceStep(t);
    var second := BranchStep(t);
    ss := [first, second];
    TwoSteps(rs, ss);
    ThreeTexts(t);
    OneText(rs, ss, t);
    ReplacedNotExempt(t, ss);
    BranchOnly(BRANCH);
    UnbrokenBoth(first, second);
    Breaks(rs, ss, 2, BRANCH, Middle(t));
  }

  lemma UnbrokenBoth(a: Step, b: Step)
    requires UnbrokenRun([a]) && UnbrokenRun([b])
    ensures UnbrokenRun([a, b])
  {
    assert [a][0] == a && [b][0] == b;
  }

  lemma ReplaceStep(t: string) returns (s: Step)
    ensures s.Agent? && UnbrokenRun([s]) && Next(ReplacedRepos(t)[0], s, ReplacedRepos(t)[1])
  {
    var r := ReplacedRepos(t)[0];
    var u := ReplaceUpdate("refs/replace/1");
    var hook := NotCheckedAdmitted(r, u);
    OneMoves(r, u);
    s := Agent([u], hook, 0);
  }

  lemma BranchStep(t: string) returns (s: Step)
    ensures s.Agent? && UnbrokenRun([s]) && Next(ReplacedRepos(t)[1], s, ReplacedRepos(t)[2])
  {
    var r, u := ReplacedRepos(t)[1], Update("0", "2", BRANCH);
    BranchOnly(BRANCH);
    ThreeClosed(t, r.refs);
    MiddleClean(t);
    var hook := OneAdmitted(r, u);
    assert u.newId[0] == '2';
    OneMoves(r, u);
    s := Agent([u], hook, 0);
  }

  /** The promise is kept in every run over commits of these texts exactly when
      all of them are signed, or nothing stands in for a commit the hook walks,
      every branch is one word, and none of the texts is misread. */
  lemma PromiseIff(texts: string -> bool, straight: bool, unbroken: bool)
    ensures PromisedFor(texts, straight, unbroken) <==>
            || (forall t :: texts(t) ==> Signed(t))
            || (straight && unbroken && forall t :: texts(t) ==> !Misread(t))
  {
    if (forall t :: texts(t) ==> Signed(t)) || (straight && unbroken && forall t :: texts(t) ==> !Misread(t)) {
      forall rs: seq<Repo>, ss | Run(rs, ss) && Texts(rs, ss, texts) && (straight ==> StraightRun(rs, ss)) &&
                                 (unbroken ==> UnbrokenRun(ss))
        ensures Promise(rs, ss)
      {
        PromiseHolds(rs, ss, texts);
      }
    } else {
      var rs, ss := BrokenRun(texts, straight, unbroken);
    }
  }

  lemma BrokenRun(texts: string -> bool, straight: bool, unbroken: bool) returns (rs: seq<Repo>, ss: seq<Step>)
    requires exists t :: texts(t) && !Signed(t)
    requires straight && unbroken ==> exists t :: texts(t) && Misread(t)
    ensures Run(rs, ss) && Texts(rs, ss, texts) && !Promise(rs, ss)
    ensures (straight ==> StraightRun(rs, ss)) && (unbroken ==> UnbrokenRun(ss))
  {
    var t :| texts(t) && !Signed(t);
    if !unbroken {
      SpacedName();
      rs, ss := SpacedRun(t, SPACED);
    } else if straight {
      t :| texts(t) && Misread(t);
      rs, ss := MisreadRun(t);
    } else {
      rs, ss := ReplacedRun(t);
    }
    TextsWiden(rs, ss, t, texts);
  }

  lemma {:induction false} MovedStored(r: Repo, us: seq<Update>, ref: string)
    requires Closed(r) && ref in Moved(r, us)
    ensures Moved(r, us)[ref] in r.objects.Values
  {
    MovedValue(r, us, ref);
  }

  lemma StepClosed(r: Repo, s: Step, r': Repo)
    requires Closed(r) && Next(r, s, r')
    ensures Closed(r')
  {
    if s.Store? {
      StoreClosed(r, s.id, s.commit, r');
    } else if s.Operator? || s.Agent? {
      forall ref | ref in r'.refs
        ensures r'.refs[ref] in r'.objects.Values
      {
        if r'.refs != r.refs {
          MovedStored(r, s.updates, ref);
        }
      }
    }
  }

  /** The repository stays closed, so the hook can always be run. */
  lemma {:induction false} RunClosed(rs: seq<Repo>, ss: seq<Step>, i: nat)
    requires Run(rs, ss) && i < |rs|
    ensures Closed(rs[i])
    decreases i
  {
    if i > 0 {
      RunClosed(rs, ss, i - 1);
      assert Next(rs[i - 1], ss[i - 1], rs[i]);
      StepClosed(rs[i - 1], ss[i - 1], rs[i]);
    }
  }

  lemma StoreClosed(r: Repo, id: string, c: Commit, r': Repo)
    requires Closed(r) && Next(r, Store(id, c), r')
    ensures Closed(r')
  {
    forall v | v in r.objects.Values
      ensures v in r'.objects.Values
    {
      ObjectsStay(r, Store(id, c), r', v);
    }
    assert r'.objects[id] == c;
    forall k, d | k in r'.objects && d in Ancestors(r'.objects[k])
      ensures d in r'.objects.Values
    {
      if k == id {
        if d != c {
          var i :| 0 <= i < |c.parents| && d in Ancestors(c.parents[i]);
          var p :| p in r.objects && r.objects[p] == c.parents[i];
        }
      } else {
        assert k in r.objects && r.objects[k] == r'.objects[k];
      }
    }
  }

  // --------------------------------------------------------- all or nothing

  /** No update after number `k` names its ref. */
  predicate LastWord(us: seq<Update>, k: nat)
  {
    k < |us| && forall j :: k < j < |us| ==> us[j].ref != us[k].ref
  }

  lemma {:induction false} MovedLast(r: Repo, us: seq<Update>, k: nat)
    requires Prepared(r, us) && LastWord(us, k)
    ensures var u := us[k];
            if NullId(u.newId) then u.ref !in Moved(r, us)
            else u.newId in r.objects && u.ref in Moved(r, us) && Moved(r, us)[u.ref] == r.objects[u.newId]
  {
    var n := |us| - 1;
    assert us[n] in us && us[k] in us;
    if k < n {
      assert forall u :: u in us[..n] ==> u in us;
      MovedLast(r, us[..n], k);
    }
  }

  lemma {:induction false} MovedElsewhere(r: Repo, us: seq<Update>, ref: string)
    requires forall u :: u in us ==> u.ref != ref
    ensures ref in Moved(r, us) <==> ref in r.refs
    ensures ref in r.refs ==> Moved(r, us)[ref] == r.refs[ref]
  {
    if us != [] {
      assert us[|us| - 1] in us;
      MovedElsewhere(r, us[..|us| - 1], ref);
    }
  }

  /** One update the hook acts on that does not pass, anywhere among them, and no
      ref moves at all; otherwise each ref has the value of the last update that
      names it, and the others have theirs. */
  lemma AllOrNothing(r: Repo, us: seq<Update>, hook: Hook, code: int, r': Repo)
    requires Next(r, Agent(us, hook, code), r')
    ensures hook.readFails || (exists u :: u in us && Checked(u) && !Passed(r, hook.rev, u.newId)) ==> r' == r
    ensures forall u :: u in us && "refs/heads/" <= u.ref && Unbroken(u.ref) &&
                        (exists c :: c in u.newId && c != '0') ==>
              Passed(r, hook.rev, u.newId) || r' == r
    ensures !hook.readFails && (forall u :: u in us && Checked(u) ==> Passed(r, hook.rev, u.newId)) ==>
              forall k: nat :: LastWord(us, k) && !NullId(us[k].newId) ==>
                us[k].newId in r.objects && us[k].ref in r'.refs && r'.refs[us[k].ref] == r.objects[us[k].newId]
    ensures !hook.readFails && (forall u :: u in us && Checked(u) ==> Passed(r, hook.rev, u.newId)) ==>
              forall k: nat :: LastWord(us, k) && NullId(us[k].newId) ==> us[k].ref !in r'.refs
    ensures forall ref :: (forall u :: u in us ==> u.ref != ref) ==>
              (ref in r'.refs <==> ref in r.refs) && (ref in r.refs ==> r'.refs[ref] == r.refs[ref])
  {
    VerdictUpdates(r, us, hook, code);
    forall u | u in us && "refs/heads/" <= u.ref && Unbroken(u.ref) && exists c :: c in u.newId && c != '0'
      ensures Checked(u)
    {
      CheckedIff(u);
    }
    forall k: nat | LastWord(us, k)
      ensures NullId(us[k].newId) ==> us[k].ref !in Moved(r, us)
      ensures !NullId(us[k].newId) ==>
                us[k].newId in r.objects && us[k].ref in Moved(r, us) &&
                Moved(r, us)[us[k].ref] == r.objects[us[k].newId]
    {
      MovedLast(r, us, k);
    }
    forall ref | forall u :: u in us ==> u.ref != ref
      ensures ref in Moved(r, us) <==> ref in r.refs
      ensures ref in r.refs ==> Moved(r, us)[ref] == r.refs[ref]
    {
      MovedElsewhere(r, us, ref);
    }
  }
}
