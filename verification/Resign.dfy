/**
 `innsegl resign <range>` (cmd/innsegl/resign.go): sign the unsigned commits at
 the end of the current branch again, without rewriting published history.
 git's rebase is an input: it replays each commit under a signing program that
 signs or stops, it may drop a commit whose change is already there, and it may
 fail and be aborted.
 */
module Resign {
  import opened Options
  import opened Text
  import opened Signature
  import opened CommitGraph
  import opened LinearRange
  import opened GitRecord
  import opened GitView
  import opened RefBackstop

  const OK := 0
  const REFUSED := 33
  const FAILED := 34

  /** A rebase that stops may not have begun; then there is nothing to abort. */
  datatype RebaseOutcome =
    | Stopped(begun: bool, abortOk: bool)
    | Done(rewrite: map<Commit, Option<string>>)

  /** Every replayed text carries a signature; None is a dropped commit. */
  ghost predicate Signs(o: RebaseOutcome, s: set<Commit>)
  {
    o.Done? ==> s <= o.rewrite.Keys && forall c :: c in s && o.rewrite[c].Some? ==> Signed(o.rewrite[c].value)
  }

  ghost predicate Drops(o: RebaseOutcome, ls: seq<Commit>)
    requires o.Done? && Elems(ls) <= o.rewrite.Keys
  {
    exists c :: c in ls && o.rewrite[c].None?
  }

  /** Commits a remote-tracking branch or a tag contains. */
  function Published(refs: map<string, Commit>): set<Commit>
  {
    set r, d | r in refs && (IsTag(r) || IsRemote(r)) && d in Ancestors(refs[r]) :: d
  }

  /** A ref whose name begins with the one or the other reaches the commit. */
  ghost predicate Reaches(refs: map<string, Commit>, a: string, b: string, c: Commit)
  {
    exists r :: r in refs && (a <= r || b <= r) && c in Ancestors(refs[r])
  }

  /** Between `base` and `tip` there is a merge, a commit a tag or a
      remote-tracking branch reaches, or one to sign without the binary. */
  ghost predicate Barred(refs: map<string, Commit>, base: Commit, tip: Commit, binary: bool)
  {
    exists c :: c in Ancestors(tip) && c !in Ancestors(base) &&
                (|c.parents| > 1 || (!binary && !Signed(c.text)) || Reaches(refs, "refs/tags/", "refs/remotes/", c))
  }

  /** What tags and remote-tracking branches reach is no more than it was, and
      none of these commits. */
  ghost predicate Clear(before: map<string, Commit>, after: map<string, Commit>, commits: seq<Commit>)
  {
    forall c :: Reaches(after, "refs/tags/", "refs/remotes/", c) ==>
      Reaches(before, "refs/tags/", "refs/remotes/", c) && c !in commits
  }

  lemma PublishedIs(refs: map<string, Commit>, c: Commit)
    ensures c in Published(refs) <==> Reaches(refs, "refs/tags/", "refs/remotes/", c)
  {
  }

  lemma BranchPublishesNothing(refs: map<string, Commit>, b: string, v: Commit)
    requires IsBranch(b)
    ensures forall c :: Reaches(refs[b := v], "refs/tags/", "refs/remotes/", c) ==>
                        Reaches(refs, "refs/tags/", "refs/remotes/", c)
  {
    assert b[5] == "refs/heads/"[5] == 'h' && "refs/tags/"[5] == 't' && "refs/remotes/"[5] == 'r';
    assert !("refs/tags/" <= b) && !("refs/remotes/" <= b);
    forall c | Reaches(refs[b := v], "refs/tags/", "refs/remotes/", c)
      ensures Reaches(refs, "refs/tags/", "refs/remotes/", c)
    {
      var r :| r in refs[b := v] && ("refs/tags/" <= r || "refs/remotes/" <= r) && c in Ancestors(refs[b := v][r]);
      assert r in refs && refs[r] == refs[b := v][r];
    }
  }

  /** The commits the rebase makes, each on top of the one before. */
  function Replay(onto: Commit, todo: seq<Commit>, rewrite: map<Commit, Option<string>>): (xs: seq<Commit>)
    requires forall c :: c in todo ==> c in rewrite
  {
    if todo == [] then [] else
    var n := |todo| - 1;
    var below := Replay(onto, todo[..n], rewrite);
    assert todo[n] in todo;
    match rewrite[todo[n]]
    case None => below
    case Some(t) => below + [Commit([Tip(onto, below)], t)]
  }

  lemma LinkedSnoc(onto: Commit, xs: seq<Commit>, t: string)
    requires Linked(onto, xs)
    ensures Linked(onto, xs + [Commit([Tip(onto, xs)], t)])
  {
    var all := xs + [Commit([Tip(onto, xs)], t)];
    forall i | 0 <= i < |all|
      ensures all[i].parents == [Tip(onto, all[..i])]
    {
      if i < |xs| {
        assert all[i] == xs[i] && all[..i] == xs[..i];
      } else {
        assert all[..i] == xs;
      }
    }
  }

  lemma {:induction false} ReplayLinked(onto: Commit, todo: seq<Commit>, rewrite: map<Commit, Option<string>>)
    requires forall c :: c in todo ==> c in rewrite
    ensures Linked(onto, Replay(onto, todo, rewrite))
  {
    if todo != [] {
      var n := |todo| - 1;
      assert todo[n] in todo;
      ReplayLinked(onto, todo[..n], rewrite);
      if rewrite[todo[n]].Some? {
        LinkedSnoc(onto, Replay(onto, todo[..n], rewrite), rewrite[todo[n]].value);
      }
    }
  }

  lemma {:induction false} ReplayLength(onto: Commit, todo: seq<Commit>, rewrite: map<Commit, Option<string>>)
    requires forall c :: c in todo ==> c in rewrite
    ensures |Replay(onto, todo, rewrite)| <= |todo|
    ensures |Replay(onto, todo, rewrite)| == |todo| <==> forall c :: c in todo ==> rewrite[c].Some?
  {
    if todo != [] {
      var n := |todo| - 1;
      assert todo[n] in todo;
      assert todo == todo[..n] + [todo[n]];
      ReplayLength(onto, todo[..n], rewrite);
    }
  }

  lemma {:induction false} LowestExists(s: set<Commit>)
    requires s != {}
    ensures exists d :: d in s && forall e :: e in s ==> Height(d) <= Height(e)
    decreases |s|
  {
    var x :| x in s;
    if s == {x} {
      assert forall e :: e in s ==> e == x;
    } else {
      assert s - {x} != {};
      LowestExists(s - {x});
      var d :| d in s - {x} && forall e :: e in s - {x} ==> Height(d) <= Height(e);
      var lowest := if Height(x) < Height(d) then x else d;
      assert forall e :: e in s ==> e == x || e in s - {x};
      assert lowest in s && forall e :: e in s ==> Height(lowest) <= Height(e);
    }
  }

  /** `ls` lists what is not in `todo`, each after its parents. */
  ghost predicate Listing(ls: seq<Commit>, s: set<Commit>, todo: set<Commit>)
  {
    && todo <= s && Elems(ls) == s - todo && Distinct(ls)
    && forall i, k :: 0 <= i < |ls| && 0 <= k < |ls[i].parents| && ls[i].parents[k] in s ==> ls[i].parents[k] in ls[..i]
  }

  lemma ListingStep(ls: seq<Commit>, s: set<Commit>, todo: set<Commit>, d: Commit)
    requires Listing(ls, s, todo) && d in todo && forall e :: e in todo ==> Height(d) <= Height(e)
    ensures Listing(ls + [d], s, todo - {d})
  {
    assert d !in Elems(ls);
    DistinctSnoc(ls, d);
    var all := ls + [d];
    assert Elems(all) == Elems(ls) + {d};
    forall i, k | 0 <= i < |all| && 0 <= k < |all[i].parents| && all[i].parents[k] in s
      ensures all[i].parents[k] in all[..i]
    {
      if i < |ls| {
        assert all[i] == ls[i] && all[..i] == ls[..i];
      } else {
        assert all[..i] == ls;
        assert Height(d.parents[k]) < Height(d);
        assert d.parents[k] in Elems(ls);
      }
    }
  }

  /** `git rev-list --reverse --topo-order` of a set of commits. */
  method RevListTopo(s: set<Commit>) returns (ls: seq<Commit>)
    ensures Lists(ls, s)
  {
    ls := [];
    var todo := s;
    while todo != {}
      invariant Listing(ls, s, todo)
      decreases |todo|
    {
      LowestExists(todo);
      var d :| d in todo && forall e :: e in todo ==> Height(d) <= Height(e);
      ListingStep(ls, s, todo, d);
      ls := ls + [d];
      todo := todo - {d};
    }
  }

  /** `first` is the index of the first unsigned commit, or -1 with none. */
  ghost predicate FirstUnsignedAt(commits: seq<Commit>, first: int)
  {
    && -1 <= first < |commits|
    && (forall i :: 0 <= i < (if first < 0 then |commits| else first) ==> Signed(commits[i].text))
    && (first >= 0 ==> !Signed(commits[first].text))
  }

  lemma UnsignedMember(commits: seq<Commit>, first: int)
    requires FirstUnsignedAt(commits, first)
    ensures first >= 0 <==> exists c :: c in Elems(commits) && !Signed(c.text)
  {
    if first >= 0 {
      assert commits[first] in Elems(commits);
    }
  }

  /** The loop that finds the first commit of the range with no signature. */
  method FirstUnsigned(commits: seq<Commit>) returns (first: int)
    requires forall c :: c in commits ==> Split(c.text, '\n')[0] != ""
    ensures FirstUnsignedAt(commits, first)
  {
    for k := 0 to |commits|
      invariant forall i :: 0 <= i < k ==> Signed(commits[i].text)
    {
      assert commits[k] in commits;
      RawIsSigned(commits[k].text);
      var signed := CommitIsSigned(commits[k].text);
      if !signed {
        return k;
      }
    }
    return -1;
  }

  lemma {:induction false} ReplayAt(onto: Commit, todo: seq<Commit>, rewrite: map<Commit, Option<string>>, i: nat)
    requires forall c :: c in todo ==> c in rewrite && rewrite[c].Some?
    requires i < |todo|
    ensures |Replay(onto, todo, rewrite)| == |todo|
    ensures rewrite[todo[i]] == Some(Replay(onto, todo, rewrite)[i].text)
  {
    var n := |todo| - 1;
    assert todo[n] in todo;
    if n > 0 {
      ReplayAt(onto, todo[..n], rewrite, if i < n then i else 0);
    }
  }

  /** The range after a rebase that went through: the kept commits, then the
      replayed ones, in git's one possible order. */
  lemma AfterRebase(base: Commit, head: Commit, ls: seq<Commit>, first: nat,
                    rewrite: map<Commit, Option<string>>, after: seq<Commit>)
    requires Lists(ls, Range(base, head)) && MergeFree(Range(base, head)) && first < |ls|
    requires forall c :: c in ls ==> c in rewrite
    requires Lists(after, Range(base, Tip(Onto(base, ls, first), Replay(Onto(base, ls, first), ls[first..], rewrite))))
    ensures after == ls[..first] + Replay(Onto(base, ls, first), ls[first..], rewrite)
    ensures |after| == |ls| <==> forall c :: c in ls[first..] ==> rewrite[c].Some?
  {
    var x := Onto(base, ls, first);
    var xs := Replay(x, ls[first..], rewrite);
    ReplayLinked(x, ls[first..], rewrite);
    ExtendRange(base, head, ls, first, xs);
    ListingUnique(base, Tip(x, xs), after, ls[..first] + xs);
    ReplayLength(x, ls[first..], rewrite);
  }

  /** The new range is signed from end to end, position by position. */
  ghost predicate ResignedFrom(first: nat, commits: seq<Commit>, after: seq<Commit>, rewrite: map<Commit, Option<string>>)
  {
    && |after| == |commits| && first < |commits|
    && after[..first] == commits[..first]
    && (forall c :: c in after ==> Signed(c.text))
    && (forall i :: first <= i < |commits| ==> commits[i] in rewrite && rewrite[commits[i]] == Some(after[i].text))
  }

  lemma TextsMatch(onto: Commit, ls: seq<Commit>, first: nat, rewrite: map<Commit, Option<string>>, after: seq<Commit>)
    requires first < |ls| && forall c :: c in ls ==> c in rewrite
    requires forall c :: c in ls[first..] ==> rewrite[c].Some?
    requires after == ls[..first] + Replay(onto, ls[first..], rewrite)
    ensures |after| == |ls| && after[..first] == ls[..first]
    ensures forall i :: first <= i < |ls| ==> ls[i] in rewrite && rewrite[ls[i]] == Some(after[i].text)
  {
    var todo := ls[first..];
    ReplayLength(onto, todo, rewrite);
    forall i | first <= i < |ls|
      ensures ls[i] in rewrite && rewrite[ls[i]] == Some(after[i].text)
    {
      ReplayAt(onto, todo, rewrite, i - first);
      assert todo[i - first] == ls[i];
      assert ls[i] in ls;
    }
  }

  lemma AllResigned(ls: seq<Commit>, first: nat, rewrite: map<Commit, Option<string>>, after: seq<Commit>)
    requires Signs(Done(rewrite), Elems(ls)) && first < |ls| == |after|
    requires forall i :: 0 <= i < first ==> Signed(ls[i].text)
    requires after[..first] == ls[..first]
    requires forall i :: first <= i < |ls| ==> ls[i] in rewrite && rewrite[ls[i]] == Some(after[i].text)
    ensures ResignedFrom(first, ls, after, rewrite)
  {
    forall c | c in after
      ensures Signed(c.text)
    {
      var i :| 0 <= i < |after| && after[i] == c;
      if i < first {
        assert after[..first][i] == ls[..first][i];
      } else {
        assert ls[i] in Elems(ls);
      }
    }
  }

  /** A finished rebase: the count comes out short exactly when a commit was
      dropped; otherwise the range is the re-signed one and ends at its tip. */
  lemma RebaseResult(base: Commit, head: Commit, ls: seq<Commit>, first: nat,
                     rewrite: map<Commit, Option<string>>, after: seq<Commit>)
    requires Lists(ls, Range(base, head)) && MergeFree(Range(base, head)) && first < |ls|
    requires Signs(Done(rewrite), Elems(ls)) && forall i :: 0 <= i < first ==> Signed(ls[i].text)
    requires Lists(after, Range(base, Tip(Onto(base, ls, first), Replay(Onto(base, ls, first), ls[first..], rewrite))))
    ensures Elems(ls[first..]) <= rewrite.Keys
    ensures |after| != |ls| <==> Drops(Done(rewrite), ls[first..])
    ensures |after| == |ls| ==>
              ResignedFrom(first, ls, after, rewrite) && after[|after| - 1] ==
              Tip(Onto(base, ls, first), Replay(Onto(base, ls, first), ls[first..], rewrite))
  {
    assert forall c :: c in ls ==> c in Elems(ls);
    var onto := Onto(base, ls, first);
    AfterRebase(base, head, ls, first, rewrite, after);
    if |after| == |ls| {
      TextsMatch(onto, ls, first, rewrite, after);
      AllResigned(ls, first, rewrite, after);
    }
  }

  /** A rebase that finishes: the commits from `first` on are replayed, and the
      range is listed again. */
  method RebaseExec(base: Commit, head: Commit, ls: seq<Commit>, first: nat, rewrite: map<Commit, Option<string>>)
    returns (tip: Commit, after: seq<Commit>)
    requires Lists(ls, Range(base, head)) && MergeFree(Range(base, head)) && first < |ls|
    requires Signs(Done(rewrite), Range(base, head)) && forall i :: 0 <= i < first ==> Signed(ls[i].text)
    ensures Lists(after, Range(base, tip))
    ensures Elems(ls[first..]) <= rewrite.Keys
    ensures |after| != |ls| <==> Drops(Done(rewrite), ls[first..])
    ensures |after| == |ls| ==> ResignedFrom(first, ls, after, rewrite) && after[|after| - 1] == tip
  {
    var onto := Onto(base, ls, first);
    var todo := RevListTopo(Range(onto, head));
    CutLists(base, head, ls, first);
    ListingUnique(onto, head, todo, ls[first..]);
    assert forall c :: c in todo ==> c in Elems(ls);
    tip := Tip(onto, Replay(onto, todo, rewrite));
    after := RevListTopo(Range(base, tip));
    RebaseResult(base, head, ls, first, rewrite, after);
  }

  class Worktree {
    var refs: map<string, Commit>
    /** The branch HEAD is on, or None when it is detached. */
    var head: Option<string>
    var dirty: bool

    /** git's own guarantees: the branch exists, and a commit object's first
        line ("tree ...") is never blank. */
    ghost predicate Valid()
      reads this
    {
      && (head.Some? ==> IsBranch(head.value) && head.value in refs)
      && forall r, c :: r in refs && c in Ancestors(refs[r]) ==> Split(c.text, '\n')[0] != ""
    }

    /** The range, once HEAD is on a branch and base names a commit. */
    ghost function Wanted(base: Option<Commit>): set<Commit>
      reads this
    {
      if base.Some? && head.Some? && head.value in refs then Range(base.value, refs[head.value]) else {}
    }

    /** A range that may not be re-signed: a merge in it, a published commit,
        or something to sign and no binary to sign with. */
    ghost predicate RefusesRange(r: set<Commit>, binary: bool)
      reads this
    {
      || !MergeFree(r)
      || !(r !! Published(refs))
      || (!binary && exists c :: c in r && !Signed(c.text))
    }

    /** Everything that makes resign refuse, with nothing changed. */
    ghost predicate Refuses(toolUseId: string, base: Option<Commit>, tip: Option<Commit>, binary: bool)
      reads this
      requires Valid()
    {
      || toolUseId == "" || head.None? || base.None? || tip.None?
      || tip.value != refs[head.value] || dirty
      || RefusesRange(Wanted(base), binary)
    }

    /** What is refused, on the commits of the range themselves. */
    lemma RefusesFor(base: Commit, binary: bool, c: Commit)
      requires Valid() && head.Some? && c in Ancestors(refs[head.value]) && c !in Ancestors(base)
      requires |c.parents| > 1 || (!binary && !Signed(c.text)) || Reaches(refs, "refs/tags/", "refs/remotes/", c)
      ensures RefusesRange(Wanted(Some(base)), binary)
    {
      assert c in Wanted(Some(base));
      PublishedIs(refs, c);
    }

    lemma RefusedFor(base: Commit, binary: bool) returns (c: Commit)
      requires Valid() && head.Some? && RefusesRange(Wanted(Some(base)), binary)
      ensures c in Ancestors(refs[head.value]) && c !in Ancestors(base)
      ensures |c.parents| > 1 || (!binary && !Signed(c.text)) || Reaches(refs, "refs/tags/", "refs/remotes/", c)
    {
      var range := Wanted(Some(base));
      if !MergeFree(range) {
        c :| c in range && |c.parents| > 1;
      } else if !(range !! Published(refs)) {
        c :| c in range && c in Published(refs);
        PublishedIs(refs, c);
      } else {
        c :| c in range && !Signed(c.text);
      }
    }

    /** The checks of the range, in order; they change nothing. */
    method CheckRange(base: Commit, binary: bool) returns (refused: bool, commits: seq<Commit>, first: int)
      requires Valid() && head.Some?
      ensures refused <==> RefusesRange(Range(base, refs[head.value]), binary)
      ensures !refused ==> Lists(commits, Range(base, refs[head.value])) && FirstUnsignedAt(commits, first)
      ensures !refused ==> MergeFree(Elems(commits)) && Elems(commits) !! Published(refs)
      ensures !refused ==> forall i :: 0 <= i < first ==> Signed(commits[i].text)
    {
      commits, first := [], -1;
      var range := Range(base, refs[head.value]);
      commits := RevListTopo(range);
      DistinctSize(commits);
      if |commits| == 0 {
        return false, commits, first;
      }
      if !MergeFree(range) {
        return true, commits, first;
      }
      var unpublished := range - Published(refs);
      SameSizeIff(range, Published(refs));
      if |unpublished| != |commits| {
        return true, commits, first;
      }
      ghost var tip := refs[head.value];
      assert forall c :: c in commits ==> c in Elems(commits) && c in Ancestors(tip);
      first := FirstUnsigned(commits);
      UnsignedMember(commits, first);
      refused := first >= 0 && !binary;
    }

    /** The rebase from the first unsigned commit on, and the check of its
        result. git replays what rev-list names between `onto` and HEAD. */
    method Rebase(base: Commit, commits: seq<Commit>, first: nat, o: RebaseOutcome)
      returns (code: int, after: seq<Commit>)
      requires head.Some? && head.value in refs && first < |commits|
      requires Lists(commits, Range(base, refs[head.value])) && MergeFree(Range(base, refs[head.value]))
      requires Signs(o, Range(base, refs[head.value]))
      requires forall i :: 0 <= i < first ==> Signed(commits[i].text)
      modifies this`refs, this`head
      ensures code == OK || code == FAILED
      ensures code == FAILED <==> o.Stopped? || Drops(o, commits[first..])
      ensures code == OK ==> head == old(head) && ResignedFrom(first, commits, after, o.rewrite)
      ensures code == OK ==> refs == old(refs)[head.value := after[|after| - 1]]
      ensures o.Done? ==> head == old(head) && head.value in refs &&
                          refs == old(refs)[head.value := refs[head.value]] &&
                          Lists(after, Range(base, refs[head.value]))
      ensures o.Stopped? ==> refs == old(refs) && (head == old(head) <==> !o.begun || o.abortOk)
    {
      match o {
        case Stopped(begun, abortOk) =>
          if begun && !abortOk {
            head := None;
          }
          return FAILED, [];
        case Done(rewrite) =>
          var tip;
          tip, after := RebaseExec(base, refs[head.value], commits, first, rewrite);
          refs := refs[head.value := tip];
          return if |after| != |commits| then FAILED else OK, after;
      }
    }

    /** runResign from the range on, once its two ends are commits. */
    method RunRange(base: Commit, binary: bool, o: RebaseOutcome)
      returns (code: int, commits: seq<Commit>, first: int, after: seq<Commit>)
      requires Valid() && head.Some? && Signs(o, Wanted(Some(base)))
      modifies this`refs, this`head
      ensures code in {OK, REFUSED, FAILED}
      ensures code == REFUSED <==> old(RefusesRange(Wanted(Some(base)), binary))
      ensures code == REFUSED ==> refs == old(refs) && head == old(head)
      ensures code != REFUSED ==> Lists(commits, old(Wanted(Some(base)))) && FirstUnsignedAt(commits, first)
      ensures code != REFUSED && first < 0 ==> code == OK && refs == old(refs) && head == old(head)
      ensures code == OK && first >= 0 ==>
                && o.Done? && head == old(head)
                && ResignedFrom(first, commits, after, o.rewrite)
                && refs == old(refs)[head.value := after[|after| - 1]]
                && Lists(after, Range(base, refs[head.value]))
                && Elems(commits) !! Published(old(refs))
      ensures code != REFUSED && first >= 0 ==>
                (code == FAILED <==> o.Stopped? || Drops(o, commits[first..]))
      ensures code == FAILED && o.Stopped? ==>
                refs == old(refs) && (head == old(head) <==> !o.begun || o.abortOk)
      ensures code == FAILED && o.Done? ==>
                && head == old(head) && head.value in refs
                && refs == old(refs)[head.value := refs[head.value]]
                && Lists(after, Range(base, refs[head.value]))
      ensures code == REFUSED <==> Barred(old(refs), base, old(refs[head.value]), binary)
      ensures code == OK && first >= 0 ==> Clear(old(refs), refs, commits)
    {
      ghost var before := refs;
      forall c | c in Ancestors(refs[head.value]) && c !in Ancestors(base) &&
                 (|c.parents| > 1 || (!binary && !Signed(c.text)) || Reaches(refs, "refs/tags/", "refs/remotes/", c))
        ensures RefusesRange(Wanted(Some(base)), binary)
      {
        RefusesFor(base, binary, c);
      }
      if RefusesRange(Wanted(Some(base)), binary) {
        ghost var c := RefusedFor(base, binary);
      }
      after := [];
      var refused;
      refused, commits, first := CheckRange(base, binary);
      if refused {
        return REFUSED, commits, first, after;
      }
      if first < 0 {
        return OK, commits, first, after;
      }
      code, after := Rebase(base, commits, first, o);
      if code == OK && first >= 0 {
        BranchPublishesNothing(before, head.value, refs[head.value]);
        forall c | Reaches(before, "refs/tags/", "refs/remotes/", c)
          ensures c !in commits
        {
          PublishedIs(before, c);
          assert c !in Elems(commits);
        }
      }
    }

    /** runResign from the range to the result. `commits` and `after` are what
        the two rev-list calls print, `first` the index of the first unsigned
        commit, or -1. */
    method Run(toolUseId: string, base: Option<Commit>, tip: Option<Commit>, binary: bool, o: RebaseOutcome)
      returns (code: int, commits: seq<Commit>, first: int, after: seq<Commit>)
      requires Valid()
      requires Signs(o, Wanted(base))
      modifies this`refs, this`head
      ensures code in {OK, REFUSED, FAILED}
      ensures code == REFUSED <==> old(Refuses(toolUseId, base, tip, binary))
      ensures code == REFUSED ==> refs == old(refs) && head == old(head)
      ensures code != REFUSED ==> Lists(commits, old(Wanted(base))) && FirstUnsignedAt(commits, first)
      // Nothing to sign.
      ensures code != REFUSED && first < 0 ==> code == OK && refs == old(refs) && head == old(head)
      // Re-signed: the branch moved, and nothing published was replaced.
      ensures code == OK && first >= 0 ==>
                && o.Done? && head == old(head)
                && ResignedFrom(first, commits, after, o.rewrite)
                && refs == old(refs)[head.value := after[|after| - 1]]
                && Lists(after, Range(base.value, refs[head.value]))
                && Elems(commits) !! Published(old(refs))
      // Failed: a stopped rebase leaves every ref where it was, and HEAD on its
      // branch unless it had begun and the abort failed.
      ensures code != REFUSED && first >= 0 ==>
                (code == FAILED <==> o.Stopped? || Drops(o, commits[first..]))
      ensures code == FAILED && o.Stopped? ==>
                refs == old(refs) && (head == old(head) <==> !o.begun || o.abortOk)
      // Failed because a commit was dropped: the branch alone has moved.
      ensures code == FAILED && o.Done? ==>
                && head == old(head) && head.value in refs
                && refs == old(refs)[head.value := refs[head.value]]
                && Lists(after, Range(base.value, refs[head.value]))
      // Said without the command's own tests.
      ensures code in {0, 33, 34}
      ensures code == 33 <==>
                || toolUseId == "" || old(head).None? || base.None? || tip.None? || old(dirty)
                || tip.value != old(refs[head.value]) || Barred(old(refs), base.value, tip.value, binary)
      ensures code == 0 && first >= 0 ==> Clear(old(refs), refs, commits)
    {
      if toolUseId == "" || head.None? || base.None? || tip.None? || tip.value != refs[head.value] || dirty {
        return REFUSED, [], -1, [];
      }
      code, commits, first, after := RunRange(base.value, binary, o);
    }
  }

  /** One unsigned commit on a branch: however the rebase stops, the command
      reports that it is back, and it is unless a rebase that had begun does not
      abort. */
  method StopsOnBranch(t: string, branch: string, o: RebaseOutcome) returns (w: Worktree, code: int)
    requires !Signed(t) && Split(t, '\n')[0] != "" && IsBranch(branch) && o.Stopped?
    ensures code == FAILED && w.refs == map[branch := Commit([Commit([], t)], t)]
    ensures w.head == Some(branch) <==> !o.begun || o.abortOk
  {
    var base := Commit([], t);
    var tip := Commit([base], t);
    w := new Worktree;
    w.refs, w.head, w.dirty := map[branch := tip], Some(branch), false;
    NoParent(base);
    SingleParent(tip, base);
    OneOnBase(base, tip);
    NotPublished(w.refs, branch);
    assert w.Wanted(Some(base)) == {tip};
    var commits, first, after;
    code, commits, first, after := w.Run("1", Some(base), Some(tip), true, o);
    assert tip in Elems(commits);
  }

  lemma OneOnBase(base: Commit, tip: Commit)
    requires base.parents == [] && tip.parents == [base]
    ensures Range(base, tip) == {tip} && MergeFree({tip})
  {
    NoParent(base);
    SingleParent(tip, base);
    assert |base.parents| != |tip.parents|;
  }

  lemma NotPublished(refs: map<string, Commit>, branch: string)
    requires IsBranch(branch) && refs.Keys == {branch}
    ensures Published(refs) == {}
  {
    assert branch[5] == "refs/heads/"[5] == 'h' && "refs/tags/"[5] == 't' && "refs/remotes/"[5] == 'r';
  }

  lemma SameSizeIff(r: set<Commit>, p: set<Commit>)
    ensures |r - p| == |r| <==> r !! p
  {
    assert r == (r - p) + (r * p);
    assert |r| == |r - p| + |r * p|;
    if r !! p {
      assert r - p == r;
    }
  }

  /** The branch update a re-signing rebase makes is one the ref backstop lets
      through: everything under it is on the branch already, and everything new
      is signed -- exactly as long as the hook does not miss one of those
      signatures, where nothing stands in for a commit it walks. Base must be
      below the branch when the first commit of the range is itself replayed. */
  lemma ResignPassesBackstop(repo: Repo, branch: string, base: Commit, ls: seq<Commit>, first: nat,
                             xs: seq<Commit>, id: string)
    requires Closed(repo) && branch in repo.refs && IsBranch(branch)
    requires Lists(ls, Range(base, repo.refs[branch])) && first < |ls|
    requires first > 0 || base in Ancestors(repo.refs[branch])
    requires Linked(Onto(base, ls, first), xs) && forall x :: x in xs ==> Signed(x.text)
    requires id in repo.objects && repo.objects[id] == Tip(Onto(base, ls, first), xs)
    ensures Straight(repo, repo.objects[id]) ==>
              (Clean(repo, id) <==> forall x :: x in xs && !Reached(repo, x) ==> !Missed(x.text))
  {
    var onto := Onto(base, ls, first);
    OntoReached(repo, branch, base, ls, first);
    LinkedAncestors(onto, xs);
    if Straight(repo, repo.objects[id]) {
      forall x: Commit
        ensures x in NewCommits(repo, repo.objects[id]) <==> x in xs && !Reached(repo, x)
        ensures x in NewCommits(repo, repo.objects[id]) ==> (Taken(repo, x) <==> !Missed(x.text))
      {
        StraightNew(repo, repo.objects[id], x);
        if x in xs {
          ReadItself(repo, x);
          TakenAsSignedIff(x.text);
        }
      }
    }
  }

  lemma OntoReached(repo: Repo, branch: string, base: Commit, ls: seq<Commit>, first: nat)
    requires branch in repo.refs && IsBranch(branch)
    requires Lists(ls, Range(base, repo.refs[branch])) && first < |ls|
    requires first > 0 || base in Ancestors(repo.refs[branch])
    ensures forall c :: c in Ancestors(Onto(base, ls, first)) ==> Reached(repo, c)
  {
    var tip, onto := repo.refs[branch], Onto(base, ls, first);
    if first > 0 {
      assert onto in Elems(ls);
    }
    AncestorsTransitive(tip, onto);
  }
}
