/**
 A repository as git reads it: objects by id, refs by name, and what stands in
 for an object when git reads it. A ref refs/replace/<id> replaces the object
 <id> by another; a graft gives it other parents. Walks follow what is read,
 not what is stored.
 */
module GitView {
  import opened Options
  import opened Text
  import opened CommitGraph

  /** `grafts` are the parents a graft file or a shallow boundary gives an id. */
  datatype Repo = Repo(objects: map<string, Commit>, refs: map<string, Commit>, grafts: map<string, seq<Commit>>)

  predicate IsBranch(ref: string) { "refs/heads/" <= ref }
  predicate IsTag(ref: string) { "refs/tags/" <= ref }
  predicate IsRemote(ref: string) { "refs/remotes/" <= ref }

  /** git's id for a ref that does not exist: zeros and nothing else. */
  predicate NullId(id: string)
  {
    id != "" && forall i :: 0 <= i < |id| ==> id[i] == '0'
  }

  /** The refs `--branches --tags --remotes` names; HEAD is not among them. */
  predicate Excluded(ref: string)
  {
    IsBranch(ref) || IsTag(ref) || IsRemote(ref)
  }

  const REPLACE := "refs/replace/"

  /** How many lookups git makes for one object. */
  const DEPTH: nat := 5

  /** An object id holds neither the newline nor the NUL of git's output. */
  predicate ValidId(id: string)
  {
    Solid(id) && '\0' !in id
  }

  /** An id names one commit and a commit has one id; parents, refs and grafts
      lead to stored commits. */
  ghost predicate Closed(repo: Repo)
  {
    && (forall id :: id in repo.objects ==> ValidId(id))
    && (forall a, b :: a in repo.objects && b in repo.objects && repo.objects[a] == repo.objects[b] ==> a == b)
    && (forall id, c :: id in repo.objects && c in Ancestors(repo.objects[id]) ==> c in repo.objects.Values)
    && (forall ref :: ref in repo.refs ==> repo.refs[ref] in repo.objects.Values)
    && (forall id, i :: id in repo.grafts && 0 <= i < |repo.grafts[id]| ==> repo.grafts[id][i] in repo.objects.Values)
  }

  ghost function IdOf(repo: Repo, c: Commit): (id: string)
    requires c in repo.objects.Values
    ensures id in repo.objects && repo.objects[id] == c
  {
    var id :| id in repo.objects && repo.objects[id] == c;
    id
  }

  // -------------------------------------------------------- what git reads

  /** The object read for a commit: replaced, and what replaces it replaced, up
      to one that is not. Git fails when its last lookup still finds another. */
  ghost function Replaced(repo: Repo, c: Commit, n: nat): Option<Commit>
    decreases n
  {
    if n == 0 then None else
    if c in repo.objects.Values && REPLACE + IdOf(repo, c) in repo.refs
    then Replaced(repo, repo.refs[REPLACE + IdOf(repo, c)], n - 1) else Some(c)
  }

  ghost predicate Readable(repo: Repo, c: Commit)
  {
    Replaced(repo, c, DEPTH).Some?
  }

  /** Each commit is replaced by the next. */
  ghost predicate Chained(repo: Repo, cs: seq<Commit>)
  {
    forall i :: 0 <= i < |cs| - 1 ==>
      cs[i] in repo.objects.Values && REPLACE + IdOf(repo, cs[i]) in repo.refs &&
      repo.refs[REPLACE + IdOf(repo, cs[i])] == cs[i + 1]
  }

  lemma {:induction false} ReplacedAlong(repo: Repo, cs: seq<Commit>, n: nat)
    requires cs != [] && Chained(repo, cs) && n >= |cs| - 1
    ensures Replaced(repo, cs[0], n) == Replaced(repo, cs[|cs| - 1], n - (|cs| - 1))
    decreases |cs|
  {
    if |cs| > 1 {
      assert cs[1..][0] == cs[1] && forall i :: 0 <= i < |cs[1..]| ==> cs[1..][i] == cs[i + 1];
      ReplacedAlong(repo, cs[1..], n - 1);
    }
  }

  /** Git reads the end of a chain of four replacements, and fails on five. */
  lemma ChainRead(repo: Repo, cs: seq<Commit>)
    requires cs != [] && Chained(repo, cs)
    ensures |cs| == 6 ==> !Readable(repo, cs[0])
    ensures |cs| <= 5 && !(cs[|cs| - 1] in repo.objects.Values && REPLACE + IdOf(repo, cs[|cs| - 1]) in repo.refs) ==>
              Replaced(repo, cs[0], 5) == Some(cs[|cs| - 1]) && Readable(repo, cs[0])
  {
    if |cs| <= 6 {
      ReplacedAlong(repo, cs, 5);
    }
  }

  /** What git reads for a commit it can read. */
  ghost function Read(repo: Repo, c: Commit): Commit
  {
    var d := if Readable(repo, c) then Replaced(repo, c, DEPTH).value else c;
    if c in repo.objects.Values && IdOf(repo, c) in repo.grafts then Commit(repo.grafts[IdOf(repo, c)], d.text) else d
  }

  /** Nothing stands in for the commit. */
  predicate Itself(repo: Repo, c: Commit)
  {
    forall id :: id in repo.objects && repo.objects[id] == c ==> REPLACE + id !in repo.refs && id !in repo.grafts
  }

  lemma ReadItself(repo: Repo, c: Commit)
    requires Itself(repo, c)
    ensures Readable(repo, c) && Read(repo, c) == c
  {
  }

  predicate StraightBelow(repo: Repo, from: Commit)
  {
    forall c :: c in Ancestors(from) ==> Itself(repo, c)
  }

  /** Nothing stands in for a commit that an update to `from` reaches, or that a
      branch, a tag or a remote ref does. */
  predicate Straight(repo: Repo, from: Commit)
  {
    StraightBelow(repo, from) && forall ref :: ref in repo.refs && Excluded(ref) ==> StraightBelow(repo, repo.refs[ref])
  }

  // ------------------------------------------------------------- the walk

  /** Each commit is a parent of what is read for the one before it. */
  ghost predicate Way(repo: Repo, way: seq<Commit>)
  {
    way != [] && forall i :: 0 < i < |way| ==> way[i] in Read(repo, way[i - 1]).parents
  }

  ghost predicate Walked(repo: Repo, from: Commit, c: Commit)
  {
    exists way :: Way(repo, way) && way[0] == from && way[|way| - 1] == c
  }

  lemma WalkedFrom(repo: Repo, c: Commit)
    ensures Walked(repo, c, c)
  {
    assert Way(repo, [c]) && [c][|[c]| - 1] == c;
  }

  lemma WalkedOver(repo: Repo, from: Commit, p: Commit, c: Commit)
    requires p in Read(repo, from).parents && Walked(repo, p, c)
    ensures Walked(repo, from, c)
  {
    var way :| Way(repo, way) && way[0] == p && way[|way| - 1] == c;
    var longer := [from] + way;
    forall i | 0 < i < |longer|
      ensures longer[i] in Read(repo, longer[i - 1]).parents
    {
      assert longer[i] == way[i - 1];
      assert i > 1 ==> longer[i - 1] == way[i - 2];
    }
    assert Way(repo, longer) && longer[|longer| - 1] == c;
  }

  lemma {:induction false} ReplacedStored(repo: Repo, c: Commit, n: nat)
    requires Closed(repo) && c in repo.objects.Values
    ensures Replaced(repo, c, n).Some? ==> Replaced(repo, c, n).value in repo.objects.Values
    decreases n
  {
    if n > 0 && REPLACE + IdOf(repo, c) in repo.refs {
      ReplacedStored(repo, repo.refs[REPLACE + IdOf(repo, c)], n - 1);
    }
  }

  lemma ReadParentStored(repo: Repo, c: Commit, p: Commit)
    requires Closed(repo) && c in repo.objects.Values && p in Read(repo, c).parents
    ensures p in repo.objects.Values
  {
    var d := if Readable(repo, c) then Replaced(repo, c, DEPTH).value else c;
    ReplacedStored(repo, c, DEPTH);
    if IdOf(repo, c) !in repo.grafts {
      var i :| 0 <= i < |d.parents| && d.parents[i] == p;
      ParentIsAncestor(d, i);
      var id := IdOf(repo, d);
    }
  }

  /** A walk from a stored commit meets stored commits only. */
  lemma {:induction false} WayStored(repo: Repo, way: seq<Commit>, i: nat)
    requires Closed(repo) && Way(repo, way) && way[0] in repo.objects.Values && i < |way|
    ensures way[i] in repo.objects.Values
  {
    if i > 0 {
      WayStored(repo, way, i - 1);
      ReadParentStored(repo, way[i - 1], way[i]);
    }
  }

  lemma WalkedStored(repo: Repo, from: Commit, c: Commit)
    requires Closed(repo) && from in repo.objects.Values && Walked(repo, from, c)
    ensures c in repo.objects.Values
  {
    var way :| Way(repo, way) && way[0] == from && way[|way| - 1] == c;
    WayStored(repo, way, |way| - 1);
  }

  lemma {:induction false} WayDescends(repo: Repo, way: seq<Commit>, i: nat)
    requires Way(repo, way) && i < |way| && StraightBelow(repo, way[0])
    ensures way[i] in Ancestors(way[0])
  {
    if i > 0 {
      WayDescends(repo, way, i - 1);
      ReadItself(repo, way[i - 1]);
      var k :| 0 <= k < |way[i - 1].parents| && way[i - 1].parents[k] == way[i];
      ParentIsAncestor(way[i - 1], k);
      AncestorsTransitive(way[0], way[i - 1]);
    }
  }

  lemma {:induction false} AncestorWalked(repo: Repo, from: Commit, c: Commit)
    requires StraightBelow(repo, from) && c in Ancestors(from)
    ensures Walked(repo, from, c)
    decreases from
  {
    if c == from {
      WalkedFrom(repo, c);
    } else {
      var k :| 0 <= k < |from.parents| && c in Ancestors(from.parents[k]);
      ParentIsAncestor(from, k);
      AncestorsTransitive(from, from.parents[k]);
      AncestorWalked(repo, from.parents[k], c);
      ReadItself(repo, from);
      WalkedOver(repo, from, from.parents[k], c);
    }
  }

  /** With nothing standing in below a commit, the walk is the commit graph. */
  lemma StraightWalk(repo: Repo, from: Commit, c: Commit)
    requires StraightBelow(repo, from)
    ensures Walked(repo, from, c) <==> c in Ancestors(from)
  {
    if Walked(repo, from, c) {
      var way :| Way(repo, way) && way[0] == from && way[|way| - 1] == c;
      WayDescends(repo, way, |way| - 1);
    }
    if c in Ancestors(from) {
      AncestorWalked(repo, from, c);
    }
  }

  // ------------------------------------------------------ what an update adds

  /** Reached from a branch, a tag or a remote ref, as git walks. */
  ghost predicate Held(repo: Repo, c: Commit)
  {
    exists ref :: ref in repo.refs && Excluded(ref) && Walked(repo, repo.refs[ref], c)
  }

  /** rev-list <from> --not --branches --tags --remotes. */
  ghost function NewCommits(repo: Repo, from: Commit): set<Commit>
  {
    set c | c in repo.objects.Values && Walked(repo, from, c) && !Held(repo, c)
  }

  /** That is every commit the walk meets and no such ref holds. */
  lemma NewCommitsAll(repo: Repo, from: Commit, c: Commit)
    requires Closed(repo) && from in repo.objects.Values
    ensures c in NewCommits(repo, from) <==> Walked(repo, from, c) && !Held(repo, c)
  {
    if Walked(repo, from, c) {
      WalkedStored(repo, from, c);
    }
  }

  /** Reached from a branch, a tag or a remote ref in the commit graph. */
  predicate Reached(repo: Repo, c: Commit)
  {
    exists ref :: ref in repo.refs && Excluded(ref) && c in Ancestors(repo.refs[ref])
  }

  /** And with nothing standing in: what the commit reaches and no such ref does. */
  lemma StraightNew(repo: Repo, from: Commit, c: Commit)
    requires Closed(repo) && Straight(repo, from) && from in repo.objects.Values
    ensures c in NewCommits(repo, from) <==> c in Ancestors(from) && !Reached(repo, c)
    ensures Reached(repo, c) <==>
            exists ref :: ref in repo.refs && c in Ancestors(repo.refs[ref]) &&
                          ("refs/heads/" <= ref || "refs/tags/" <= ref || "refs/remotes/" <= ref)
  {
    NewCommitsAll(repo, from, c);
    StraightWalk(repo, from, c);
    forall ref | ref in repo.refs && Excluded(ref)
      ensures Walked(repo, repo.refs[ref], c) <==> c in Ancestors(repo.refs[ref])
    {
      StraightWalk(repo, repo.refs[ref], c);
    }
  }
}
