/**
 Git's commit graph. A commit is named by a hash of its text and its parents'
 names, so a commit is modelled as the finite tree of what it names: two
 commits are equal exactly when they are the same object, and there are no
 cycles.
 */
module CommitGraph {

  datatype Commit = Commit(parents: seq<Commit>, text: string)

  /** The commit and everything reachable from it. */
  function Ancestors(c: Commit): set<Commit>
  {
    {c} + (set i, d | 0 <= i < |c.parents| && d in Ancestors(c.parents[i]) :: d)
  }

  function MaxHeight(cs: seq<Commit>): (h: nat)
    ensures forall i :: 0 <= i < |cs| ==> Height(cs[i]) <= h
  {
    if cs == [] then 0 else
    var a, b := Height(cs[0]), MaxHeight(cs[1..]);
    if a > b then a else b
  }

  function Height(c: Commit): (h: nat)
    ensures forall i :: 0 <= i < |c.parents| ==> Height(c.parents[i]) < h
  {
    1 + MaxHeight(c.parents)
  }

  lemma {:induction false} AncestorsTransitive(c: Commit, d: Commit)
    requires d in Ancestors(c)
    ensures Ancestors(d) <= Ancestors(c)
    decreases c
  {
    if d != c {
      var i :| 0 <= i < |c.parents| && d in Ancestors(c.parents[i]);
      AncestorsTransitive(c.parents[i], d);
    }
  }

  lemma ParentIsAncestor(c: Commit, i: nat)
    requires i < |c.parents|
    ensures c.parents[i] in Ancestors(c)
    ensures Ancestors(c.parents[i]) <= Ancestors(c)
  {
    assert c.parents[i] in Ancestors(c.parents[i]);
  }

  /** Strict ancestors are strictly lower, so the graph has no cycles. */
  lemma {:induction false} AncestorsLower(c: Commit, d: Commit)
    requires d in Ancestors(c)
    ensures d == c || Height(d) < Height(c)
    decreases c
  {
    if d != c {
      var i :| 0 <= i < |c.parents| && d in Ancestors(c.parents[i]);
      AncestorsLower(c.parents[i], d);
    }
  }

  lemma AncestorsAntisymmetric(c: Commit, d: Commit)
    requires d in Ancestors(c) && c in Ancestors(d)
    ensures c == d
  {
    AncestorsLower(c, d);
    AncestorsLower(d, c);
  }

  lemma SingleParent(c: Commit, p: Commit)
    requires c.parents == [p]
    ensures Ancestors(c) == {c} + Ancestors(p)
  {
    assert c.parents[0] == p;
  }

  lemma NoParent(c: Commit)
    requires c.parents == []
    ensures Ancestors(c) == {c}
  {}
}
