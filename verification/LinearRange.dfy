/**
 The range <base>..HEAD without merges: what `rev-list --reverse --topo-order`
 must list, and what stays and what changes when its end is replayed.
 */
module LinearRange {
  import opened Text
  import opened CommitGraph

  /** rev-list base..head. */
  function Range(base: Commit, head: Commit): set<Commit>
  {
    Ancestors(head) - Ancestors(base)
  }

  function Elems(ls: seq<Commit>): set<Commit>
  {
    set c | c in ls
  }

  /** Any order git may print a set of commits in, parents first. */
  ghost predicate Lists(ls: seq<Commit>, s: set<Commit>)
  {
    && Distinct(ls)
    && Elems(ls) == s
    && forall i, k :: 0 <= i < |ls| && 0 <= k < |ls[i].parents| && ls[i].parents[k] in s ==> ls[i].parents[k] in ls[..i]
  }

  predicate MergeFree(s: set<Commit>)
  {
    forall c :: c in s ==> |c.parents| <= 1
  }

  function Tip(onto: Commit, xs: seq<Commit>): Commit
  {
    if xs == [] then onto else xs[|xs| - 1]
  }

  /** `xs` is one parent chain standing on `onto`. */
  predicate Linked(onto: Commit, xs: seq<Commit>)
  {
    forall i :: 0 <= i < |xs| ==> xs[i].parents == [Tip(onto, xs[..i])]
  }

  // ------------------------------------------------------------ uniqueness

  lemma {:induction false} AncestorsFirst(base: Commit, head: Commit, ls: seq<Commit>, x: Commit, d: Commit, ix: nat)
    requires Lists(ls, Range(base, head)) && MergeFree(Range(base, head))
    requires ix < |ls| && ls[ix] == x && d in Ancestors(x) && d !in Ancestors(base)
    ensures d in ls[..ix + 1]
    decreases x
  {
    assert x in Elems(ls);
    if d == x {
      assert ls[..ix + 1][ix] == x;
    } else {
      var i :| 0 <= i < |x.parents| && d in Ancestors(x.parents[i]);
      var p := x.parents[i];
      ParentIsAncestor(x, i);
      if p in Ancestors(base) {
        AncestorsTransitive(base, p);
      }
      AncestorsTransitive(head, x);
      assert p in Range(base, head);
      var ip :| 0 <= ip < ix && ls[ip] == p;
      AncestorsFirst(base, head, ls, p, d, ip);
      assert ls[..ip + 1] <= ls[..ix + 1];
    }
  }

  lemma HeadIsLast(base: Commit, head: Commit, ls: seq<Commit>)
    requires Lists(ls, Range(base, head)) && MergeFree(Range(base, head))
    requires ls != []
    ensures head !in Ancestors(base) && ls[|ls| - 1] == head
  {
    var n := |ls| - 1;
    assert ls[0] in Elems(ls) && ls[n] in Elems(ls);
    if head in Ancestors(base) {
      AncestorsTransitive(base, head);
    }
    assert head in Elems(ls);
    var ih :| 0 <= ih < |ls| && ls[ih] == head;
    AncestorsFirst(base, head, ls, head, ls[n], ih);
    var k :| 0 <= k < ih + 1 && ls[k] == ls[n];
  }

  lemma RangeRest(base: Commit, head: Commit, p: Commit)
    requires head.parents == [p] && head !in Ancestors(base)
    ensures head !in Range(base, p) && Range(base, head) == {head} + Range(base, p)
  {
    SingleParent(head, p);
    assert head.parents[0] == p;
    ParentIsAncestor(head, 0);
    assert Height(p) < Height(head);
    if head in Ancestors(p) {
      AncestorsLower(p, head);
    }
  }

  lemma RestElems(rest: seq<Commit>, head: Commit, s: set<Commit>)
    requires Distinct(rest + [head]) && Elems(rest + [head]) == {head} + s && head !in s
    ensures Distinct(rest) && Elems(rest) == s
  {
    var ls := rest + [head];
    assert forall i :: 0 <= i < |rest| ==> rest[i] == ls[i] && ls[i] != ls[|rest|];
    forall c
      ensures c in Elems(rest) <==> c in s
    {
      assert c in Elems(ls) <==> c in Elems(rest) || c == head;
    }
  }

  lemma RestLists(base: Commit, head: Commit, p: Commit, ls: seq<Commit>)
    requires head.parents == [p] && ls != [] && ls[|ls| - 1] == head && head !in Ancestors(base)
    requires Lists(ls, Range(base, head)) && MergeFree(Range(base, head))
    ensures Lists(ls[..|ls| - 1], Range(base, p)) && MergeFree(Range(base, p))
  {
    var rest := ls[..|ls| - 1];
    RangeRest(base, head, p);
    assert ls == rest + [head];
    RestElems(rest, head, Range(base, p));
    forall i | 0 <= i < |rest|
      ensures rest[i] == ls[i] && rest[..i] == ls[..i]
    {
    }
  }

  lemma RootAlone(base: Commit, head: Commit, ls: seq<Commit>)
    requires head.parents == [] && Lists(ls, Range(base, head))
    ensures |ls| <= 1
  {
    NoParent(head);
    DistinctSize(ls);
    assert Elems(ls) == {} || Elems(ls) == {head};
  }

  /** Every listing of a merge-free range is the parent chain that ends at
      head; its first commit stands on something base reaches, or on nothing. */
  lemma {:induction false} ListingIsChain(base: Commit, head: Commit, ls: seq<Commit>)
    requires Lists(ls, Range(base, head)) && MergeFree(Range(base, head))
    requires ls != []
    ensures ls[|ls| - 1] == head
    ensures forall i :: 0 < i < |ls| ==> ls[i].parents == [ls[i - 1]]
    ensures ls[0].parents == [] || (|ls[0].parents| == 1 && ls[0].parents[0] in Ancestors(base))
    decreases head
  {
    HeadIsLast(base, head, ls);
    var n := |ls| - 1;
    var rest := ls[..n];
    if head.parents == [] {
      RootAlone(base, head, ls);
    } else {
      assert head in Range(base, head);
      var p := head.parents[0];
      assert head.parents == [p];
      RestLists(base, head, p, ls);
      if rest == [] {
        assert p in Ancestors(p) && p !in Elems(rest);
      } else {
        ListingIsChain(base, p, rest);
        assert rest[n - 1] == p;
        assert forall i :: 0 <= i < n ==> rest[i] == ls[i];
      }
    }
  }

  lemma {:induction false} DistinctSize(ls: seq<Commit>)
    requires Distinct(ls)
    ensures |Elems(ls)| == |ls|
  {
    if ls != [] {
      var n := |ls| - 1;
      DistinctSize(ls[..n]);
      assert ls == ls[..n] + [ls[n]];
      assert Elems(ls) == Elems(ls[..n]) + {ls[n]};
      assert ls[n] !in ls[..n];
    }
  }

  lemma {:induction false} SameChain(a: seq<Commit>, b: seq<Commit>)
    requires |a| == |b| > 0 && a[|a| - 1] == b[|b| - 1]
    requires forall i :: 0 < i < |a| ==> a[i].parents == [a[i - 1]]
    requires forall i :: 0 < i < |b| ==> b[i].parents == [b[i - 1]]
    ensures a == b
  {
    var n := |a| - 1;
    if n > 0 {
      assert [a[n - 1]] == [b[n - 1]];
      assert [a[n - 1]][0] == [b[n - 1]][0];
      SameChain(a[..n], b[..n]);
    }
    assert a == a[..n] + [a[n]] && b == b[..n] + [b[n]];
  }

  /** So git has no choice: a merge-free range has one listing. */
  lemma ListingUnique(base: Commit, head: Commit, a: seq<Commit>, b: seq<Commit>)
    requires Lists(a, Range(base, head)) && Lists(b, Range(base, head))
    requires MergeFree(Range(base, head))
    ensures a == b
  {
    DistinctSize(a);
    DistinctSize(b);
    if a != [] {
      ListingIsChain(base, head, a);
      ListingIsChain(base, head, b);
      SameChain(a, b);
    }
  }

  /** Everything head reaches is in the chain or below its first commit. */
  lemma {:induction false} BelowChain(ls: seq<Commit>, c: Commit)
    requires ls != [] && c in Ancestors(ls[|ls| - 1])
    requires forall i :: 0 < i < |ls| ==> ls[i].parents == [ls[i - 1]]
    ensures c in ls || exists k :: 0 <= k < |ls[0].parents| && c in Ancestors(ls[0].parents[k])
  {
    var n := |ls| - 1;
    if c != ls[n] {
      if n > 0 {
        SingleParent(ls[n], ls[n - 1]);
        BelowChain(ls[..n], c);
      }
    }
  }

  /** The chain stands on base itself exactly when head descends from base. */
  lemma StandsOnBaseIff(base: Commit, head: Commit, ls: seq<Commit>)
    requires Lists(ls, Range(base, head)) && MergeFree(Range(base, head)) && ls != []
    ensures ls[0].parents == [base] <==> base in Ancestors(head)
  {
    ListingIsChain(base, head, ls);
    assert ls[0] in Elems(ls);
    if ls[0].parents == [base] {
      assert ls[0].parents[0] == base;
      ParentIsAncestor(ls[0], 0);
      AncestorsTransitive(head, ls[0]);
    }
    if base in Ancestors(head) {
      BelowChain(ls, base);
      assert base in ls ==> base in Elems(ls);
      assert base in Ancestors(base);
      var k :| 0 <= k < |ls[0].parents| && base in Ancestors(ls[0].parents[k]);
      AncestorsAntisymmetric(base, ls[0].parents[0]);
    }
  }

  // -------------------------------------------------------------- replay

  lemma LinkedPrefix(onto: Commit, xs: seq<Commit>)
    requires Linked(onto, xs) && xs != []
    ensures Linked(onto, xs[..|xs| - 1])
    ensures xs[|xs| - 1].parents == [Tip(onto, xs[..|xs| - 1])]
  {
    var below := xs[..|xs| - 1];
    forall i | 0 <= i < |below|
      ensures below[i].parents == [Tip(onto, below[..i])]
    {
      assert below[i] == xs[i] && below[..i] == xs[..i];
    }
  }

  lemma NewOnTop(base: Commit, onto: Commit, t: Commit, c: Commit)
    requires c.parents == [t]
    requires onto in Ancestors(t)
    requires t == base || t !in Ancestors(base)
    ensures c !in Ancestors(base) && c !in Ancestors(onto) && c !in Ancestors(t)
    ensures Ancestors(c) == {c} + Ancestors(t)
  {
    SingleParent(c, t);
    assert c.parents[0] == t;
    ParentIsAncestor(c, 0);
    assert Height(t) < Height(c);
    if c in Ancestors(t) {
      AncestorsLower(t, c);
    }
    AncestorsTransitive(t, onto);
    if c in Ancestors(base) {
      AncestorsTransitive(base, c);
    }
  }

  lemma AncestorsSnoc(onto: Commit, below: seq<Commit>, t: Commit, c: Commit)
    requires c.parents == [t] && Ancestors(t) == Ancestors(onto) + Elems(below)
    ensures Ancestors(c) == Ancestors(onto) + Elems(below + [c])
  {
    SingleParent(c, t);
    assert Elems(below + [c]) == Elems(below) + {c};
  }

  lemma {:induction false} LinkedAncestors(onto: Commit, xs: seq<Commit>)
    requires Linked(onto, xs)
    ensures Ancestors(Tip(onto, xs)) == Ancestors(onto) + Elems(xs)
  {
    if xs != [] {
      var below, c := xs[..|xs| - 1], xs[|xs| - 1];
      LinkedPrefix(onto, xs);
      LinkedAncestors(onto, below);
      AncestorsSnoc(onto, below, Tip(onto, below), c);
      assert xs == below + [c];
    }
  }

  lemma DistinctSnoc(below: seq<Commit>, c: Commit)
    requires Distinct(below) && c !in below
    ensures Distinct(below + [c])
  {}

  /** A chain on top of base, or on top of the range, is new to base and to
      what it stands on. */
  lemma {:induction false} LinkedFresh(base: Commit, onto: Commit, xs: seq<Commit>)
    requires Linked(onto, xs)
    requires onto == base || onto !in Ancestors(base)
    ensures Elems(xs) !! Ancestors(base) && Elems(xs) !! Ancestors(onto)
    ensures Distinct(xs)
    ensures Tip(onto, xs) == base || Tip(onto, xs) !in Ancestors(base)
  {
    if xs != [] {
      var n := |xs| - 1;
      var below := xs[..n];
      LinkedPrefix(onto, xs);
      LinkedFresh(base, onto, below);
      LinkedAncestors(onto, below);
      var t, c := Tip(onto, below), xs[n];
      assert onto in Ancestors(t) by { assert onto in Ancestors(onto); }
      NewOnTop(base, onto, t, c);
      assert c !in Elems(below);
      DistinctSnoc(below, c);
      assert xs == below + [c];
    }
  }

  lemma LinkedRange(base: Commit, onto: Commit, xs: seq<Commit>)
    requires Linked(onto, xs)
    requires onto == base || onto !in Ancestors(base)
    ensures Range(base, Tip(onto, xs)) == Range(base, onto) + Elems(xs)
  {
    LinkedAncestors(onto, xs);
    LinkedFresh(base, onto, xs);
  }

  // ------------------------------------------------ cutting and extending

  /** One parent chain whose first commit stands on what base reaches. */
  ghost predicate Chained(base: Commit, xs: seq<Commit>)
  {
    && (forall i :: 0 < i < |xs| ==> xs[i].parents == [xs[i - 1]])
    && (xs != [] ==> xs[0].parents == [] || (|xs[0].parents| == 1 && xs[0].parents[0] in Ancestors(base)))
  }

  /** A chain outside base's history lists itself. */
  lemma ChainLists(base: Commit, xs: seq<Commit>)
    requires Chained(base, xs) && Distinct(xs) && Elems(xs) !! Ancestors(base)
    ensures Lists(xs, Elems(xs)) && MergeFree(Elems(xs))
  {
    forall i, k | 0 <= i < |xs| && 0 <= k < |xs[i].parents| && xs[i].parents[k] in Elems(xs)
      ensures xs[i].parents[k] in xs[..i]
    {
      assert i > 0;
      assert xs[i].parents[k] == xs[i - 1] == xs[..i][i - 1];
    }
    forall c | c in Elems(xs)
      ensures |c.parents| <= 1
    {
      var i :| 0 <= i < |xs| && xs[i] == c;
      assert i > 0 ==> xs[i].parents == [xs[i - 1]];
    }
  }

  lemma DistinctSplit(ls: seq<Commit>, k: nat)
    requires Distinct(ls) && k <= |ls|
    ensures Elems(ls) == Elems(ls[..k]) + Elems(ls[k..]) && Elems(ls[..k]) !! Elems(ls[k..])
  {
    assert ls == ls[..k] + ls[k..];
    forall c | c in Elems(ls[..k])
      ensures c !in Elems(ls[k..])
    {
      var i :| 0 <= i < k && ls[i] == c;
      assert forall j :: 0 <= j < |ls[k..]| ==> ls[k..][j] == ls[k + j];
    }
  }

  lemma DistinctConcat(a: seq<Commit>, b: seq<Commit>)
    requires Distinct(a) && Distinct(b) && Elems(a) !! Elems(b)
    ensures Distinct(a + b) && Elems(a + b) == Elems(a) + Elems(b)
  {
    var all := a + b;
    forall i, j | 0 <= i < j < |all|
      ensures all[i] != all[j]
    {
      if i < |a| <= j {
        assert all[i] == a[i] && all[i] in Elems(a);
        assert all[j] == b[j - |a|] && all[j] in Elems(b);
      }
    }
  }

  /** What the rebase starts from: the commit in front of `first`, or base. */
  function Onto(base: Commit, ls: seq<Commit>, first: nat): Commit
    requires first <= |ls|
  {
    if first == 0 then base else ls[first - 1]
  }

  lemma TailLinked(base: Commit, ls: seq<Commit>, first: nat)
    requires Chained(base, ls) && 0 < first <= |ls|
    ensures Linked(Onto(base, ls, first), ls[first..])
    ensures Tip(Onto(base, ls, first), ls[first..]) == ls[|ls| - 1]
  {
    var xs := ls[first..];
    forall i | 0 <= i < |xs|
      ensures xs[i].parents == [Tip(ls[first - 1], xs[..i])]
    {
      assert xs[i] == ls[first + i];
      assert i > 0 ==> xs[..i][i - 1] == ls[first + i - 1];
    }
  }

  /** A merge-free range cut at `first`: the part before it is the range up to
      the cut, and the part after it is the range from the cut. */
  lemma CutRange(base: Commit, head: Commit, ls: seq<Commit>, first: nat)
    requires Lists(ls, Range(base, head)) && MergeFree(Range(base, head)) && first < |ls|
    ensures Range(base, Onto(base, ls, first)) == Elems(ls[..first])
    ensures Range(Onto(base, ls, first), head) == Elems(ls[first..])
  {
    ListingIsChain(base, head, ls);
    var x := Onto(base, ls, first);
    if first == 0 {
      assert ls[0..] == ls;
    } else {
      TailLinked(base, ls, first);
      LinkedAncestors(x, ls[first..]);
      LinkedFresh(x, x, ls[first..]);
      DistinctSplit(ls, first);
      assert Ancestors(head) == Ancestors(x) + Elems(ls[first..]);
      assert x in Elems(ls);
      AncestorsTransitive(head, x);
    }
  }

  lemma CutLists(base: Commit, head: Commit, ls: seq<Commit>, first: nat)
    requires Lists(ls, Range(base, head)) && MergeFree(Range(base, head)) && first < |ls|
    ensures Lists(ls[first..], Range(Onto(base, ls, first), head))
    ensures MergeFree(Range(Onto(base, ls, first), head))
  {
    CutRange(base, head, ls, first);
    ListingIsChain(base, head, ls);
    if first == 0 {
      assert ls[0..] == ls;
    } else {
      var x := Onto(base, ls, first);
      var xs := ls[first..];
      TailLinked(base, ls, first);
      LinkedFresh(x, x, xs);
      assert x in Ancestors(x);
      assert xs[0].parents == [x];
      forall i | 0 < i < |xs|
        ensures xs[i].parents == [xs[i - 1]]
      {
        assert xs[i] == ls[first + i] && xs[i - 1] == ls[first + i - 1];
      }
      ChainLists(x, xs);
    }
  }

  lemma ListingChained(base: Commit, head: Commit, ls: seq<Commit>)
    requires Lists(ls, Range(base, head)) && MergeFree(Range(base, head))
    ensures Chained(base, ls)
  {
    if ls != [] {
      ListingIsChain(base, head, ls);
    }
  }

  lemma ChainedPrefix(base: Commit, ls: seq<Commit>, k: nat)
    requires k <= |ls| && Chained(base, ls) && Distinct(ls)
    ensures Chained(base, ls[..k]) && Distinct(ls[..k]) && Tip(base, ls[..k]) == Onto(base, ls, k)
  {
  }

  /** What is kept is the chain and the range up to where the new one starts. */
  lemma KeptPart(base: Commit, head: Commit, ls: seq<Commit>, first: nat)
    requires Lists(ls, Range(base, head)) && MergeFree(Range(base, head)) && first < |ls|
    ensures var kept, x := ls[..first], Onto(base, ls, first);
            && Chained(base, kept) && Distinct(kept) && Elems(kept) == Range(base, x)
            && x == Tip(base, kept) && (x == base || x !in Ancestors(base))
  {
    ListingChained(base, head, ls);
    ChainedPrefix(base, ls, first);
    CutRange(base, head, ls, first);
    if first > 0 {
      assert Onto(base, ls, first) in Elems(ls);
    }
  }

  /** The kept part of the range with a new chain on top of it is exactly the
      range up to the new tip, and its one listing. */
  lemma ExtendRange(base: Commit, head: Commit, ls: seq<Commit>, first: nat, xs: seq<Commit>)
    requires Lists(ls, Range(base, head)) && MergeFree(Range(base, head)) && first < |ls|
    requires Linked(Onto(base, ls, first), xs)
    ensures var s := Range(base, Tip(Onto(base, ls, first), xs));
            s == Elems(ls[..first] + xs) && Lists(ls[..first] + xs, s) && MergeFree(s)
  {
    var x, kept := Onto(base, ls, first), ls[..first];
    KeptPart(base, head, ls, first);
    LinkedRange(base, x, xs);
    LinkedFresh(base, x, xs);
    KeptThenNew(base, x, kept, xs);
    ChainLists(base, kept + xs);
  }

  lemma ChainedConcat(base: Commit, kept: seq<Commit>, xs: seq<Commit>)
    requires Chained(base, kept) && Linked(Tip(base, kept), xs)
    ensures Chained(base, kept + xs)
  {
    var all := kept + xs;
    assert base in Ancestors(base);
    forall i | 0 < i < |all|
      ensures all[i].parents == [all[i - 1]]
    {
      if i < |kept| {
        assert all[i] == kept[i] && all[i - 1] == kept[i - 1];
      } else {
        var k := i - |kept|;
        assert all[i] == xs[k];
        assert k > 0 ==> xs[..k][k - 1] == all[i - 1];
      }
    }
    if kept == [] && xs != [] {
      assert all[0] == xs[0] && xs[0].parents == [Tip(base, xs[..0])];
    } else if all != [] {
      assert all[0] == kept[0];
    }
  }

  lemma KeptThenNew(base: Commit, x: Commit, kept: seq<Commit>, xs: seq<Commit>)
    requires Chained(base, kept) && Distinct(kept) && Elems(kept) == Range(base, x)
    requires x == Tip(base, kept)
    requires Linked(x, xs) && Distinct(xs) && Elems(xs) !! Ancestors(x) && Elems(xs) !! Ancestors(base)
    ensures Chained(base, kept + xs) && Distinct(kept + xs)
    ensures Elems(kept + xs) == Elems(kept) + Elems(xs) && Elems(kept + xs) !! Ancestors(base)
  {
    assert Elems(kept) <= Ancestors(x);
    DistinctConcat(kept, xs);
    ChainedConcat(base, kept, xs);
  }
}
