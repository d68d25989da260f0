/**
 hash_path of scripts/compose-up.py: the walk over a directory of the repository
 that feeds the label's hash, and exactly what two directories with one hash
 share.
 */
module DirectoryWalk {
  import opened InputHash

  /** What a directory of the repository holds. A link is told apart by what it
      leads to, because that is how os.walk sorts its entries. */
  datatype Node = Leaf(content: Bytes) | FileLink(to: Bytes) | DirLink(to: Bytes) | Folder(kids: seq<Kid>)

  /** Entries come sorted by name. */
  datatype Kid = Kid(name: Bytes, node: Node)

  const PYCACHE: Bytes := [95, 95, 112, 121, 99, 97, 99, 104, 101, 95, 95]  // "__pycache__"

  /** What an entry adds when its directory's files are listed. */
  function FileOf(prefix: Bytes, k: Kid): seq<Item>
  {
    match k.node
    case Leaf(content) => [FileItem(prefix + k.name, content)]
    case FileLink(to) => [LinkItem(prefix + k.name, to)]
    case _ => []
  }

  function FilesOf(prefix: Bytes, kids: seq<Kid>): seq<Item>
  {
    if kids == [] then [] else FilesOf(prefix, kids[..|kids| - 1]) + FileOf(prefix, kids[|kids| - 1])
  }

  /** os.walk goes into a directory, and not into a link to one. */
  predicate Entered(k: Kid)
  {
    k.node.Folder? && k.name != PYCACHE
  }

  /** The files and links the walk meets: a directory's own first, then those of
      each directory in it. */
  function Walk(prefix: Bytes, d: Node): seq<Item>
    requires d.Folder?
    decreases d, |d.kids| + 1
  {
    FilesOf(prefix, d.kids) + WalkUpTo(prefix, d, |d.kids|)
  }

  function WalkUpTo(prefix: Bytes, d: Node, n: nat): seq<Item>
    requires d.Folder? && n <= |d.kids|
    decreases d, n
  {
    if n == 0 then [] else WalkUpTo(prefix, d, n - 1) + WalkInto(prefix, d, n - 1)
  }

  function WalkInto(prefix: Bytes, d: Node, i: nat): seq<Item>
    requires d.Folder? && i < |d.kids|
    decreases d, i, 0
  {
    if Entered(d.kids[i]) then Walk(prefix + d.kids[i].name + [SLASH], d.kids[i].node) else []
  }

  /** The bytes fed for a list of files and links. */
  function StreamOf(h: Bytes -> Bytes, items: seq<Item>): Bytes
  {
    EncodeAll(Entries(h, items))
  }

  lemma FedAppend(h: Bytes -> Bytes, a: seq<Item>, b: seq<Item>)
    ensures StreamOf(h, a + b) == StreamOf(h, a) + StreamOf(h, b)
  {
    assert Entries(h, a + b) == Entries(h, a) + Entries(h, b);
    EncodeAppend(Entries(h, a), Entries(h, b));
  }

  /** The update for one entry of a directory. */
  function FileBytes(h: Bytes -> Bytes, prefix: Bytes, k: Kid): Bytes
  {
    match k.node
    case Leaf(content) => [F, NUL] + (prefix + k.name) + [NUL] + h(content)
    case FileLink(to) => [L, NUL] + (prefix + k.name) + [NUL] + to + [NUL]
    case _ => []
  }

  lemma FileBytesFed(h: Bytes -> Bytes, prefix: Bytes, k: Kid)
    ensures FileBytes(h, prefix, k) == StreamOf(h, FileOf(prefix, k))
  {
    var items := FileOf(prefix, k);
    if items != [] {
      var es := Entries(h, items);
      assert es == [ItemEntry(h, items[0])] && es[1..] == [];
      assert EncodeAll(es) == Encode(es[0]) + EncodeAll(es[1..]);
    }
  }

  lemma FileStep(h: Bytes -> Bytes, prefix: Bytes, kids: seq<Kid>, i: nat, fed: Bytes)
    requires i < |kids|
    ensures fed + StreamOf(h, FilesOf(prefix, kids[..i])) + FileBytes(h, prefix, kids[i]) ==
            fed + StreamOf(h, FilesOf(prefix, kids[..i + 1]))
  {
    assert kids[..i + 1][..i] == kids[..i];
    FileBytesFed(h, prefix, kids[i]);
    FedAppend(h, FilesOf(prefix, kids[..i]), FileOf(prefix, kids[i]));
    Regroup(fed, StreamOf(h, FilesOf(prefix, kids[..i])), FileBytes(h, prefix, kids[i]));
  }

  lemma Regroup(a: Bytes, b: Bytes, c: Bytes)
    ensures a + b + c == a + (b + c)
  {
  }

  /** The files of one directory of the walk. */
  method HashFiles(h: Bytes -> Bytes, prefix: Bytes, kids: seq<Kid>, fed: Bytes) returns (fed': Bytes)
    ensures fed' == fed + StreamOf(h, FilesOf(prefix, kids))
  {
    fed' := fed;
    for i := 0 to |kids|
      invariant fed' == fed + StreamOf(h, FilesOf(prefix, kids[..i]))
    {
      FileStep(h, prefix, kids, i, fed);
      if !kids[i].node.Folder? && !kids[i].node.DirLink? {
        fed' := fed' + FileBytes(h, prefix, kids[i]);
      }
    }
    assert kids[..|kids|] == kids;
  }

  lemma WalkStep(h: Bytes -> Bytes, prefix: Bytes, d: Node, i: nat, fed: Bytes)
    requires d.Folder? && i < |d.kids|
    ensures fed + StreamOf(h, WalkUpTo(prefix, d, i)) + StreamOf(h, WalkInto(prefix, d, i)) ==
            fed + StreamOf(h, WalkUpTo(prefix, d, i + 1))
    ensures !Entered(d.kids[i]) ==> StreamOf(h, WalkInto(prefix, d, i)) == []
  {
    FedAppend(h, WalkUpTo(prefix, d, i), WalkInto(prefix, d, i));
    Regroup(fed, StreamOf(h, WalkUpTo(prefix, d, i)), StreamOf(h, WalkInto(prefix, d, i)));
  }

  lemma WalkWhole(h: Bytes -> Bytes, prefix: Bytes, d: Node, fed: Bytes)
    requires d.Folder?
    ensures fed + StreamOf(h, FilesOf(prefix, d.kids)) + StreamOf(h, WalkUpTo(prefix, d, |d.kids|)) ==
            fed + StreamOf(h, Walk(prefix, d))
  {
    FedAppend(h, FilesOf(prefix, d.kids), WalkUpTo(prefix, d, |d.kids|));
    Regroup(fed, StreamOf(h, FilesOf(prefix, d.kids)), StreamOf(h, WalkUpTo(prefix, d, |d.kids|)));
  }

  /** The walk: what it feeds is the stream of what it meets. */
  method HashWalk(h: Bytes -> Bytes, prefix: Bytes, d: Node, fed: Bytes) returns (fed': Bytes)
    requires d.Folder?
    ensures fed' == fed + StreamOf(h, Walk(prefix, d))
    decreases d
  {
    fed' := HashFiles(h, prefix, d.kids, fed);
    ghost var start := fed';
    for i := 0 to |d.kids|
      invariant fed' == start + StreamOf(h, WalkUpTo(prefix, d, i))
    {
      WalkStep(h, prefix, d, i, start);
      if Entered(d.kids[i]) {
        fed' := HashWalk(h, prefix + d.kids[i].name + [SLASH], d.kids[i].node, fed');
      }
    }
    WalkWhole(h, prefix, d, fed);
  }

  /** What hash_path reads of a file or a directory. */
  function SourceOf(n: Node): Source
  {
    if n.Folder? then Tree(Walk([], n)) else if n.Leaf? then Single(n.content) else Unread
  }

  /** hash_path, on a file or on a directory. */
  method HashPath(h: Bytes -> Bytes, n: Node) returns (digest: Bytes)
    requires n.Leaf? || n.Folder?
    ensures digest == h(Stream(h, SourceOf(n)))
  {
    if n.Leaf? {
      return h(h(n.content));
    }
    var fed := HashWalk(h, [], n, []);
    assert [] + StreamOf(h, Walk([], n)) == Stream(h, Tree(Walk([], n)));
    digest := h(fed);
  }

  // ------------------------------------------------ what the walk passes over

  lemma {:induction false} SameUpTo(prefix: Bytes, d: Node, e: Node, n: nat)
    requires d.Folder? && e.Folder? && n <= |d.kids| && n <= |e.kids| && d.kids[..n] == e.kids[..n]
    ensures WalkUpTo(prefix, d, n) == WalkUpTo(prefix, e, n)
  {
    if n > 0 {
      assert d.kids[..n - 1] == d.kids[..n][..n - 1] && e.kids[..n - 1] == e.kids[..n][..n - 1];
      SameUpTo(prefix, d, e, n - 1);
      assert d.kids[n - 1] == d.kids[..n][n - 1] == e.kids[..n][n - 1] == e.kids[n - 1];
    }
  }

  lemma SameInto(prefix: Bytes, d: Node, i: nat, e: Node, j: nat)
    requires d.Folder? && e.Folder? && i < |d.kids| && j < |e.kids| && d.kids[i] == e.kids[j]
    ensures WalkInto(prefix, d, i) == WalkInto(prefix, e, j)
  {
  }

  lemma WalkSnoc(prefix: Bytes, kids: seq<Kid>, k: Kid)
    ensures WalkUpTo(prefix, Folder(kids + [k]), |kids| + 1) ==
            WalkUpTo(prefix, Folder(kids), |kids|) + WalkInto(prefix, Folder([k]), 0)
  {
    var n, d := |kids|, Folder(kids + [k]);
    SameUpTo(prefix, d, Folder(kids), n);
    SameInto(prefix, d, n, Folder([k]), 0);
    assert WalkUpTo(prefix, d, n + 1) == WalkUpTo(prefix, d, n) + WalkInto(prefix, d, n);
  }

  /** The directory without links to directories, without the directories of that
      one name, and without those that hold nothing else. */
  function Pruned(d: Node): (p: Node)
    requires d.Folder?
    ensures p.Folder?
    decreases d, |d.kids| + 1
  {
    Folder(PrunedUpTo(d, |d.kids|))
  }

  function PrunedUpTo(d: Node, n: nat): seq<Kid>
    requires d.Folder? && n <= |d.kids|
    decreases d, n
  {
    if n == 0 then [] else PrunedUpTo(d, n - 1) + PrunedKid(d, n - 1)
  }

  function PrunedKid(d: Node, i: nat): (ks: seq<Kid>)
    requires d.Folder? && i < |d.kids|
    ensures |ks| <= 1 && forall k :: k in ks ==> k.name == d.kids[i].name
    decreases d, i, 0
  {
    var k := d.kids[i];
    if k.node.Folder? then
      if k.name == PYCACHE || Pruned(k.node).kids == [] then [] else [Kid(k.name, Pruned(k.node))]
    else if k.node.DirLink? then [] else [k]
  }

  lemma FilesSnoc(prefix: Bytes, kids: seq<Kid>, k: Kid)
    ensures FilesOf(prefix, kids + [k]) == FilesOf(prefix, kids) + FileOf(prefix, k)
  {
    assert (kids + [k])[..|kids|] == kids;
  }

  function WalkKids(prefix: Bytes, kids: seq<Kid>): seq<Item>
  {
    WalkUpTo(prefix, Folder(kids), |kids|)
  }

  lemma OneKid(prefix: Bytes, k: Kid)
    ensures FilesOf(prefix, [k]) == FileOf(prefix, k) && WalkKids(prefix, [k]) == WalkInto(prefix, Folder([k]), 0)
  {
    assert [] + [k] == [k];
    FilesSnoc(prefix, [], k);
    WalkSnoc(prefix, [], k);
  }

  lemma AtMostOneMore(prefix: Bytes, kids: seq<Kid>, ks: seq<Kid>)
    requires |ks| <= 1
    ensures FilesOf(prefix, kids + ks) == FilesOf(prefix, kids) + FilesOf(prefix, ks)
    ensures WalkKids(prefix, kids + ks) == WalkKids(prefix, kids) + WalkKids(prefix, ks)
  {
    if ks == [] {
      assert kids + ks == kids;
    } else {
      assert ks == [ks[0]];
      FilesSnoc(prefix, kids, ks[0]);
      WalkSnoc(prefix, kids, ks[0]);
      OneKid(prefix, ks[0]);
    }
  }

  /** Pruning leaves the walk as it was. */
  lemma {:induction false} PrunedWalks(prefix: Bytes, d: Node)
    requires d.Folder?
    ensures Walk(prefix, Pruned(d)) == Walk(prefix, d)
    decreases d, |d.kids| + 1
  {
    PrunedWalksUpTo(prefix, d, |d.kids|);
    assert d.kids[..|d.kids|] == d.kids;
  }

  predicate SameSoFar(prefix: Bytes, kids: seq<Kid>, d: Node, n: nat)
    requires d.Folder? && n <= |d.kids|
  {
    FilesOf(prefix, kids) == FilesOf(prefix, d.kids[..n]) && WalkKids(prefix, kids) == WalkUpTo(prefix, d, n)
  }

  lemma {:induction false} PrunedWalksUpTo(prefix: Bytes, d: Node, n: nat)
    requires d.Folder? && n <= |d.kids|
    ensures SameSoFar(prefix, PrunedUpTo(d, n), d, n)
    decreases d, n
  {
    if n > 0 {
      PrunedWalksUpTo(prefix, d, n - 1);
      PrunedWalksKid(prefix, d, n - 1);
      SameOneMore(prefix, PrunedUpTo(d, n - 1), PrunedKid(d, n - 1), d, n);
    }
  }

  lemma SameOneMore(prefix: Bytes, kids: seq<Kid>, ks: seq<Kid>, d: Node, n: nat)
    requires d.Folder? && 0 < n <= |d.kids| && |ks| <= 1 && SameSoFar(prefix, kids, d, n - 1)
    requires FilesOf(prefix, ks) == FileOf(prefix, d.kids[n - 1]) && WalkKids(prefix, ks) == WalkInto(prefix, d, n - 1)
    ensures SameSoFar(prefix, kids + ks, d, n)
  {
    AtMostOneMore(prefix, kids, ks);
    FilesUpTo(prefix, d.kids, n);
    UpToStep(prefix, d, n);
  }

  lemma UpToStep(prefix: Bytes, d: Node, n: nat)
    requires d.Folder? && 0 < n <= |d.kids|
    ensures WalkUpTo(prefix, d, n) == WalkUpTo(prefix, d, n - 1) + WalkInto(prefix, d, n - 1)
  {
  }

  lemma FilesUpTo(prefix: Bytes, kids: seq<Kid>, n: nat)
    requires 0 < n <= |kids|
    ensures FilesOf(prefix, kids[..n]) == FilesOf(prefix, kids[..n - 1]) + FileOf(prefix, kids[n - 1])
  {
    assert kids[..n] == kids[..n - 1] + [kids[n - 1]];
    FilesSnoc(prefix, kids[..n - 1], kids[n - 1]);
  }

  /** What is left of an entry adds what the entry added. */
  lemma {:induction false} PrunedWalksKid(prefix: Bytes, d: Node, i: nat)
    requires d.Folder? && i < |d.kids|
    ensures FilesOf(prefix, PrunedKid(d, i)) == FileOf(prefix, d.kids[i])
    ensures WalkKids(prefix, PrunedKid(d, i)) == WalkInto(prefix, d, i)
    decreases d, i, 0
  {
    var k := d.kids[i];
    if k.node.Folder? && k.name != PYCACHE {
      PrunedWalks(prefix + k.name + [SLASH], k.node);
    }
    if PrunedKid(d, i) != [] {
      OneKid(prefix, PrunedKid(d, i)[0]);
      assert PrunedKid(d, i) == [PrunedKid(d, i)[0]];
    }
  }

  /** Nothing is left to prune. */
  predicate Bare(p: Node)
    decreases p
  {
    p.Folder? && forall i :: 0 <= i < |p.kids| ==>
      !p.kids[i].node.DirLink? &&
      (p.kids[i].node.Folder? ==> Entered(p.kids[i]) && p.kids[i].node.kids != [] && Bare(p.kids[i].node))
  }

  lemma {:induction false} PrunedBare(d: Node)
    requires d.Folder?
    ensures Bare(Pruned(d))
    decreases d, |d.kids| + 1
  {
    PrunedBareUpTo(d, |d.kids|);
  }

  lemma {:induction false} PrunedBareUpTo(d: Node, n: nat)
    requires d.Folder? && n <= |d.kids|
    ensures Bare(Folder(PrunedUpTo(d, n)))
    decreases d, n
  {
    if n > 0 {
      PrunedBareUpTo(d, n - 1);
      if d.kids[n - 1].node.Folder? {
        PrunedBare(d.kids[n - 1].node);
      }
    }
  }

  /** With something left, the walk meets something. */
  lemma {:induction false} BareMeets(prefix: Bytes, p: Node)
    requires Bare(p) && p.kids != []
    ensures Walk(prefix, p) != []
    decreases p
  {
    var n := |p.kids| - 1;
    var k := p.kids[n];
    if k.node.Folder? {
      BareMeets(prefix + k.name + [SLASH], k.node);
      assert WalkInto(prefix, p, n) != [];
    } else {
      assert FileOf(prefix, k) != [];
    }
  }

  /** An entry the walk does not meet: a link to a directory, wherever it leads,
      a directory of that one name, or one that holds nothing else. */
  predicate Unseen(k: Kid)
  {
    k.node.DirLink? || (k.node.Folder? && (k.name == PYCACHE || Pruned(k.node).kids == []))
  }

  lemma UnseenAddsNothing(prefix: Bytes, k: Kid)
    ensures Unseen(k) <==> FileOf(prefix, k) + WalkInto(prefix, Folder([k]), 0) == []
  {
    if Entered(k) {
      var inner := prefix + k.name + [SLASH];
      PrunedWalks(inner, k.node);
      PrunedBare(k.node);
      if Pruned(k.node).kids != [] {
        BareMeets(inner, Pruned(k.node));
      }
    }
  }

  lemma {:induction false} FilesBetween(prefix: Bytes, a: seq<Kid>, k: Kid, b: seq<Kid>)
    ensures |FilesOf(prefix, a + [k] + b)| == |FilesOf(prefix, a + b)| + |FileOf(prefix, k)|
    ensures FileOf(prefix, k) == [] ==> FilesOf(prefix, a + [k] + b) == FilesOf(prefix, a + b)
    decreases |b|
  {
    if b == [] {
      assert a + [k] + b == a + [k] && a + b == a;
      FilesSnoc(prefix, a, k);
    } else {
      var n := |b| - 1;
      FilesBetween(prefix, a, k, b[..n]);
      assert a + [k] + b == a + [k] + b[..n] + [b[n]] && a + b == a + b[..n] + [b[n]];
      FilesSnoc(prefix, a + [k] + b[..n], b[n]);
      FilesSnoc(prefix, a + b[..n], b[n]);
    }
  }

  lemma {:induction false} WalkBetween(prefix: Bytes, a: seq<Kid>, k: Kid, b: seq<Kid>)
    ensures |WalkKids(prefix, a + [k] + b)| == |WalkKids(prefix, a + b)| + |WalkInto(prefix, Folder([k]), 0)|
    ensures WalkInto(prefix, Folder([k]), 0) == [] ==> WalkKids(prefix, a + [k] + b) == WalkKids(prefix, a + b)
    decreases |b|
  {
    if b == [] {
      assert a + [k] + b == a + [k] && a + b == a;
      WalkSnoc(prefix, a, k);
    } else {
      var n := |b| - 1;
      WalkBetween(prefix, a, k, b[..n]);
      assert a + [k] + b == a + [k] + b[..n] + [b[n]] && a + b == a + b[..n] + [b[n]];
      WalkSnoc(prefix, a + [k] + b[..n], b[n]);
      WalkSnoc(prefix, a + b[..n], b[n]);
    }
  }

  lemma WalkParts(prefix: Bytes, kids: seq<Kid>)
    ensures Walk(prefix, Folder(kids)) == FilesOf(prefix, kids) + WalkKids(prefix, kids)
    ensures |Walk(prefix, Folder(kids))| == |FilesOf(prefix, kids)| + |WalkKids(prefix, kids)|
  {
  }

  /** Adding or dropping an entry changes nothing that is hashed exactly when it
      is one of these. */
  lemma UnseenIff(prefix: Bytes, a: seq<Kid>, k: Kid, b: seq<Kid>)
    ensures Walk(prefix, Folder(a + [k] + b)) == Walk(prefix, Folder(a + b)) <==> Unseen(k)
    ensures k.node.Folder? && k.name == [95, 95, 112, 121, 99, 97, 99, 104, 101, 95, 95] ==> Unseen(k)
    ensures k.node.Leaf? || k.node.FileLink? ==> !Unseen(k)
  {
    UnseenAddsNothing(prefix, k);
    FilesBetween(prefix, a, k, b);
    WalkBetween(prefix, a, k, b);
    WalkParts(prefix, a + [k] + b);
    WalkParts(prefix, a + b);
  }

  // ------------------------------------------------- what the walk tells apart

  /** The order entries are listed in. */
  predicate Before(a: Bytes, b: Bytes)
  {
    b != [] && (a == [] || a[0] < b[0] || (a[0] == b[0] && Before(a[1..], b[1..])))
  }

  lemma BeforeOneWay(a: Bytes, b: Bytes)
    requires Before(a, b)
    ensures !Before(b, a) && a != b
  {
  }

  predicate Sorted(kids: seq<Kid>)
  {
    forall i, j :: 0 <= i < j < |kids| ==> Before(kids[i].name, kids[j].name)
  }

  /** A directory as it is listed: names without a slash, each once, in order. */
  predicate Listed(d: Node)
    decreases d
  {
    d.Folder? ==> Sorted(d.kids) && forall i :: 0 <= i < |d.kids| ==> SLASH !in d.kids[i].name && Listed(d.kids[i].node)
  }

  lemma {:induction false} PrunedListed(d: Node)
    requires d.Folder? && Listed(d)
    ensures Listed(Pruned(d))
    decreases d, |d.kids| + 1
  {
    PrunedListedUpTo(d, |d.kids|);
  }

  lemma {:induction false} PrunedListedUpTo(d: Node, n: nat)
    requires d.Folder? && Listed(d) && n <= |d.kids|
    ensures Listed(Folder(PrunedUpTo(d, n)))
    ensures forall k :: k in PrunedUpTo(d, n) ==> exists i :: 0 <= i < n && d.kids[i].name == k.name
    decreases d, n
  {
    if n > 0 {
      PrunedListedUpTo(d, n - 1);
      if d.kids[n - 1].node.Folder? {
        PrunedListed(d.kids[n - 1].node);
      }
      var before, ks := PrunedUpTo(d, n - 1), PrunedUpTo(d, n);
      forall i, j | 0 <= i < j < |ks|
        ensures Before(ks[i].name, ks[j].name)
      {
        assert ks[i] == before[i];
        if j < |before| {
          assert ks[j] == before[j];
        } else {
          assert before[i] in before && ks[j] in PrunedKid(d, n - 1);
          var m :| 0 <= m < n - 1 && d.kids[m].name == before[i].name;
        }
      }
      forall k | k in ks
        ensures exists i :: 0 <= i < n && d.kids[i].name == k.name
      {
        if k !in before {
          assert d.kids[n - 1].name == k.name;
        }
      }
    }
  }

  /** Sorted lists of the same entries are the same list. */
  lemma {:induction false} SortedOnce(a: seq<Kid>, b: seq<Kid>)
    requires Sorted(a) && Sorted(b) && forall k :: k in a <==> k in b
    ensures a == b
  {
    SameEmpty(a, b);
    if a != [] {
      assert a[0] in b && b[0] in a;
      var i :| 0 <= i < |b| && b[i] == a[0];
      var j :| 0 <= j < |a| && a[j] == b[0];
      if i > 0 && j > 0 {
        BeforeOneWay(a[0].name, b[0].name);
      }
      assert a[0] == b[0];
      SortedRest(a, b);
      SortedRest(b, a);
      SortedOnce(a[1..], b[1..]);
    }
  }

  lemma SameEmpty(a: seq<Kid>, b: seq<Kid>)
    requires forall k :: k in a <==> k in b
    ensures a == [] <==> b == []
  {
    if a != [] {
      assert a[0] in b;
    }
    if b != [] {
      assert b[0] in a;
    }
  }

  lemma SortedRest(a: seq<Kid>, b: seq<Kid>)
    requires Sorted(a) && a != [] && b != [] && a[0] == b[0] && forall k :: k in a ==> k in b
    ensures Sorted(a[1..]) && forall k :: k in a[1..] ==> k in b[1..]
  {
    forall k | k in a[1..]
      ensures k in b[1..]
    {
      var i :| 0 <= i < |a[1..]| && a[1..][i] == k;
      assert a[i + 1] == k && k in a;
      BeforeOneWay(a[0].name, k.name);
      var j :| 0 <= j < |b| && b[j] == k;
      assert b[1..][j - 1] == k;
    }
  }

  /** The items below a path. */
  function Select(items: seq<Item>, path: Bytes): seq<Item>
  {
    if items == [] then [] else
    Select(items[..|items| - 1], path) + if path <= items[|items| - 1].rel then [items[|items| - 1]] else []
  }

  lemma {:induction false} SelectAppend(a: seq<Item>, b: seq<Item>, path: Bytes)
    ensures Select(a + b, path) == Select(a, path) + Select(b, path)
    decreases |b|
  {
    if b == [] {
      assert a + b == a;
    } else {
      assert (a + b)[..|a + b| - 1] == a + b[..|b| - 1];
      SelectAppend(a, b[..|b| - 1], path);
    }
  }

  lemma {:induction false} SelectAll(items: seq<Item>, path: Bytes)
    requires forall i :: 0 <= i < |items| ==> path <= items[i].rel
    ensures Select(items, path) == items
  {
    if items != [] {
      var n := |items| - 1;
      SelectAll(items[..n], path);
      assert path <= items[n].rel;
      assert items[..n] + [items[n]] == items;
    }
  }

  lemma {:induction false} SelectNone(items: seq<Item>, path: Bytes)
    requires forall i :: 0 <= i < |items| ==> !(path <= items[i].rel)
    ensures Select(items, path) == []
  {
    if items != [] {
      SelectNone(items[..|items| - 1], path);
    }
  }

  lemma {:induction false} FilesAt(prefix: Bytes, kids: seq<Kid>, x: Item)
    ensures x in FilesOf(prefix, kids) <==> exists i :: 0 <= i < |kids| && x in FileOf(prefix, kids[i])
  {
    if kids != [] {
      var n := |kids| - 1;
      FilesAt(prefix, kids[..n], x);
      assert kids[..n] + [kids[n]] == kids;
      FilesSnoc(prefix, kids[..n], kids[n]);
      assert x in FilesOf(prefix, kids) <==> x in FilesOf(prefix, kids[..n]) || x in FileOf(prefix, kids[n]);
      assert forall i :: 0 <= i < n ==> kids[..n][i] == kids[i];
      if i :| 0 <= i < |kids| && x in FileOf(prefix, kids[i]) {
        assert i < n ==> x in FileOf(prefix, kids[..n][i]);
      }
    }
  }

  lemma {:induction false} UpToAt(prefix: Bytes, d: Node, n: nat, x: Item)
    requires d.Folder? && n <= |d.kids|
    ensures x in WalkUpTo(prefix, d, n) <==> exists i :: 0 <= i < n && x in WalkInto(prefix, d, i)
  {
    if n > 0 {
      UpToAt(prefix, d, n - 1, x);
      UpToStep(prefix, d, n);
      assert x in WalkUpTo(prefix, d, n) <==> x in WalkUpTo(prefix, d, n - 1) || x in WalkInto(prefix, d, n - 1);
    }
  }

  /** Everything the walk of a directory meets is below it. */
  lemma {:induction false} WalkBelow(prefix: Bytes, d: Node, x: Item)
    requires d.Folder? && x in Walk(prefix, d)
    ensures prefix <= x.rel
    decreases d
  {
    if x in FilesOf(prefix, d.kids) {
      FilesAt(prefix, d.kids, x);
    } else {
      UpToAt(prefix, d, |d.kids|, x);
      var i :| 0 <= i < |d.kids| && x in WalkInto(prefix, d, i);
      var inner := prefix + d.kids[i].name + [SLASH];
      WalkBelow(inner, d.kids[i].node, x);
      assert prefix <= inner;
    }
  }

  /** A slash ends a name. */
  lemma NameEnds(prefix: Bytes, m: Bytes, n: Bytes, rel: Bytes)
    requires SLASH !in m && SLASH !in n && prefix + m + [SLASH] <= rel
    ensures rel != prefix + n
    ensures prefix + n + [SLASH] <= rel ==> m == n
  {
    assert rel[|prefix| + |m|] == SLASH;
    assert forall i :: |prefix| <= i < |prefix + n| ==> (prefix + n)[i] == n[i - |prefix|] && n[i - |prefix|] != SLASH;
    if prefix + n + [SLASH] <= rel {
      assert rel[|prefix| + |n|] == SLASH;
      assert forall i :: 0 <= i < |m| ==> rel[|prefix| + i] == m[i];
      assert forall i :: 0 <= i < |n| ==> rel[|prefix| + i] == n[i];
      assert |m| == |n|;
    }
  }

  /** Of a directory's own files none is below a directory in it, and of what one
      directory in it holds nothing is below another. */
  lemma IntoBelow(prefix: Bytes, d: Node, i: nat, name: Bytes, x: Item)
    requires d.Folder? && Listed(d) && i < |d.kids| && SLASH !in name
    ensures x in FileOf(prefix, d.kids[i]) ==> !(prefix + name + [SLASH] <= x.rel)
    ensures x in WalkInto(prefix, d, i) ==> (prefix + name + [SLASH] <= x.rel <==> d.kids[i].name == name)
  {
    var k := d.kids[i];
    if prefix + name + [SLASH] <= x.rel {
      NameEnds(prefix, name, k.name, x.rel);
    }
    if x in WalkInto(prefix, d, i) {
      WalkBelow(prefix + k.name + [SLASH], k.node, x);
    }
  }

  lemma SelectInto(prefix: Bytes, d: Node, j: nat, i: nat)
    requires d.Folder? && Listed(d) && j < |d.kids| && i < |d.kids|
    ensures Select(WalkInto(prefix, d, j), prefix + d.kids[i].name + [SLASH]) ==
            if j == i then WalkInto(prefix, d, j) else []
  {
    var path, into := prefix + d.kids[i].name + [SLASH], WalkInto(prefix, d, j);
    NamesOnce(d, j, i);
    forall k | 0 <= k < |into|
      ensures path <= into[k].rel <==> j == i
    {
      IntoBelow(prefix, d, j, d.kids[i].name, into[k]);
    }
    if j == i {
      SelectAll(into, path);
    } else {
      SelectNone(into, path);
    }
  }

  lemma NothingMore(items: seq<Item>)
    ensures items + [] == items && [] + items == items
  {
  }

  lemma {:induction false} SelectUpTo(prefix: Bytes, d: Node, n: nat, i: nat)
    requires d.Folder? && Listed(d) && n <= |d.kids| && i < |d.kids|
    ensures Select(WalkUpTo(prefix, d, n), prefix + d.kids[i].name + [SLASH]) ==
            if i < n then WalkInto(prefix, d, i) else []
    decreases n
  {
    if n > 0 {
      var path := prefix + d.kids[i].name + [SLASH];
      SelectUpTo(prefix, d, n - 1, i);
      SelectInto(prefix, d, n - 1, i);
      UpToStep(prefix, d, n);
      SelectAppend(WalkUpTo(prefix, d, n - 1), WalkInto(prefix, d, n - 1), path);
      NothingMore(Select(WalkUpTo(prefix, d, n - 1), path));
    }
  }

  lemma NamesOnce(d: Node, i: nat, j: nat)
    requires d.Folder? && Listed(d) && i < |d.kids| && j < |d.kids|
    ensures d.kids[i].name == d.kids[j].name <==> i == j
  {
    if i < j {
      BeforeOneWay(d.kids[i].name, d.kids[j].name);
    } else if j < i {
      BeforeOneWay(d.kids[j].name, d.kids[i].name);
    }
  }

  /** The walk of a directory holds that of each directory in it. */
  lemma SelectWalk(prefix: Bytes, d: Node, i: nat)
    requires d.Folder? && Listed(d) && i < |d.kids|
    ensures Select(Walk(prefix, d), prefix + d.kids[i].name + [SLASH]) == WalkInto(prefix, d, i)
  {
    var path := prefix + d.kids[i].name + [SLASH];
    var files := FilesOf(prefix, d.kids);
    SelectAppend(files, WalkUpTo(prefix, d, |d.kids|), path);
    SelectUpTo(prefix, d, |d.kids|, i);
    forall j | 0 <= j < |files|
      ensures !(path <= files[j].rel)
    {
      FilesAt(prefix, d.kids, files[j]);
      var k :| 0 <= k < |d.kids| && files[j] in FileOf(prefix, d.kids[k]);
      IntoBelow(prefix, d, k, d.kids[i].name, files[j]);
    }
    SelectNone(files, path);
  }

  /** An item tells which entry of the directory it came by. */
  lemma ItemFrom(prefix: Bytes, d: Node, x: Item) returns (i: nat)
    requires d.Folder? && x in Walk(prefix, d)
    ensures i < |d.kids| && (x in FileOf(prefix, d.kids[i]) || x in WalkInto(prefix, d, i))
  {
    FilesAt(prefix, d.kids, x);
    UpToAt(prefix, d, |d.kids|, x);
    i :| 0 <= i < |d.kids| && (x in FileOf(prefix, d.kids[i]) || x in WalkInto(prefix, d, i));
  }

  lemma FileMet(prefix: Bytes, d: Node, i: nat)
    requires d.Folder? && i < |d.kids| && FileOf(prefix, d.kids[i]) != []
    ensures FileOf(prefix, d.kids[i])[0] in Walk(prefix, d)
  {
    FilesAt(prefix, d.kids, FileOf(prefix, d.kids[i])[0]);
  }

  /** A file or link of one directory is in the other. */
  lemma SameFile(prefix: Bytes, p: Node, q: Node, i: nat)
    requires p.Folder? && q.Folder? && Listed(p) && Listed(q) && Walk(prefix, p) == Walk(prefix, q)
    requires i < |p.kids| && FileOf(prefix, p.kids[i]) != []
    ensures p.kids[i] in q.kids
  {
    var x := FileOf(prefix, p.kids[i])[0];
    FileMet(prefix, p, i);
    var j := ItemFrom(prefix, q, x);
    if x in WalkInto(prefix, q, j) {
      WalkBelow(prefix + q.kids[j].name + [SLASH], q.kids[j].node, x);
      NameEnds(prefix, q.kids[j].name, p.kids[i].name, x.rel);
    }
    assert x in FileOf(prefix, q.kids[j]);
    assert prefix + q.kids[j].name == prefix + p.kids[i].name;
    assert (prefix + q.kids[j].name)[|prefix|..] == q.kids[j].name;
    assert (prefix + p.kids[i].name)[|prefix|..] == p.kids[i].name;
  }

  /** A directory in one directory stands in the other under its name, with the
      same walk. */
  lemma SameFolder(prefix: Bytes, p: Node, q: Node, i: nat) returns (j: nat)
    requires p.Folder? && q.Folder? && Listed(p) && Listed(q) && Walk(prefix, p) == Walk(prefix, q)
    requires i < |p.kids| && WalkInto(prefix, p, i) != []
    ensures j < |q.kids| && Entered(q.kids[j]) && q.kids[j].name == p.kids[i].name
    ensures WalkInto(prefix, q, j) == WalkInto(prefix, p, i)
  {
    var name := p.kids[i].name;
    var x := WalkInto(prefix, p, i)[0];
    UpToAt(prefix, p, |p.kids|, x);
    IntoBelow(prefix, p, i, name, x);
    j := ItemFrom(prefix, q, x);
    IntoBelow(prefix, q, j, name, x);
    SelectWalk(prefix, p, i);
    SelectWalk(prefix, q, j);
  }

  /** Two pruned directories with one walk are the same. */
  lemma {:induction false} SameTree(prefix: Bytes, p: Node, q: Node)
    requires Bare(p) && Bare(q) && Listed(p) && Listed(q) && Walk(prefix, p) == Walk(prefix, q)
    ensures p == q
    decreases p
  {
    forall i | 0 <= i < |p.kids|
      ensures p.kids[i] in q.kids
    {
      SameKid(prefix, p, q, i);
    }
    forall j | 0 <= j < |q.kids|
      ensures q.kids[j] in p.kids
    {
      SameKidBack(prefix, p, q, j);
    }
    SortedOnce(p.kids, q.kids);
  }

  lemma {:induction false} SameKid(prefix: Bytes, p: Node, q: Node, i: nat)
    requires Bare(p) && Bare(q) && Listed(p) && Listed(q) && Walk(prefix, p) == Walk(prefix, q) && i < |p.kids|
    ensures p.kids[i] in q.kids
    decreases p, 0
  {
    var k := p.kids[i];
    if k.node.Folder? {
      BareMeets(prefix + k.name + [SLASH], k.node);
      var j := SameFolder(prefix, p, q, i);
      SameTree(prefix + k.name + [SLASH], k.node, q.kids[j].node);
      assert q.kids[j] == k;
    } else {
      SameFile(prefix, p, q, i);
    }
  }

  lemma {:induction false} SameKidBack(prefix: Bytes, p: Node, q: Node, j: nat)
    requires Bare(p) && Bare(q) && Listed(p) && Listed(q) && Walk(prefix, p) == Walk(prefix, q) && j < |q.kids|
    ensures q.kids[j] in p.kids
    decreases p, 0
  {
    var k := q.kids[j];
    if k.node.Folder? {
      BareMeets(prefix + k.name + [SLASH], k.node);
      var i := SameFolder(prefix, q, p, j);
      SameTree(prefix + k.name + [SLASH], p.kids[i].node, k.node);
      assert p.kids[i] == k;
    } else {
      SameFile(prefix, q, p, j);
    }
  }

  /** The walk meets the same files and links in two directories exactly when
      what is left of them is the same. */
  lemma WalkIsPruned(prefix: Bytes, a: Node, b: Node)
    requires a.Folder? && b.Folder? && Listed(a) && Listed(b)
    ensures Walk(prefix, a) == Walk(prefix, b) <==> Pruned(a) == Pruned(b)
  {
    PrunedWalks(prefix, a);
    PrunedWalks(prefix, b);
    if Walk(prefix, a) == Walk(prefix, b) {
      PrunedBare(a);
      PrunedBare(b);
      PrunedListed(a);
      PrunedListed(b);
      SameTree(prefix, Pruned(a), Pruned(b));
    }
  }

  /** Two directories have one digest exactly when the walk meets the same in
      them, and so exactly when what is left of them is the same. */
  lemma WalkTellsIff(h: Bytes -> Bytes, a: Node, b: Node)
    requires Digests(h) && a.Folder? && b.Folder? && ValidItems(Walk([], a)) && ValidItems(Walk([], b))
    requires NoCollision(h, Hashed(h, Tree(Walk([], a))) + Hashed(h, Tree(Walk([], b))))
    ensures h(Stream(h, SourceOf(a))) == h(Stream(h, SourceOf(b))) <==> Walk([], a) == Walk([], b)
    ensures Listed(a) && Listed(b) ==> (h(Stream(h, SourceOf(a))) == h(Stream(h, SourceOf(b))) <==> Pruned(a) == Pruned(b))
  {
    var x, y := Walk([], a), Walk([], b);
    if h(Stream(h, Tree(x))) == h(Stream(h, Tree(y))) {
      assert Stream(h, Tree(x)) in Hashed(h, Tree(x)) && Stream(h, Tree(y)) in Hashed(h, Tree(y));
      TreeTells(h, x, y);
    }
    if Listed(a) && Listed(b) {
      WalkIsPruned([], a, b);
    }
  }
}
