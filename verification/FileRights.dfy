/**
 "A file the user cannot change": userWritable (cmd/innsegl/doctorrights.go)
 walks from a resolved path to the root and answers from owners, modes and the
 sticky bit. The filesystem here is a table of inodes, and one non-root user
 makes any sequence of moves the kernel's permission rules allow. Any group
 write bit counts as the user's.
 */
module FileRights {
  import opened Options

  datatype Mode = Mode(ownerWrite: bool, groupWrite: bool, otherWrite: bool, sticky: bool)
  datatype Node = File(bytes: seq<int>) | Dir(entries: map<string, nat>) | Symlink(target: string)
  datatype Inode = Inode(owner: int, mode: Mode, node: Node)
  datatype FS = FS(root: nat, inodes: map<nat, Inode>)

  /** A path as its components below the root; its parent drops the last. */
  type Path = seq<string>

  function Entry(fs: FS, d: nat, name: string): (r: Option<nat>)
    requires d in fs.inodes
    ensures r.Some? ==> r.value in fs.inodes
  {
    var node := fs.inodes[d].node;
    if node.Dir? && name in node.entries && node.entries[name] in fs.inodes then Some(node.entries[name]) else None
  }

  /** The inode a resolved path names: every step is an entry of a directory. */
  function Resolve(fs: FS, p: Path): (r: Option<nat>)
    ensures r.Some? ==> r.value in fs.inodes
  {
    if p == [] then (if fs.root in fs.inodes then Some(fs.root) else None) else
    var n := |p| - 1;
    match Resolve(fs, p[..n])
    case None => None
    case Some(d) => Entry(fs, d, p[n])
  }

  // ------------------------------------------------------------ the check

  datatype Why =
    | Nothing
    | Unreadable(at: Path)
    | Owned(at: Path)
    | WorldWritable(at: Path)
    | GroupWritable(at: Path)

  /** What the walk finds at one level. */
  function Level(fs: FS, p: Path, uid: int): Why
  {
    match Resolve(fs, p)
    case None => Unreadable(p)
    case Some(i) =>
      var inode := fs.inodes[i];
      if inode.owner == uid then Owned(p) else
      if inode.node.Dir? && inode.mode.sticky then Nothing else
      if inode.mode.otherWrite then WorldWritable(p) else
      if inode.mode.groupWrite then GroupWritable(p) else Nothing
  }

  /** No level of the path gives the user a hold on it. */
  predicate Safe(fs: FS, p: Path, uid: int)
  {
    forall k :: 0 <= k <= |p| ==> Level(fs, p[..k], uid) == Nothing
  }

  /** userWritable: the reason at the deepest level that has one. */
  method UserWritable(fs: FS, p: Path, uid: int) returns (why: Why)
    ensures why == Nothing <==> Safe(fs, p, uid)
    ensures why != Nothing ==> |why.at| <= |p| && why.at == p[..|why.at|] && why == Level(fs, why.at, uid)
    ensures why != Nothing ==> forall k :: |why.at| < k <= |p| ==> Level(fs, p[..k], uid) == Nothing
  {
    var n := |p|;
    while true
      invariant 0 <= n <= |p|
      invariant forall k :: n < k <= |p| ==> Level(fs, p[..k], uid) == Nothing
      decreases n
    {
      var cur := p[..n];
      var lstat := Resolve(fs, cur);
      if lstat.None? {
        return Unreadable(cur);
      }
      var inode := fs.inodes[lstat.value];
      if inode.owner == uid {
        return Owned(cur);
      }
      var sticky := inode.node.Dir? && inode.mode.sticky;
      if sticky {
      } else if inode.mode.otherWrite {
        return WorldWritable(cur);
      } else if inode.mode.groupWrite {
        return GroupWritable(cur);
      }
      if n == 0 {
        return Nothing;
      }
      n := n - 1;
    }
  }

  // ------------------------------------------------------------ the moves

  datatype Move =
    | Create(dir: nat, name: string, ino: nat, mode: Mode, node: Node)
    | HardLink(dir: nat, name: string, ino: nat)
    | Write(ino: nat, bytes: seq<int>)
    | Unlink(dir: nat, name: string)
    | Rename(dir: nat, name: string, toDir: nat, toName: string)
    | Chmod(ino: nat, mode: Mode)

  predicate CanWrite(fs: FS, i: nat, uid: int)
    requires i in fs.inodes
  {
    var inode := fs.inodes[i];
    if inode.owner == uid then inode.mode.ownerWrite else inode.mode.groupWrite || inode.mode.otherWrite
  }

  predicate WritableDir(fs: FS, d: nat, uid: int)
  {
    d in fs.inodes && fs.inodes[d].node.Dir? && CanWrite(fs, d, uid)
  }

  /** An entry of a sticky directory is its owner's, or the directory owner's,
      to remove; a directory that is not empty is nobody's. */
  predicate CanTakeName(fs: FS, d: nat, name: string, uid: int)
    requires d in fs.inodes
  {
    var e := Entry(fs, d, name);
    e.Some? && (fs.inodes[d].mode.sticky ==> fs.inodes[d].owner == uid || fs.inodes[e.value].owner == uid)
  }

  predicate CanReplace(fs: FS, d: nat, name: string, uid: int)
    requires d in fs.inodes
  {
    CanTakeName(fs, d, name, uid) &&
    (fs.inodes[Entry(fs, d, name).value].node.Dir? ==> fs.inodes[Entry(fs, d, name).value].node.entries == map[])
  }

  predicate Absent(fs: FS, d: nat, name: string)
    requires d in fs.inodes
  {
    fs.inodes[d].node.Dir? && name !in fs.inodes[d].node.entries
  }

  predicate Enabled(fs: FS, m: Move, uid: int)
  {
    match m
    case Create(d, name, ino, _, node) =>
      WritableDir(fs, d, uid) && Absent(fs, d, name) && ino !in fs.inodes && (node.Dir? ==> node.entries == map[])
    case HardLink(d, name, ino) =>
      WritableDir(fs, d, uid) && Absent(fs, d, name) && ino in fs.inodes
    case Write(ino, _) =>
      ino in fs.inodes && fs.inodes[ino].node.File? && CanWrite(fs, ino, uid)
    case Unlink(d, name) =>
      WritableDir(fs, d, uid) && CanReplace(fs, d, name, uid)
    case Rename(d, name, d', name') =>
      && WritableDir(fs, d, uid) && CanTakeName(fs, d, name, uid)
      && WritableDir(fs, d', uid) && (Absent(fs, d', name') || CanReplace(fs, d', name', uid))
    case Chmod(ino, _) =>
      ino in fs.inodes && fs.inodes[ino].owner == uid
  }

  function SetEntry(fs: FS, d: nat, name: string, ino: nat): FS
    requires d in fs.inodes && fs.inodes[d].node.Dir?
  {
    var inode := fs.inodes[d];
    fs.(inodes := fs.inodes[d := inode.(node := Dir(inode.node.entries[name := ino]))])
  }

  function DropEntry(fs: FS, d: nat, name: string): FS
    requires d in fs.inodes && fs.inodes[d].node.Dir?
  {
    var inode := fs.inodes[d];
    fs.(inodes := fs.inodes[d := inode.(node := Dir(inode.node.entries - {name}))])
  }

  function Apply(fs: FS, m: Move, uid: int): FS
    requires Enabled(fs, m, uid)
  {
    match m
    case Create(d, name, ino, mode, node) =>
      SetEntry(fs.(inodes := fs.inodes[ino := Inode(uid, mode, node)]), d, name, ino)
    case HardLink(d, name, ino) => SetEntry(fs, d, name, ino)
    case Write(ino, bytes) => fs.(inodes := fs.inodes[ino := fs.inodes[ino].(node := File(bytes))])
    case Unlink(d, name) => DropEntry(fs, d, name)
    case Rename(d, name, d', name') => SetEntry(DropEntry(fs, d, name), d', name', Entry(fs, d, name).value)
    case Chmod(ino, mode) => fs.(inodes := fs.inodes[ino := fs.inodes[ino].(mode := mode)])
  }

  predicate Runs(fs: FS, ms: seq<Move>, uid: int)
    decreases |ms|
  {
    ms == [] || (Enabled(fs, ms[0], uid) && Runs(Apply(fs, ms[0], uid), ms[1..], uid))
  }

  function After(fs: FS, ms: seq<Move>, uid: int): FS
    requires Runs(fs, ms, uid)
    decreases |ms|
  {
    if ms == [] then fs else After(Apply(fs, ms[0], uid), ms[1..], uid)
  }

  // ------------------------------------------------- what a safe path keeps

  /** The inode keeps its owner, its mode and its kind, and a file its bytes. */
  predicate Kept(a: Inode, b: Inode)
  {
    a.owner == b.owner && a.mode == b.mode && (a.node.Dir? <==> b.node.Dir?) && (a.node.Dir? || a.node == b.node)
  }

  predicate SafeInode(fs: FS, i: nat, uid: int)
  {
    i in fs.inodes && fs.inodes[i].owner != uid &&
    ((fs.inodes[i].node.Dir? && fs.inodes[i].mode.sticky) || !CanWrite(fs, i, uid))
  }

  lemma LevelIsSafeInode(fs: FS, p: Path, uid: int)
    requires Level(fs, p, uid) == Nothing
    ensures Resolve(fs, p).Some? && SafeInode(fs, Resolve(fs, p).value, uid)
  {}

  /** No one move changes a safe inode. */
  lemma SafeInodeKept(fs: FS, m: Move, uid: int, i: nat)
    requires Enabled(fs, m, uid) && SafeInode(fs, i, uid)
    ensures i in Apply(fs, m, uid).inodes && Kept(fs.inodes[i], Apply(fs, m, uid).inodes[i])
  {}

  /** Nor which inode a safe directory's entry names, when that is safe too. */
  lemma SafeEntryKept(fs: FS, m: Move, uid: int, d: nat, name: string)
    requires Enabled(fs, m, uid) && SafeInode(fs, d, uid)
    requires Entry(fs, d, name).Some? && SafeInode(fs, Entry(fs, d, name).value, uid)
    ensures d in Apply(fs, m, uid).inodes && Entry(Apply(fs, m, uid), d, name) == Entry(fs, d, name)
  {
    SafeInodeKept(fs, m, uid, Entry(fs, d, name).value);
  }

  /** The path still leads, level by level, to the same inodes. */
  predicate Intact(fs: FS, fs': FS, p: Path)
  {
    forall k :: 0 <= k <= |p| ==>
      && Resolve(fs, p[..k]).Some? && Resolve(fs', p[..k]) == Resolve(fs, p[..k])
      && Kept(fs.inodes[Resolve(fs, p[..k]).value], fs'.inodes[Resolve(fs, p[..k]).value])
  }

  lemma {:induction false} StepKeepsLevel(fs: FS, m: Move, uid: int, p: Path, k: nat)
    requires Enabled(fs, m, uid) && Safe(fs, p, uid) && k <= |p|
    ensures Resolve(fs, p[..k]).Some? && Resolve(Apply(fs, m, uid), p[..k]) == Resolve(fs, p[..k])
    ensures Kept(fs.inodes[Resolve(fs, p[..k]).value], Apply(fs, m, uid).inodes[Resolve(fs, p[..k]).value])
    decreases k
  {
    LevelIsSafeInode(fs, p[..k], uid);
    SafeInodeKept(fs, m, uid, Resolve(fs, p[..k]).value);
    if k > 0 {
      assert p[..k][..k - 1] == p[..k - 1];
      StepKeepsLevel(fs, m, uid, p, k - 1);
      LevelIsSafeInode(fs, p[..k - 1], uid);
      SafeEntryKept(fs, m, uid, Resolve(fs, p[..k - 1]).value, p[k - 1]);
    }
  }

  lemma StepKeepsSafe(fs: FS, m: Move, uid: int, p: Path)
    requires Enabled(fs, m, uid) && Safe(fs, p, uid)
    ensures Intact(fs, Apply(fs, m, uid), p) && Safe(Apply(fs, m, uid), p, uid)
  {
    forall k | 0 <= k <= |p|
      ensures Resolve(fs, p[..k]).Some? && Resolve(Apply(fs, m, uid), p[..k]) == Resolve(fs, p[..k])
      ensures Kept(fs.inodes[Resolve(fs, p[..k]).value], Apply(fs, m, uid).inodes[Resolve(fs, p[..k]).value])
      ensures Level(Apply(fs, m, uid), p[..k], uid) == Nothing
    {
      StepKeepsLevel(fs, m, uid, p, k);
      assert Level(fs, p[..k], uid) == Nothing;
    }
  }

  lemma IntactTransitive(a: FS, b: FS, c: FS, p: Path)
    requires Intact(a, b, p) && Intact(b, c, p)
    ensures Intact(a, c, p)
  {
    forall k | 0 <= k <= |p|
      ensures Resolve(a, p[..k]).Some? && Resolve(c, p[..k]) == Resolve(a, p[..k])
      ensures Kept(a.inodes[Resolve(a, p[..k]).value], c.inodes[Resolve(a, p[..k]).value])
    {
      assert Resolve(b, p[..k]) == Resolve(a, p[..k]);
      assert Resolve(c, p[..k]) == Resolve(b, p[..k]);
    }
  }

  /** The claim of an empty answer, over every run of moves: the path leads to
      the same inodes, the file holds the same bytes, and the answer stays
      empty. */
  lemma {:induction false} SafeForever(fs: FS, ms: seq<Move>, uid: int, p: Path)
    requires Safe(fs, p, uid) && Runs(fs, ms, uid)
    ensures Intact(fs, After(fs, ms, uid), p) && Safe(After(fs, ms, uid), p, uid)
    decreases |ms|
  {
    if ms == [] {
      forall k | 0 <= k <= |p|
        ensures Resolve(fs, p[..k]).Some?
      {
        LevelIsSafeInode(fs, p[..k], uid);
      }
    } else {
      var next := Apply(fs, ms[0], uid);
      StepKeepsSafe(fs, ms[0], uid, p);
      SafeForever(next, ms[1..], uid, p);
      IntactTransitive(fs, next, After(next, ms[1..], uid), p);
    }
  }

  // --------------------------------------- and what an unsafe path does not

  /** The path still names the same inode, holding the same. */
  predicate HoldsSame(fs: FS, fs': FS, p: Path)
  {
    && Resolve(fs, p).Some? && Resolve(fs', p) == Resolve(fs, p)
    && fs.inodes[Resolve(fs, p).value].node == fs'.inodes[Resolve(fs, p).value].node
  }

  lemma {:induction false} LongerThanAll(s: set<string>) returns (n: nat)
    ensures forall x :: x in s ==> |x| < n
    decreases |s|
  {
    n := 0;
    if s != {} {
      var x :| x in s;
      var m := LongerThanAll(s - {x});
      n := m + |x| + 1;
    }
  }

  lemma FreshName(entries: map<string, nat>) returns (name: string)
    ensures name !in entries
  {
    var n := LongerThanAll(entries.Keys);
    name := seq(n, _ => 'x');
    assert |name| == n;
  }

  /** `name` is gone from directory `d`; every other entry it had is as it was,
      and so is everything else but owners and modes. */
  predicate TakenAway(fs: FS, fs': FS, d: nat, name: string)
  {
    && fs'.root == fs.root && fs'.inodes.Keys == fs.inodes.Keys
    && (forall i :: i in fs.inodes && i != d ==> fs'.inodes[i].node == fs.inodes[i].node)
    && d in fs.inodes && fs.inodes[d].node.Dir? && fs'.inodes[d].node.Dir?
    && name !in fs'.inodes[d].node.entries
    && forall x :: x in fs.inodes[d].node.entries && x != name ==>
         x in fs'.inodes[d].node.entries && fs'.inodes[d].node.entries[x] == fs.inodes[d].node.entries[x]
  }

  lemma {:induction false} TakenAwayLevel(fs: FS, fs': FS, d: nat, name: string, p: Path)
    requires TakenAway(fs, fs', d, name) && Resolve(fs, p).Some?
    ensures Resolve(fs', p).None? || Resolve(fs', p) == Resolve(fs, p)
  {
    if p != [] {
      TakenAwayLevel(fs, fs', d, name, p[..|p| - 1]);
    }
  }

  lemma {:induction false} NoneBelow(fs: FS, p: Path, k: nat)
    requires k <= |p| && Resolve(fs, p[..k]).None?
    ensures Resolve(fs, p).None?
    decreases |p|
  {
    if k == |p| {
      assert p[..k] == p;
    } else {
      assert p[..|p| - 1][..k] == p[..k];
      NoneBelow(fs, p[..|p| - 1], k);
    }
  }

  lemma TakenAwayBreaks(fs: FS, fs': FS, d: nat, p: Path, k: nat)
    requires k < |p| && Resolve(fs, p[..k]) == Some(d)
    requires TakenAway(fs, fs', d, p[k])
    ensures Resolve(fs', p).None?
  {
    TakenAwayLevel(fs, fs', d, p[k], p[..k]);
    assert p[..k + 1][..k] == p[..k];
    NoneBelow(fs', p, k + 1);
  }

  const OPEN := Mode(true, true, true, false)

  /** The one or two moves that change what an unsafe level holds. */
  lemma OpenThenWrite(fs: FS, i: nat, uid: int) returns (ms: seq<Move>)
    requires i in fs.inodes && fs.inodes[i].node.File? && !SafeInode(fs, i, uid)
    ensures Runs(fs, ms, uid)
    ensures i in After(fs, ms, uid).inodes && After(fs, ms, uid).inodes[i].node != fs.inodes[i].node
  {
    var other := fs.inodes[i].node.bytes + [0];
    assert |other| != |fs.inodes[i].node.bytes|;
    if fs.inodes[i].owner == uid {
      var chmod, write := Chmod(i, OPEN), Write(i, other);
      var fs1 := Apply(fs, chmod, uid);
      ms := [chmod, write];
      assert ms[1..] == [write] && ms[1..][1..] == [];
      assert Enabled(fs1, write, uid);
      assert After(fs1, [write], uid) == Apply(fs1, write, uid);
    } else {
      var write := Write(i, other);
      ms := [write];
      assert ms[1..] == [];
      assert After(fs, ms, uid) == Apply(fs, write, uid);
    }
  }

  lemma OpenThenRename(fs: FS, d: nat, name: string, uid: int) returns (ms: seq<Move>)
    requires d in fs.inodes && Entry(fs, d, name).Some? && !SafeInode(fs, d, uid)
    ensures Runs(fs, ms, uid) && TakenAway(fs, After(fs, ms, uid), d, name)
  {
    var unused := FreshName(fs.inodes[d].node.entries);
    var rename := Rename(d, name, d, unused);
    if fs.inodes[d].owner == uid {
      var chmod := Chmod(d, OPEN);
      var fs1 := Apply(fs, chmod, uid);
      ms := [chmod, rename];
      assert ms[1..] == [rename] && ms[1..][1..] == [];
      assert Enabled(fs1, rename, uid);
      assert After(fs1, [rename], uid) == Apply(fs1, rename, uid);
    } else {
      ms := [rename];
      assert ms[1..] == [];
    }
  }

  lemma UnsafeCanChange(fs: FS, p: Path, uid: int) returns (ms: seq<Move>)
    requires Resolve(fs, p).Some? && fs.inodes[Resolve(fs, p).value].node.File?
    requires !Safe(fs, p, uid)
    ensures Runs(fs, ms, uid) && !HoldsSame(fs, After(fs, ms, uid), p)
  {
    var k :| 0 <= k <= |p| && Level(fs, p[..k], uid) != Nothing;
    if Resolve(fs, p[..k]).None? {
      NoneBelow(fs, p, k);
    }
    var i := Resolve(fs, p[..k]).value;
    assert !SafeInode(fs, i, uid);
    if k == |p| {
      assert p[..k] == p;
      ms := OpenThenWrite(fs, i, uid);
    } else {
      if Resolve(fs, p[..k + 1]).None? {
        NoneBelow(fs, p, k + 1);
      }
      assert p[..k + 1][..k] == p[..k];
      ms := OpenThenRename(fs, i, p[k], uid);
      TakenAwayBreaks(fs, After(fs, ms, uid), i, p, k);
    }
  }

  /** userWritable is exact for a file: it answers "" exactly when no sequence
      of the user's moves can make the path name anything else, or the file
      hold anything else. */
  lemma AnswerIsExact(fs: FS, p: Path, uid: int)
    requires Resolve(fs, p).Some? && fs.inodes[Resolve(fs, p).value].node.File?
    ensures Safe(fs, p, uid) <==>
            forall ms :: Runs(fs, ms, uid) ==> HoldsSame(fs, After(fs, ms, uid), p)
  {
    if Safe(fs, p, uid) {
      forall ms | Runs(fs, ms, uid)
        ensures HoldsSame(fs, After(fs, ms, uid), p)
      {
        SafeForever(fs, ms, uid, p);
        assert p[..|p|] == p;
      }
    } else {
      var ms := UnsafeCanChange(fs, p, uid);
    }
  }
}
