/**
 The signing keys `innsegl init` writes into a repository's local git config,
 and how --undo puts back what was there (cmd/innsegl/initgit.go). The record
 of what was there lives in the same config, and a run may be cut off at any
 write. A config is a map of single-valued keys.
 */
module ConfigRecorder {
  import opened Options
  import opened Text

  /** The two keys apply writes: gpg.format and gpg.x509.program. */
  datatype SigningKey = Format | Program

  datatype Key =
    | Signing(k: SigningKey)
    | Had(k: SigningKey)
    | Backup(k: SigningKey)
    | Managed
    | Files
    | Ref
    | Other(name: string)

  type Config = map<Key, string>

  const SIGNING_KEYS := [Format, Program]

  function SigningName(k: SigningKey): string
  {
    match k case Format => "gpg.format" case Program => "gpg.x509.program"
  }

  /** backupKeyName: dots are not legal inside a git config key. */
  function Flattened(s: string): (r: string)
    ensures |r| == |s| && '.' !in r
  {
    if s == [] then [] else [if s[0] == '.' then '-' else s[0]] + Flattened(s[1..])
  }

  /** The name git stores a key under. */
  function KeyName(key: Key): string
  {
    match key
    case Signing(k) => SigningName(k)
    case Had(k) => "innsegl.init.had-" + Flattened(SigningName(k))
    case Backup(k) => "innsegl.init.backup-" + Flattened(SigningName(k))
    case Managed => "innsegl.init.managed"
    case Files => "innsegl.init.files"
    case Ref => "innsegl.init.verifyRef"
    case Other(name) => name
  }

  function Length(key: Key): nat
  {
    match key
    case Signing(k) => if k == Format then 10 else 16
    case Had(k) => if k == Format then 27 else 33
    case Backup(k) => if k == Format then 30 else 36
    case Managed => 20
    case Files => 18
    case Ref => 22
    case Other(name) => |name|
  }

  lemma NameLength(key: Key)
    ensures |KeyName(key)| == Length(key)
  {
    assert |SigningName(Format)| == 10 && |SigningName(Program)| == 16;
    assert |"innsegl.init.had-"| == 17;
    assert |"innsegl.init.backup-"| == 20;
  }

  lemma LengthsDistinct(a: Key, b: Key)
    requires !a.Other? && !b.Other? && a != b
    ensures Length(a) != Length(b)
  {
  }

  /** The index of the last dot. */
  function LastDot(s: string): (j: nat)
    requires '.' in s
    ensures j < |s| && s[j] == '.' && '.' !in s[j + 1..]
  {
    var n := |s| - 1;
    if s[n] == '.' then n else
    assert s == s[..n] + [s[n]];
    LastDot(s[..n])
  }

  /** The name git goes by: it ignores letter case in the section and in the
      variable, which stand in front of the first dot and behind the last. */
  function Folded(name: string): (r: string)
    ensures |r| == |name|
  {
    if '.' !in name then Lower(name) else
    var i, j := Find(name, '.'), LastDot(name);
    Lower(name[..i]) + name[i..j] + Lower(name[j..])
  }

  lemma LowerDot(s: string)
    ensures Lower("." + s) == "." + Lower(s)
  {
  }

  lemma NoneBehind(s: string, j: nat)
    requires j < |s| && '.' !in s[j + 1..]
    ensures forall i :: j < i < |s| ==> s[i] != '.'
  {
    assert forall i :: j < i < |s| ==> s[i] == s[j + 1..][i - j - 1];
  }

  lemma DotIsLast(s: string, j: nat)
    requires j < |s| && s[j] == '.' && '.' !in s[j + 1..]
    ensures '.' in s && LastDot(s) == j
  {
    NoneBehind(s, j);
    NoneBehind(s, LastDot(s));
  }

  lemma FoldedAround(name: string, a: string, b: string, c: string)
    requires name == a + b + c && '.' !in a && b != "" && c != "" && b[0] == '.' == c[0] && '.' !in c[1..]
    ensures Folded(name) == Lower(a) + b + Lower(c)
  {
    var i, j := |a|, |a| + |b|;
    assert name[i] == '.' && name[j] == '.' && name[j + 1..] == c[1..];
    assert name[..i] == a && name[i..j] == b && name[j..] == c;
    assert Find(name, '.') == i;
    DotIsLast(name, j);
  }

  /** A name with a subsection: its case is kept. */
  lemma FoldedIs(section: string, sub: string, variable: string)
    requires '.' !in section && '.' !in variable
    ensures Folded(section + "." + sub + "." + variable) ==
            Lower(section) + "." + sub + "." + Lower(variable)
  {
    var name := section + "." + sub + "." + variable;
    FoldedAround(name, section, "." + sub, "." + variable);
    LowerDot(variable);
  }

  /** A user's key is held under the name git goes by, and is none of innsegl's. */
  ghost predicate Named(key: Key)
  {
    key.Other? ==>
      key.name == Folded(key.name) && forall own: Key :: !own.Other? ==> key.name != Folded(KeyName(own))
  }

  lemma LengthTells(a: string, b: string)
    requires |a| != |b|
    ensures Folded(a) != Folded(b)
  {
    assert |Folded(a)| != |Folded(b)|;
  }

  lemma OwnNamesDistinct(a: Key, b: Key)
    requires !a.Other? && !b.Other? && a != b
    ensures Folded(KeyName(a)) != Folded(KeyName(b))
  {
    assert |KeyName(a)| == Length(a) by { NameLength(a); }
    assert |KeyName(b)| == Length(b) by { NameLength(b); }
    LengthsDistinct(a, b);
    LengthTells(KeyName(a), KeyName(b));
  }

  /** Two keys of a config are two names in git, letter case aside: none of
      innsegl's collide once flattened, with each other or with a user's. */
  lemma KeyNamesDistinct(a: Key, b: Key)
    requires Named(a) && Named(b) && a != b
    ensures Folded(KeyName(a)) != Folded(KeyName(b))
  {
    if !a.Other? && !b.Other? {
      OwnNamesDistinct(a, b);
    }
  }

  predicate IsBook(key: Key)
  {
    !key.Signing? && !key.Other?
  }

  function Get(c: Config, key: Key): Option<string>
  {
    if key in c then Some(c[key]) else None
  }

  predicate IsManaged(c: Config)
  {
    Get(c, Managed) == Some("true")
  }

  datatype Write = Set(key: Key, value: string) | Unset(key: Key)

  function DoOne(c: Config, w: Write): Config
  {
    match w
    case Set(key, value) => c[key := value]
    case Unset(key) => c - {key}
  }

  function Do(c: Config, ws: seq<Write>): Config
  {
    if ws == [] then c else DoOne(Do(c, ws[..|ws| - 1]), ws[|ws| - 1])
  }

  // -------------------------------------------------------------- apply

  function CaptureWrites(c: Config, k: SigningKey): seq<Write>
  {
    if Signing(k) in c then [Set(Had(k), "true"), Set(Backup(k), c[Signing(k)])] else [Set(Had(k), "false")]
  }

  function Target(k: SigningKey, path: string): string
  {
    match k case Format => "x509" case Program => path
  }

  function FirstRunWrites(c: Config): seq<Write>
  {
    CaptureWrites(c, Format) + CaptureWrites(c, Program) + [Set(Managed, "true")]
  }

  function TargetWrites(path: string): seq<Write>
  {
    [Set(Signing(Format), Target(Format, path)), Set(Signing(Program), Target(Program, path))]
  }

  /** The writes of one apply, in order: the capture and its seal, unless an
      earlier apply sealed one, then the two keys. */
  function ApplyWrites(c: Config, path: string): seq<Write>
  {
    if path == "" then [] else
    (if IsManaged(c) then [] else FirstRunWrites(c)) + TargetWrites(path)
  }

  // --------------------------------------------------------------- undo

  /** The writes of undo for one key; None is the refusal to guess a value
      recorded as set whose backup is missing. */
  function RestoreWrites(c: Config, k: SigningKey): Option<seq<Write>>
  {
    match Get(c, Had(k))
    case None => Some([Unset(Signing(k))])
    case Some(had) =>
      if had == "true" then
        match Get(c, Backup(k))
        case None => None
        case Some(v) => Some([Set(Signing(k), v), Unset(Had(k)), Unset(Backup(k))])
      else Some([Unset(Signing(k)), Unset(Had(k)), Unset(Backup(k))])
  }

  const CLOSING := [Unset(Files), Unset(Ref), Unset(Managed)]

  /** The writes of one undo, when nothing refuses. */
  function UndoWrites(c: Config): Option<seq<Write>>
  {
    if !IsManaged(c) then None else
    match RestoreWrites(c, Format)
    case None => None
    case Some(f) =>
      match RestoreWrites(c, Program)
      case None => None
      case Some(p) => Some(f + p + CLOSING)
  }

  // ---------------------------------------------------------- the invariant

  /** The record of key `k` says what `base` held. */
  predicate Recorded(c: Config, base: Config, k: SigningKey)
  {
    && Had(k) in c && (c[Had(k)] == "true" <==> Signing(k) in base)
    && (Signing(k) in base ==> Get(c, Backup(k)) == Some(base[Signing(k)]))
  }

  ghost predicate AgreesOutside(c: Config, base: Config)
  {
    forall key: Key :: key.Other? ==> Get(c, key) == Get(base, key)
  }

  /** `base` is the config without innsegl: until the capture is sealed it is
      what is there; afterwards the record holds it. */
  ghost predicate Inv(c: Config, base: Config)
  {
    && (forall key :: key in base ==> !IsBook(key))
    && AgreesOutside(c, base)
    && (if IsManaged(c) then Recorded(c, base, Format) && Recorded(c, base, Program)
        else Get(c, Signing(Format)) == Get(base, Signing(Format)) &&
             Get(c, Signing(Program)) == Get(base, Signing(Program)))
  }

  lemma {:induction false} DoAppend(c: Config, a: seq<Write>, b: seq<Write>)
    ensures Do(c, a + b) == Do(Do(c, a), b)
    decreases |b|
  {
    if b == [] {
      assert a + b == a;
    } else {
      var n := |b| - 1;
      assert (a + b)[..|a + b| - 1] == a + b[..n];
      DoAppend(c, a, b[..n]);
    }
  }

  /** Cutting off a run of two parts cuts one of them. */
  lemma CutAppend(c: Config, a: seq<Write>, b: seq<Write>, n: nat)
    requires n <= |a| + |b|
    ensures n <= |a| ==> Do(c, (a + b)[..n]) == Do(c, a[..n])
    ensures n >= |a| ==> Do(c, (a + b)[..n]) == Do(Do(c, a), b[..n - |a|])
  {
    if n <= |a| {
      assert (a + b)[..n] == a[..n];
    }
    if n >= |a| {
      assert (a + b)[..n] == a + b[..n - |a|];
      DoAppend(c, a, b[..n - |a|]);
    }
  }

  lemma DoSingle(c: Config, w: Write)
    ensures Do(c, [w]) == DoOne(c, w) && Do(c, []) == c
  {
    assert [w][..0] == [];
  }

  lemma DoPair(c: Config, v: Write, w: Write)
    ensures Do(c, [v, w]) == DoOne(DoOne(c, v), w)
  {
    assert [v, w][..1] == [v];
    DoSingle(c, v);
  }

  // ------------------------------------------------- apply keeps the record

  /** Writes to the record of one key, before the seal. */
  lemma CaptureKeeps(c: Config, base: Config, w: Write, k: SigningKey)
    requires Inv(c, base) && !IsManaged(c) && (w.key == Had(k) || w.key == Backup(k))
    ensures Inv(DoOne(c, w), base) && !IsManaged(DoOne(c, w))
    ensures forall j :: Get(DoOne(c, w), Signing(j)) == Get(c, Signing(j))
    ensures forall j :: j != k && Recorded(c, base, j) ==> Recorded(DoOne(c, w), base, j)
  {
    var c' := DoOne(c, w);
    assert forall key :: key != w.key ==> Get(c', key) == Get(c, key);
  }

  lemma SameSigning(c: Config, base: Config, k: SigningKey)
    requires Inv(c, base) && !IsManaged(c)
    ensures Get(c, Signing(k)) == Get(base, Signing(k))
  {}

  /** A whole capture of one key records it. */
  lemma CaptureOne(c: Config, base: Config, k: SigningKey)
    requires Inv(c, base) && !IsManaged(c)
    ensures var c' := Do(c, CaptureWrites(c, k));
            && Inv(c', base) && !IsManaged(c') && Recorded(c', base, k)
            && (forall j :: CaptureWrites(c', j) == CaptureWrites(c, j))
            && (forall j :: j != k && Recorded(c, base, j) ==> Recorded(c', base, j))
  {
    SameSigning(c, base, k);
    var ws := CaptureWrites(c, k);
    CaptureKeeps(c, base, ws[0], k);
    DoSingle(c, ws[0]);
    if Signing(k) in c {
      var c1 := DoOne(c, ws[0]);
      CaptureKeeps(c1, base, ws[1], k);
      DoPair(c, ws[0], ws[1]);
    }
  }

  lemma CaptureCut(c: Config, base: Config, k: SigningKey, n: nat)
    requires Inv(c, base) && !IsManaged(c) && n <= |CaptureWrites(c, k)|
    ensures Inv(Do(c, CaptureWrites(c, k)[..n]), base)
  {
    var ws := CaptureWrites(c, k);
    if n == |ws| {
      assert ws[..n] == ws;
      CaptureOne(c, base, k);
    } else if n == 1 {
      assert ws[..1] == [ws[0]];
      DoSingle(c, ws[0]);
      CaptureKeeps(c, base, ws[0], k);
    }
  }

  lemma Seal(c: Config, base: Config)
    requires Inv(c, base) && !IsManaged(c) && Recorded(c, base, Format) && Recorded(c, base, Program)
    ensures Inv(c[Managed := "true"], base) && IsManaged(c[Managed := "true"])
  {
    var c' := c[Managed := "true"];
    assert forall key :: key != Managed ==> Get(c', key) == Get(c, key);
  }

  /** The second key's capture and the seal, once the first is recorded. */
  lemma SealCut(c: Config, base: Config, ws: seq<Write>, n: nat)
    requires Inv(c, base) && !IsManaged(c) && Recorded(c, base, Format)
    requires ws == CaptureWrites(c, Program) + [Set(Managed, "true")] && n <= |ws|
    ensures Inv(Do(c, ws[..n]), base) && (n == |ws| ==> IsManaged(Do(c, ws[..n])))
  {
    var b, s := CaptureWrites(c, Program), [Set(Managed, "true")];
    CutAppend(c, b, s, n);
    if n <= |b| {
      CaptureCut(c, base, Program, n);
    } else {
      CaptureOne(c, base, Program);
      var c' := Do(c, b);
      assert s[..n - |b|] == s;
      DoSingle(c', s[0]);
      Seal(c', base);
    }
  }

  lemma FirstRunCut(c: Config, base: Config, n: nat)
    requires Inv(c, base) && !IsManaged(c) && n <= |FirstRunWrites(c)|
    ensures Inv(Do(c, FirstRunWrites(c)[..n]), base)
    ensures n == |FirstRunWrites(c)| ==> IsManaged(Do(c, FirstRunWrites(c)[..n]))
  {
    var a, rest := CaptureWrites(c, Format), CaptureWrites(c, Program) + [Set(Managed, "true")];
    assert FirstRunWrites(c) == a + rest;
    CutAppend(c, a, rest, n);
    if n <= |a| {
      CaptureCut(c, base, Format, n);
    } else {
      CaptureOne(c, base, Format);
      SealCut(Do(c, a), base, rest, n - |a|);
    }
  }

  lemma TargetKeeps(c: Config, base: Config, k: SigningKey, v: string)
    requires Inv(c, base) && IsManaged(c)
    ensures Inv(c[Signing(k) := v], base) && IsManaged(c[Signing(k) := v])
  {
    var c' := c[Signing(k) := v];
    assert forall key :: key != Signing(k) ==> Get(c', key) == Get(c, key);
  }

  lemma TargetCut(c: Config, base: Config, path: string, n: nat)
    requires Inv(c, base) && IsManaged(c) && n <= 2
    ensures Inv(Do(c, TargetWrites(path)[..n]), base) && IsManaged(Do(c, TargetWrites(path)[..n]))
  {
    var ws := TargetWrites(path);
    TargetKeeps(c, base, Format, ws[0].value);
    if n == 1 {
      assert ws[..1] == [ws[0]];
      DoSingle(c, ws[0]);
    } else if n == 2 {
      assert ws[..2] == [ws[0], ws[1]];
      DoPair(c, ws[0], ws[1]);
      TargetKeeps(c[Signing(Format) := ws[0].value], base, Program, ws[1].value);
    }
  }

  /** An apply cut off at any write keeps the record true to `base`; one that
      completes leaves it sealed. */
  lemma ApplyKeeps(c: Config, base: Config, path: string, n: nat)
    requires Inv(c, base) && n <= |ApplyWrites(c, path)|
    ensures Inv(Do(c, ApplyWrites(c, path)[..n]), base)
    ensures IsManaged(c) || (path != "" && n == |ApplyWrites(c, path)|) ==> IsManaged(Do(c, ApplyWrites(c, path)[..n]))
  {
    if path != "" {
      var t := TargetWrites(path);
      if IsManaged(c) {
        assert ApplyWrites(c, path) == t;
        TargetCut(c, base, path, n);
      } else {
        var f := FirstRunWrites(c);
        CutAppend(c, f, t, n);
        if n <= |f| {
          FirstRunCut(c, base, n);
        } else {
          FirstRunCut(c, base, |f|);
          assert f[..|f|] == f;
          TargetCut(Do(c, f), base, path, n - |f|);
        }
      }
    }
  }

  lemma {:induction false} DoElsewhere(c: Config, ws: seq<Write>, key: Key)
    requires forall i :: 0 <= i < |ws| ==> ws[i].key != key
    ensures Get(Do(c, ws), key) == Get(c, key)
  {
    if ws != [] {
      DoElsewhere(c, ws[..|ws| - 1], key);
    }
  }

  /** What innsegl is for: git signs with x509, through the program at the path. */
  predicate Signs(c: Config, path: string)
  {
    Get(c, Signing(Format)) == Some("x509") && Get(c, Signing(Program)) == Some(path)
  }

  /** A completed apply leaves gpg.format at x509, gpg.x509.program at the path,
      and every key that is not innsegl's as it was. */
  lemma ApplyLeaves(c: Config, path: string)
    requires path != ""
    ensures Signs(Do(c, ApplyWrites(c, path)), path)
    ensures forall key: Key :: key.Other? ==> Get(Do(c, ApplyWrites(c, path)), key) == Get(c, key)
    ensures SigningName(Format) == "gpg.format" && SigningName(Program) == "gpg.x509.program"
  {
    var f, t := if IsManaged(c) then [] else FirstRunWrites(c), TargetWrites(path);
    DoAppend(c, f, t);
    DoPair(Do(c, f), t[0], t[1]);
    forall key: Key | key.Other?
      ensures Get(Do(c, ApplyWrites(c, path)), key) == Get(c, key)
    {
      DoElsewhere(c, ApplyWrites(c, path), key);
    }
  }

  // ------------------------------------------------------- undo is exact

  /** The value undo gives a signing key. */
  function Restored(base: Config, k: SigningKey): Write
  {
    if Signing(k) in base then Set(Signing(k), base[Signing(k)]) else Unset(Signing(k))
  }

  lemma RestoreIs(c: Config, base: Config, k: SigningKey)
    requires Recorded(c, base, k)
    ensures RestoreWrites(c, k) == Some([Restored(base, k), Unset(Had(k)), Unset(Backup(k))])
  {}

  /** The nine writes of an undo over a sealed record. */
  function NineWrites(c: Config, base: Config): seq<Write>
  {
    [Restored(base, Format), Unset(Had(Format)), Unset(Backup(Format)),
     Restored(base, Program), Unset(Had(Program)), Unset(Backup(Program)),
     Unset(Files), Unset(Ref), Unset(Managed)]
  }

  lemma UndoIs(c: Config, base: Config)
    requires Inv(c, base) && IsManaged(c)
    ensures UndoWrites(c) == Some(NineWrites(c, base))
  {
    RestoreIs(c, base, Format);
    RestoreIs(c, base, Program);
    assert RestoreWrites(c, Format).value + RestoreWrites(c, Program).value + CLOSING == NineWrites(c, base);
  }

  lemma SameConfig(a: Config, b: Config)
    requires forall key :: Get(a, key) == Get(b, key)
    ensures a == b
  {
    assert forall key :: key in a <==> key in b by {
      forall key
        ensures key in a <==> key in b
      {
        assert Get(a, key) == Get(b, key);
      }
    }
    forall key | key in a
      ensures a[key] == b[key]
    {
      assert Get(a, key) == Get(b, key);
    }
  }

  /** Which of the nine writes is a key's; 9 for a key undo leaves alone. */
  function Pos(key: Key): nat
  {
    match key
    case Signing(k) => if k == Format then 0 else 3
    case Had(k) => if k == Format then 1 else 4
    case Backup(k) => if k == Format then 2 else 5
    case Files => 6
    case Ref => 7
    case Managed => 8
    case Other(_) => 9
  }

  /** What undo leaves at a key it writes. */
  function Final(base: Config, key: Key): Option<string>
  {
    if key.Signing? then Get(base, key) else None
  }

  lemma NineAt(c: Config, base: Config, i: nat)
    requires i < 9
    ensures Pos(NineWrites(c, base)[i].key) == i
    ensures forall key :: Pos(key) == i ==> key == NineWrites(c, base)[i].key
    ensures forall d :: Get(DoOne(d, NineWrites(c, base)[i]), NineWrites(c, base)[i].key) ==
                        Final(base, NineWrites(c, base)[i].key)
  {}

  lemma {:induction false} UndoneUpTo(c: Config, base: Config, n: nat, key: Key)
    requires n <= 9
    ensures Get(Do(c, NineWrites(c, base)[..n]), key) == if Pos(key) < n then Final(base, key) else Get(c, key)
  {
    if n > 0 {
      var ws := NineWrites(c, base);
      UndoneUpTo(c, base, n - 1, key);
      assert ws[..n][..n - 1] == ws[..n - 1] && ws[..n][n - 1] == ws[n - 1];
      NineAt(c, base, n - 1);
    }
  }

  /** A completed undo gives back exactly the config without innsegl. */
  lemma UndoRestores(c: Config, base: Config)
    requires Inv(c, base) && IsManaged(c)
    ensures UndoWrites(c).Some? && Do(c, UndoWrites(c).value) == base
  {
    UndoIs(c, base);
    var ws := NineWrites(c, base);
    assert ws[..9] == ws;
    forall key
      ensures Get(Do(c, ws), key) == Get(base, key)
    {
      UndoneUpTo(c, base, 9, key);
    }
    SameConfig(Do(c, ws), base);
  }

  // ------------------------------------------------------------- whole runs

  datatype Step =
    | Apply(path: string, cutAt: nat)
    | RecordFiles(value: string)
    | RecordRef(value: string)
    | UserSets(key: Key, value: string)
    | UserUnsets(key: Key)

  /** The user edits their own keys; the signing keys only until innsegl has
      sealed its record of them. */
  predicate Allowed(c: Config, s: Step)
  {
    match s
    case Apply(path, n) => n <= |ApplyWrites(c, path)|
    case RecordFiles(_) => true
    case RecordRef(_) => true
    case UserSets(key, _) => !IsBook(key) && (key.Signing? ==> !IsManaged(c))
    case UserUnsets(key) => !IsBook(key) && (key.Signing? ==> !IsManaged(c))
  }

  function Next(c: Config, s: Step): Config
    requires Allowed(c, s)
  {
    match s
    case Apply(path, n) => Do(c, ApplyWrites(c, path)[..n])
    case RecordFiles(v) => c[Files := v]
    case RecordRef(v) => c[Ref := v]
    case UserSets(key, v) => c[key := v]
    case UserUnsets(key) => c - {key}
  }

  /** The same run without innsegl in it. */
  function NextBase(base: Config, s: Step): Config
  {
    match s
    case UserSets(key, v) => base[key := v]
    case UserUnsets(key) => base - {key}
    case _ => base
  }

  lemma StepKeeps(c: Config, base: Config, s: Step)
    requires Inv(c, base) && Allowed(c, s)
    ensures Inv(Next(c, s), NextBase(base, s))
  {
    match s
    case Apply(path, n) => ApplyKeeps(c, base, path, n);
    case RecordFiles(v) => assert forall key :: key != Files ==> Get(Next(c, s), key) == Get(c, key);
    case RecordRef(v) => assert forall key :: key != Ref ==> Get(Next(c, s), key) == Get(c, key);
    case UserSets(key, v) => EditKeeps(c, base, Set(key, v));
    case UserUnsets(key) => EditKeeps(c, base, Unset(key));
  }

  function Value(w: Write): Option<string>
  {
    match w case Set(_, v) => Some(v) case Unset(_) => None
  }

  lemma EditKeeps(c: Config, base: Config, w: Write)
    requires Inv(c, base) && !IsBook(w.key) && (w.key.Signing? ==> !IsManaged(c))
    ensures Inv(DoOne(c, w), DoOne(base, w))
  {
    var c', base' := DoOne(c, w), DoOne(base, w);
    assert forall key :: key != w.key ==> Get(c', key) == Get(c, key) && Get(base', key) == Get(base, key);
    assert Get(c', w.key) == Get(base', w.key) == Value(w);
  }

  ghost predicate Run(cs: seq<Config>, ss: seq<Step>)
  {
    |cs| == |ss| + 1 && forall i :: 0 <= i < |ss| ==> Allowed(cs[i], ss[i]) && cs[i + 1] == Next(cs[i], ss[i])
  }

  ghost predicate AllNamed(c: Config)
  {
    forall key :: key in c ==> Named(key)
  }

  lemma {:induction false} DoNamed(c: Config, ws: seq<Write>)
    requires AllNamed(c) && forall w :: w in ws ==> !w.key.Other?
    ensures AllNamed(Do(c, ws))
  {
    if ws != [] {
      assert ws[|ws| - 1] in ws;
      DoNamed(c, ws[..|ws| - 1]);
    }
  }

  /** The user's edits are to keys of their own names, or the signing keys. */
  ghost predicate NamedEdits(ss: seq<Step>)
  {
    forall i :: 0 <= i < |ss| && ss[i].UserSets? ==> Named(ss[i].key)
  }

  lemma ApplyOwnKeys(c: Config, path: string, n: nat)
    requires n <= |ApplyWrites(c, path)|
    ensures forall w :: w in ApplyWrites(c, path)[..n] ==> !w.key.Other?
  {
    assert forall w :: w in ApplyWrites(c, path)[..n] ==> w in ApplyWrites(c, path);
  }

  lemma StepNamed(c: Config, s: Step)
    requires AllNamed(c) && Allowed(c, s) && (s.UserSets? ==> Named(s.key))
    ensures AllNamed(Next(c, s))
  {
    if s.Apply? {
      ApplyOwnKeys(c, s.path, s.cutAt);
      DoNamed(c, ApplyWrites(c, s.path)[..s.cutAt]);
    }
  }

  lemma {:induction false} RunNamed(cs: seq<Config>, ss: seq<Step>, i: nat)
    requires Run(cs, ss) && i <= |ss| && AllNamed(cs[0]) && NamedEdits(ss)
    ensures AllNamed(cs[i])
  {
    if i > 0 {
      RunNamed(cs, ss, i - 1);
      StepNamed(cs[i - 1], ss[i - 1]);
    }
  }

  /** Over every run the config stays one git can hold: no two of its keys have
      one name. */
  lemma RunNamesDistinct(cs: seq<Config>, ss: seq<Step>, i: nat, a: Key, b: Key)
    requires Run(cs, ss) && i <= |ss| && AllNamed(cs[0]) && NamedEdits(ss)
    requires a in cs[i] && b in cs[i] && a != b
    ensures Folded(KeyName(a)) != Folded(KeyName(b))
  {
    RunNamed(cs, ss, i);
    KeyNamesDistinct(a, b);
  }

  function Bases(base: Config, ss: seq<Step>): Config
  {
    if ss == [] then base else NextBase(Bases(base, ss[..|ss| - 1]), ss[|ss| - 1])
  }

  lemma {:induction false} RunKeeps(cs: seq<Config>, ss: seq<Step>, i: nat)
    requires Run(cs, ss) && i <= |ss|
    requires forall key :: key in cs[0] ==> !IsBook(key)
    ensures Inv(cs[i], Bases(cs[0], ss[..i]))
  {
    if i > 0 {
      RunKeeps(cs, ss, i - 1);
      assert ss[..i][..i - 1] == ss[..i - 1];
      StepKeeps(cs[i - 1], Bases(cs[0], ss[..i - 1]), ss[i - 1]);
    }
  }

  /** From a config with no bookkeeping: any number of applies, each cut off
      anywhere, any recorded files and refs and any edits of the user's, and
      then an undo of a sealed record, give exactly what the user's edits alone
      would have given. */
  lemma UndoAfterAnyRun(cs: seq<Config>, ss: seq<Step>)
    requires Run(cs, ss) && forall key :: key in cs[0] ==> !IsBook(key)
    requires IsManaged(cs[|ss|])
    ensures UndoWrites(cs[|ss|]).Some? && Do(cs[|ss|], UndoWrites(cs[|ss|]).value) == Bases(cs[0], ss)
  {
    RunKeeps(cs, ss, |ss|);
    assert ss[..|ss|] == ss;
    UndoRestores(cs[|ss|], Bases(cs[0], ss));
  }

  lemma StepSeals(c: Config, base: Config, s: Step)
    requires Inv(c, base) && Allowed(c, s)
    requires IsManaged(c) || (s.Apply? && s.path != "" && s.cutAt == |ApplyWrites(c, s.path)|)
    ensures IsManaged(Next(c, s))
  {
    if s.Apply? {
      ApplyKeeps(c, base, s.path, s.cutAt);
    }
  }

  /** One completed apply anywhere in the run seals the record for good. */
  lemma {:induction false} CompletedApplySeals(cs: seq<Config>, ss: seq<Step>, i: nat, j: nat)
    requires Run(cs, ss) && i < j <= |ss|
    requires forall key :: key in cs[0] ==> !IsBook(key)
    requires ss[i].Apply? && ss[i].path != "" && ss[i].cutAt == |ApplyWrites(cs[i], ss[i].path)|
    ensures IsManaged(cs[j])
    decreases j
  {
    RunKeeps(cs, ss, j - 1);
    if j - 1 > i {
      CompletedApplySeals(cs, ss, i, j - 1);
    }
    StepSeals(cs[j - 1], Bases(cs[0], ss[..j - 1]), ss[j - 1]);
  }

  /** Once an apply completes, git signs through its path in every later state up
      to the next apply. */
  lemma {:induction false} SignsOn(cs: seq<Config>, ss: seq<Step>, i: nat, j: nat)
    requires Run(cs, ss) && i < j <= |ss|
    requires forall key :: key in cs[0] ==> !IsBook(key)
    requires ss[i].Apply? && ss[i].path != "" && ss[i].cutAt == |ApplyWrites(cs[i], ss[i].path)|
    requires forall k :: i < k < j ==> !ss[k].Apply?
    ensures Signs(cs[j], ss[i].path)
    decreases j
  {
    var c, s := cs[j - 1], ss[j - 1];
    assert cs[j] == Next(c, s);
    if j - 1 == i {
      assert ApplyWrites(c, s.path)[..s.cutAt] == ApplyWrites(c, s.path);
      ApplyLeaves(c, s.path);
    } else {
      SignsOn(cs, ss, i, j - 1);
      CompletedApplySeals(cs, ss, i, j - 1);
    }
  }

  // ---------------------------------------------------- an interrupted undo

  /** What undo leaves at each key of one signing key's record. */
  lemma RestoreEffect(c: Config, ws: seq<Write>, k: SigningKey, w: Write, key: Key)
    requires w.key == Signing(k)
    requires ws == [w] || ws == [w, Unset(Had(k)), Unset(Backup(k))]
    ensures Get(Do(c, ws), key) ==
            if key == Signing(k) then Value(w)
            else if |ws| == 3 && (key == Had(k) || key == Backup(k)) then None
            else Get(c, key)
  {
    DoSingle(c, w);
    if |ws| == 3 {
      assert ws[..2] == [w, Unset(Had(k))];
      DoPair(c, w, Unset(Had(k)));
    }
  }

  lemma ClosingEffect(c: Config, key: Key)
    ensures Get(Do(c, CLOSING), key) == if key == Files || key == Ref || key == Managed then None else Get(c, key)
  {
    assert CLOSING[..2] == [Unset(Files), Unset(Ref)];
    DoPair(c, Unset(Files), Unset(Ref));
  }

  /** A record of which the first writes of an undo may be gone. */
  predicate Torn(c: Config, base: Config, k: SigningKey)
  {
    Had(k) !in c || Recorded(c, base, k)
  }

  /** The write undo makes to a signing key whose record may be gone. */
  function TornWrite(c: Config, base: Config, k: SigningKey): Write
  {
    if Had(k) in c then Restored(base, k) else Unset(Signing(k))
  }

  lemma TornRestore(c: Config, base: Config, k: SigningKey)
    requires Torn(c, base, k)
    ensures RestoreWrites(c, k) ==
            Some(if Had(k) in c then [TornWrite(c, base, k), Unset(Had(k)), Unset(Backup(k))] else [TornWrite(c, base, k)])
  {
    if Had(k) in c {
      RestoreIs(c, base, k);
    }
  }

  /** What an undo over a torn record leaves at each key. */
  function TornValue(c: Config, base: Config, key: Key): Option<string>
  {
    match key
    case Signing(k) => if Had(k) in c then Get(base, key) else None
    case Backup(k) => if Had(k) in c then None else Get(c, key)
    case Other(_) => Get(c, key)
    case _ => None
  }

  lemma TornUndo(c: Config, base: Config, key: Key)
    requires IsManaged(c) && Torn(c, base, Format) && Torn(c, base, Program)
    ensures UndoWrites(c).Some?
    ensures Get(Do(c, UndoWrites(c).value), key) == TornValue(c, base, key)
  {
    TornRestore(c, base, Format);
    TornRestore(c, base, Program);
    var f, p := RestoreWrites(c, Format).value, RestoreWrites(c, Program).value;
    DoAppend(c, f + p, CLOSING);
    DoAppend(c, f, p);
    RestoreEffect(c, f, Format, TornWrite(c, base, Format), key);
    RestoreEffect(Do(c, f), p, Program, TornWrite(c, base, Program), key);
    ClosingEffect(Do(c, f + p), key);
    assert UndoWrites(c).value == f + p + CLOSING;
    match key
    case Signing(k) => assert k == Format || k == Program;
    case Had(k) => assert k == Format || k == Program;
    case Backup(k) => assert k == Format || k == Program;
    case _ =>
  }

  /** The record an undo cut off after `n` writes leaves. */
  function CutUndo(c: Config, base: Config, n: nat): Config
    requires n <= 9
  {
    Do(c, NineWrites(c, base)[..n])
  }

  lemma CutUndoTorn(c: Config, base: Config, n: nat, k: SigningKey)
    requires Inv(c, base) && IsManaged(c) && n <= 8
    ensures IsManaged(CutUndo(c, base, n)) && Torn(CutUndo(c, base, n), base, k)
    ensures Had(k) in CutUndo(c, base, n) <==> n <= Pos(Had(k))
    ensures Backup(k) in CutUndo(c, base, n) <==> n <= Pos(Backup(k)) && Backup(k) in c
  {
    UndoneUpTo(c, base, n, Managed);
    UndoneUpTo(c, base, n, Had(k));
    UndoneUpTo(c, base, n, Backup(k));
  }

  /** Whether the second undo gets key `k` right. */
  predicate Survives(c: Config, base: Config, n: nat, k: SigningKey)
  {
    n <= Pos(Had(k)) || (Signing(k) !in base && (n <= Pos(Backup(k)) ==> Backup(k) !in c))
  }

  predicate SurvivesAt(c: Config, base: Config, n: nat, key: Key)
  {
    match key
    case Signing(k) => n <= Pos(Had(k)) || Signing(k) !in base
    case Backup(k) => n <= Pos(Had(k)) || n > Pos(Backup(k)) || Backup(k) !in c
    case _ => true
  }

  lemma SecondUndoAt(c: Config, base: Config, n: nat, key: Key)
    requires Inv(c, base) && IsManaged(c) && n <= 8
    ensures var d := CutUndo(c, base, n);
            && UndoWrites(d).Some?
            && (Get(Do(d, UndoWrites(d).value), key) == Get(base, key) <==> SurvivesAt(c, base, n, key))
  {
    var d := CutUndo(c, base, n);
    CutUndoTorn(c, base, n, Format);
    CutUndoTorn(c, base, n, Program);
    TornUndo(d, base, key);
    UndoneUpTo(c, base, n, key);
  }

  /** An undo cut off after `n` of its nine writes, then a completed one, gives
      back the config exactly when no key whose record the first one had
      already removed held a value or still has its backup. */
  lemma InterruptedUndoIff(c: Config, base: Config, n: nat)
    requires Inv(c, base) && IsManaged(c) && n <= 8
    ensures var d := CutUndo(c, base, n);
            && UndoWrites(d).Some?
            && (Do(d, UndoWrites(d).value) == base <==> Survives(c, base, n, Format) && Survives(c, base, n, Program))
  {
    var d := CutUndo(c, base, n);
    forall key
      ensures UndoWrites(d).Some?
      ensures Survives(c, base, n, Format) && Survives(c, base, n, Program) ==>
                Get(Do(d, UndoWrites(d).value), key) == Get(base, key)
    {
      SecondUndoAt(c, base, n, key);
    }
    var r := Do(d, UndoWrites(d).value);
    if Survives(c, base, n, Format) && Survives(c, base, n, Program) {
      SameConfig(r, base);
    }
    SecondUndoAt(c, base, n, Signing(Format));
    SecondUndoAt(c, base, n, Backup(Format));
    SecondUndoAt(c, base, n, Signing(Program));
    SecondUndoAt(c, base, n, Backup(Program));
  }

  /** The input that shows it: gpg.format had a value, an apply completed, and an
      undo was cut off after it had put the value back and dropped its record. The
      second undo takes the value away. */
  lemma SecondUndoLoses(v: string, path: string)
    requires path != ""
    ensures var base: Config := map[Signing(Format) := v];
            var c := Do(base, ApplyWrites(base, path));
            && Inv(c, base) && IsManaged(c)
            && Get(CutUndo(c, base, 2), Signing(Format)) == Some(v)
            && UndoWrites(CutUndo(c, base, 2)).Some?
            && Get(Do(CutUndo(c, base, 2), UndoWrites(CutUndo(c, base, 2)).value), Signing(Format)) == None
  {
    var base: Config := map[Signing(Format) := v];
    var ws := ApplyWrites(base, path);
    var c := Do(base, ws);
    assert ws[..|ws|] == ws;
    ApplyKeeps(base, base, path, |ws|);
    UndoneUpTo(c, base, 2, Signing(Format));
    var d := CutUndo(c, base, 2);
    CutUndoTorn(c, base, 2, Format);
    CutUndoTorn(c, base, 2, Program);
    TornUndo(d, base, Signing(Format));
  }

  /** Undo cut off at its very last point: the second one refuses, and there is
      nothing left to do. */
  lemma UndoneIsDone(c: Config, base: Config)
    requires Inv(c, base) && IsManaged(c)
    ensures CutUndo(c, base, 9) == base && UndoWrites(base).None?
  {
    UndoIs(c, base);
    UndoRestores(c, base);
    assert NineWrites(c, base)[..9] == NineWrites(c, base);
  }
}



