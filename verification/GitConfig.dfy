/**
 gitSigningRecorder (cmd/innsegl/initgit.go) as it runs: one config write after
 another, until it finishes or is cut off.
 */
module GitConfig {
  import opened Options
  import opened Text
  import opened ConfigRecorder

  const SEPARATOR := '\U{1f}'

  /** recordedFiles. */
  function RecordedFiles(c: Config): seq<string>
  {
    var existing := Get(c, Files);
    if existing.None? || existing.value == "" then [] else Split(existing.value, SEPARATOR)
  }

  /** The list with each new path appended once. */
  function Merged(all: seq<string>, paths: seq<string>): seq<string>
    decreases |paths|
  {
    if paths == [] then all else
    Merged(if paths[0] in all then all else all + [paths[0]], paths[1..])
  }

  /** Merging keeps the old list in front, adds exactly the new paths, and
      repeats nothing. */
  lemma {:induction false} MergedIsUnion(all: seq<string>, paths: seq<string>)
    ensures all <= Merged(all, paths)
    ensures forall p :: p in Merged(all, paths) <==> p in all || p in paths
    ensures Distinct(all) ==> Distinct(Merged(all, paths))
    decreases |paths|
  {
    if paths != [] {
      var next := if paths[0] in all then all else all + [paths[0]];
      MergedIsUnion(next, paths[1..]);
      assert paths == [paths[0]] + paths[1..];
    }
  }

  /** A path that can be told apart again: not empty, no separator in it. */
  predicate Storable(p: string)
  {
    p != "" && '\U{1f}' !in p
  }

  /** What is recorded is read back: the old list and the new paths. */
  lemma RecordReadsBack(c: Config, paths: seq<string>)
    requires paths != [] && (forall p :: p in paths ==> Storable(p))
    requires forall p :: p in RecordedFiles(c) ==> Storable(p)
    ensures var all := Merged(RecordedFiles(c), paths);
            RecordedFiles(c[Files := Join(all, SEPARATOR)]) == all
  {
    var all := Merged(RecordedFiles(c), paths);
    MergedIsUnion(RecordedFiles(c), paths);
    assert paths[0] in all;
    forall i | 0 <= i < |all|
      ensures Storable(all[i])
    {
      assert all[i] in all;
    }
    SplitJoin(all, SEPARATOR);
    assert Join(all, SEPARATOR) != "" by {
      assert all[0] != "";
    }
  }

  function RecordWrites(c: Config): seq<Write>
  {
    if IsManaged(c) then [] else FirstRunWrites(c)
  }

  lemma RecordCut(c: Config, path: string, n: nat)
    requires path != "" && n <= |RecordWrites(c)|
    ensures n <= |ApplyWrites(c, path)| && Do(c, ApplyWrites(c, path)[..n]) == Do(c, RecordWrites(c)[..n])
  {
    CutAppend(c, RecordWrites(c), TargetWrites(path), n);
  }

  lemma TargetsCut(c: Config, path: string, m: nat)
    requires path != "" && m <= |TargetWrites(path)|
    ensures var n := |RecordWrites(c)|;
            && n + |TargetWrites(path)| == |ApplyWrites(c, path)|
            && Do(c, ApplyWrites(c, path)[..n + m]) == Do(Do(c, RecordWrites(c)[..n]), TargetWrites(path)[..m])
  {
    var f, t := RecordWrites(c), TargetWrites(path);
    assert ApplyWrites(c, path) == f + t && f[..|f|] == f;
    CutAppend(c, f, t, |f| + m);
  }

  lemma WholeLeaves(c: Config, path: string, n: nat)
    requires path != "" && n == |ApplyWrites(c, path)|
    ensures Signs(Do(c, ApplyWrites(c, path)[..n]), path)
    ensures forall key: Key :: key.Other? ==> Get(Do(c, ApplyWrites(c, path)[..n]), key) == Get(c, key)
  {
    assert ApplyWrites(c, path)[..n] == ApplyWrites(c, path);
    ApplyLeaves(c, path);
  }

  class Recorder {
    var config: Config
    /** Writes left before the run is cut off. */
    var left: nat

    constructor (config: Config, left: nat)
      ensures this.config == config && this.left == left
    {
      this.config, this.left := config, left;
    }

    method Put(w: Write) returns (cut: bool)
      modifies this
      ensures cut <==> old(left) == 0
      ensures config == if cut then old(config) else DoOne(old(config), w)
    {
      if left == 0 {
        return true;
      }
      config, left := DoOne(config, w), left - 1;
      return false;
    }

    /** The capture of one key: whether it had a value, and the value. */
    method Capture(k: SigningKey) returns (cut: bool, ghost n: nat)
      modifies this
      ensures n <= |CaptureWrites(old(config), k)|
      ensures config == Do(old(config), CaptureWrites(old(config), k)[..n])
      ensures !cut ==> n == |CaptureWrites(old(config), k)|
    {
      ghost var ws := CaptureWrites(config, k);
      DoSingle(config, ws[0]);
      assert ws[..0] == [] && ws[..1] == [ws[0]];
      n := 0;
      var val := Get(config, Signing(k));
      cut := Put(Set(Had(k), if val.Some? then "true" else "false"));
      if cut {
        return;
      }
      n := 1;
      if val.Some? {
        DoPair(old(config), ws[0], ws[1]);
        assert ws[..2] == [ws[0], ws[1]];
        cut := Put(Set(Backup(k), val.value));
        if cut {
          return;
        }
        n := 2;
      }
    }

    /** The first run's part of apply: capture both keys, then seal. */
    method FirstRun() returns (cut: bool, ghost n: nat)
      modifies this
      ensures n <= |FirstRunWrites(old(config))|
      ensures config == Do(old(config), FirstRunWrites(old(config))[..n])
      ensures !cut ==> n == |FirstRunWrites(old(config))|
    {
      ghost var c := config;
      ghost var m: nat;
      cut, n := Capture(Format);
      FirstCaptureCut(c, n);
      if cut {
        return;
      }
      CaptureLeavesSigning(c, Format);
      cut, m := Capture(Program);
      SecondCaptureCut(c, m);
      n := n + m;
      if cut {
        return;
      }
      cut := Put(Set(Managed, "true"));
      if !cut {
        RunSealed(c);
        n := n + 1;
      }
    }

    /** The record, made unless an earlier run sealed one. */
    method KeepRecord() returns (cut: bool, ghost n: nat)
      modifies this
      ensures n <= |RecordWrites(old(config))|
      ensures config == Do(old(config), RecordWrites(old(config))[..n])
      ensures !cut ==> n == |RecordWrites(old(config))|
    {
      cut, n := false, 0;
      if !IsManaged(config) {
        cut, n := FirstRun();
      }
    }

    /** apply. */
    method Apply(path: string) returns (failed: bool, cut: bool, ghost n: nat)
      modifies this
      ensures failed <==> path == ""
      ensures n <= |ApplyWrites(old(config), path)|
      ensures config == Do(old(config), ApplyWrites(old(config), path)[..n])
      ensures !cut ==> n == |ApplyWrites(old(config), path)|
      ensures path != "" && !cut ==>
                Get(config, Signing(Format)) == Some("x509") && Get(config, Signing(Program)) == Some(path)
      ensures path != "" && !cut ==> forall key: Key :: key.Other? ==> Get(config, key) == Get(old(config), key)
    {
      failed, cut, n := path == "", false, 0;
      if !failed {
        ghost var c := config;
        cut, n := KeepRecord();
        RecordCut(c, path, n);
        if !cut {
          ghost var m: nat;
          cut, m := WriteTargets(path);
          TargetsCut(c, path, m);
          n := n + m;
          if !cut {
            WholeLeaves(c, path, n);
          }
        }
      }
    }

    method WriteTargets(path: string) returns (cut: bool, ghost n: nat)
      modifies this
      ensures n <= 2 && config == Do(old(config), TargetWrites(path)[..n]) && (!cut ==> n == 2)
    {
      ghost var ws := TargetWrites(path);
      assert ws[..0] == [] && ws[..1] == [ws[0]] && ws[..2] == [ws[0], ws[1]];
      DoSingle(config, ws[0]);
      DoPair(config, ws[0], ws[1]);
      n := 0;
      for i := 0 to |SIGNING_KEYS|
        invariant n == i && config == Do(old(config), ws[..n])
      {
        cut := Put(Set(Signing(SIGNING_KEYS[i]), Target(SIGNING_KEYS[i], path)));
        if cut {
          return;
        }
        n := n + 1;
      }
      cut := false;
    }

    /** One key of undo: put back what was recorded, or unset what was not. */
    method Restore(k: SigningKey) returns (failed: bool, cut: bool, ghost n: nat)
      modifies this
      ensures failed <==> RestoreWrites(old(config), k).None?
      ensures failed ==> config == old(config) && !cut
      ensures !failed ==> n <= |RestoreWrites(old(config), k).value| &&
                          config == Do(old(config), RestoreWrites(old(config), k).value[..n])
      ensures !failed && !cut ==> n == |RestoreWrites(old(config), k).value|
    {
      n := 0;
      var had := Get(config, Had(k));
      if had.None? {
        ghost var c := config;
        DoSingle(c, Unset(Signing(k)));
        assert [Unset(Signing(k))][..0] == [] && [Unset(Signing(k))][..1] == [Unset(Signing(k))];
        cut := Put(Unset(Signing(k)));
        n := if cut then 0 else 1;
        return false, cut, n;
      }
      var first := Unset(Signing(k));
      if had.value == "true" {
        var val := Get(config, Backup(k));
        if val.None? {
          return true, false, n;
        }
        first := Set(Signing(k), val.value);
      }
      ghost var c := config;
      ghost var ws := [first, Unset(Had(k)), Unset(Backup(k))];
      ThreeCuts(c, ws);
      cut := Put(first);
      if !cut {
        n := 1;
        cut := Put(Unset(Had(k)));
        if !cut {
          n := 2;
          cut := Put(Unset(Backup(k)));
          n := if cut then 2 else 3;
        }
      }
      return false, cut, n;
    }

    /** undo from the second key on. */
    method UndoRest() returns (failed: bool, cut: bool, ghost n: nat)
      modifies this
      ensures failed <==> RestoreWrites(old(config), Program).None?
      ensures failed ==> config == old(config) && !cut
      ensures !failed ==>
                var ws := RestoreWrites(old(config), Program).value + CLOSING;
                n <= |ws| && config == Do(old(config), ws[..n]) && (!cut ==> n == |ws|)
    {
      ghost var c, m := config, 0;
      failed, cut, n := Restore(Program);
      if failed {
        return;
      }
      ghost var p := RestoreWrites(c, Program).value;
      CutAppend(c, p, CLOSING, n);
      if cut {
        return;
      }
      assert p[..n] == p;
      cut, m := Close();
      CutAppend(c, p, CLOSING, |p| + m);
      n := |p| + m;
    }

    /** undo: refuses with no sealed record; otherwise its writes, in order. A
        value recorded as set whose backup is missing ends it there: with the
        first key nothing has changed, with the second the first is back. */
    method Undo() returns (failed: bool, cut: bool, ghost n: nat)
      modifies this
      ensures Get(old(config), Managed) != Some("true") ==> failed && config == old(config)
      ensures UndoWrites(old(config)).Some? ==>
                var ws := UndoWrites(old(config)).value;
                !failed && n <= |ws| && config == Do(old(config), ws[..n]) && (!cut ==> n == |ws|)
      ensures IsManaged(old(config)) && RestoreWrites(old(config), Format).None? ==> failed && config == old(config)
      ensures IsManaged(old(config)) && RestoreWrites(old(config), Format).Some? &&
              RestoreWrites(old(config), Program).None? ==>
                var ws := RestoreWrites(old(config), Format).value;
                n <= |ws| && config == Do(old(config), ws[..n]) && (!cut ==> failed && n == |ws|)
    {
      n, cut := 0, false;
      if !IsManaged(config) {
        return true, false, n;
      }
      ghost var c, m := config, 0;
      UndoParts(c);
      failed, cut, n := Restore(Format);
      if failed {
        return;
      }
      ghost var f := RestoreWrites(c, Format).value;
      if cut {
        FrontCut(c, f, n);
        return;
      }
      assert f[..n] == f;
      RestoreLeavesOther(c, f);
      failed, cut, m := UndoRest();
      if !failed {
        BackCut(c, f, m);
        n := |f| + m;
      }
    }

    method Close() returns (cut: bool, ghost n: nat)
      modifies this
      ensures n <= 3 && config == Do(old(config), CLOSING[..n]) && (!cut ==> n == 3)
    {
      ThreeCuts(config, CLOSING);
      n := 0;
      cut := Put(Unset(Files));
      if !cut {
        n := 1;
        cut := Put(Unset(Ref));
        if !cut {
          n := 2;
          cut := Put(Unset(Managed));
          n := if cut then 2 else 3;
        }
      }
    }

    /** recordFiles: paths already recorded are not recorded again. */
    method RecordFiles(paths: seq<string>)
      modifies this`config
      ensures paths == [] ==> config == old(config)
      ensures paths != [] ==>
                config == old(config)[Files := Join(Merged(RecordedFiles(old(config)), paths), SEPARATOR)]
    {
      if |paths| == 0 {
        return;
      }
      var existing := Get(config, Files);
      var all: seq<string> := [];
      var seen: set<string> := {};
      if existing.Some? && existing.value != "" {
        all := Split(existing.value, SEPARATOR);
        seen := set p | p in all;
      }
      ghost var start := all;
      for i := 0 to |paths|
        invariant seen == set p | p in all
        invariant Merged(start, paths) == Merged(all, paths[i..])
      {
        if paths[i] !in seen {
          all := all + [paths[i]];
          seen := seen + {paths[i]};
        }
        assert paths[i..][0] == paths[i] && paths[i..][1..] == paths[i + 1..];
      }
      assert paths[|paths|..] == [];
      config := config[Files := Join(all, SEPARATOR)];
    }
  }

  /** Capturing one key does not change what the other's capture reads. */
  lemma CaptureLeavesSigning(c: Config, k: SigningKey)
    ensures forall j :: CaptureWrites(Do(c, CaptureWrites(c, k)), j) == CaptureWrites(c, j)
  {
    var ws := CaptureWrites(c, k);
    DoSingle(c, ws[0]);
    if |ws| == 2 {
      DoPair(c, ws[0], ws[1]);
    }
  }

  /** Where a first run stands after `n` writes of its first capture, after `m`
      of its second, and sealed. */
  lemma FirstCaptureCut(c: Config, n: nat)
    requires n <= |CaptureWrites(c, Format)|
    ensures Do(c, FirstRunWrites(c)[..n]) == Do(c, CaptureWrites(c, Format)[..n])
    ensures n == |CaptureWrites(c, Format)| ==> CaptureWrites(c, Format)[..n] == CaptureWrites(c, Format)
  {
    var a, b, s := CaptureWrites(c, Format), CaptureWrites(c, Program), [Set(Managed, "true")];
    assert FirstRunWrites(c) == a + (b + s);
    CutAppend(c, a, b + s, n);
  }

  lemma SecondCut(c: Config, a: seq<Write>, b: seq<Write>, w: Write, m: nat)
    requires m <= |b|
    ensures Do(c, (a + b + [w])[..|a| + m]) == Do(Do(c, a), b[..m])
  {
    assert (a + b + [w])[..|a| + m] == a + b[..m];
    DoAppend(c, a, b[..m]);
  }

  lemma SecondCaptureCut(c: Config, m: nat)
    requires m <= |CaptureWrites(c, Program)|
    ensures var a, b := CaptureWrites(c, Format), CaptureWrites(c, Program);
            Do(c, FirstRunWrites(c)[..|a| + m]) == Do(Do(c, a), b[..m]) && b[..|b|] == b
  {
    var a, b := CaptureWrites(c, Format), CaptureWrites(c, Program);
    SecondCut(c, a, b, Set(Managed, "true"), m);
  }

  lemma RunSealed(c: Config)
    ensures var a, b := CaptureWrites(c, Format), CaptureWrites(c, Program);
            && |FirstRunWrites(c)| == |a| + |b| + 1
            && Do(c, FirstRunWrites(c)[..|a| + |b| + 1]) == DoOne(Do(Do(c, a), b), Set(Managed, "true"))
  {
    var a, b, s := CaptureWrites(c, Format), CaptureWrites(c, Program), [Set(Managed, "true")];
    assert FirstRunWrites(c)[..|a| + |b| + 1] == a + b + s;
    DoAppend(c, a + b, s);
    DoAppend(c, a, b);
    DoSingle(Do(c, a + b), s[0]);
  }

  lemma ThreeCuts(c: Config, ws: seq<Write>)
    requires |ws| == 3
    ensures Do(c, ws[..0]) == c && Do(c, ws[..1]) == DoOne(c, ws[0])
    ensures Do(c, ws[..2]) == DoOne(DoOne(c, ws[0]), ws[1])
    ensures Do(c, ws[..3]) == DoOne(DoOne(DoOne(c, ws[0]), ws[1]), ws[2])
  {
    assert ws[..1] == [ws[0]] && ws[..2] == [ws[0], ws[1]] && ws[..3][..2] == ws[..2];
    DoSingle(c, ws[0]);
    DoPair(c, ws[0], ws[1]);
  }

  /** Restoring gpg.format does not change what restoring the other reads. */
  lemma RestoreLeavesOther(c: Config, f: seq<Write>)
    requires RestoreWrites(c, Format) == Some(f)
    ensures RestoreWrites(Do(c, f), Program) == RestoreWrites(c, Program)
  {
    RestoreEffect(c, f, Format, f[0], Had(Program));
    RestoreEffect(c, f, Format, f[0], Backup(Program));
  }

  lemma UndoParts(c: Config)
    requires IsManaged(c)
    ensures UndoWrites(c).Some? <==> RestoreWrites(c, Format).Some? && RestoreWrites(c, Program).Some?
    ensures UndoWrites(c).Some? ==>
              UndoWrites(c).value == RestoreWrites(c, Format).value + (RestoreWrites(c, Program).value + CLOSING)
  {
    if UndoWrites(c).Some? {
      var f, p := RestoreWrites(c, Format).value, RestoreWrites(c, Program).value;
      assert f + p + CLOSING == f + (p + CLOSING);
    }
  }

  lemma FrontCut(c: Config, f: seq<Write>, n: nat)
    requires IsManaged(c) && RestoreWrites(c, Format) == Some(f) && n <= |f|
    ensures UndoWrites(c).Some? ==> n <= |UndoWrites(c).value| && Do(c, UndoWrites(c).value[..n]) == Do(c, f[..n])
  {
    UndoParts(c);
    if UndoWrites(c).Some? {
      CutAppend(c, f, RestoreWrites(c, Program).value + CLOSING, n);
    }
  }

  lemma BackCut(c: Config, f: seq<Write>, m: nat)
    requires IsManaged(c) && RestoreWrites(c, Format) == Some(f) && RestoreWrites(c, Program).Some?
    requires m <= |RestoreWrites(c, Program).value + CLOSING|
    ensures UndoWrites(c).Some? && |UndoWrites(c).value| == |f| + |RestoreWrites(c, Program).value + CLOSING|
    ensures Do(c, UndoWrites(c).value[..|f| + m]) == Do(Do(c, f), (RestoreWrites(c, Program).value + CLOSING)[..m])
  {
    UndoParts(c);
    CutAppend(c, f, RestoreWrites(c, Program).value + CLOSING, |f| + m);
  }
}
