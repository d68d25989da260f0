/**
 The ref backstop: git's reference-transaction hook, which refuses an agent
 session's branch update that would add a commit with no signature
 (cmd/innsegl/hookreftx.go).
 */
module RefBackstop {
  import opened Options
  import opened Text
  import opened Signature
  import opened CommitGraph
  import opened GitRecord
  import opened GitView

  const AGENT_SESSION := "CLAUDECODE"
  const TOOL_USE_ID := "INNSEGL_TOOL_USE_ID"

  // ---------------------------------------------------------- rev-list text

  /** One record of `rev-list --header`: the id, and the commit as shown. */
  datatype Record = Record(id: string, commit: Commit, shown: string)

  /** Under its id git prints the commit it reads for it. */
  ghost predicate ValidRecord(repo: Repo, r: Record)
  {
    && r.id in repo.objects && repo.objects[r.id] == r.commit
    && ValidId(r.id) && Readable(repo, r.commit)
    && Shows(r.shown, Read(repo, r.commit).text)
  }

  function Render(recs: seq<Record>): string
  {
    if recs == [] then "" else
    recs[0].id + "\n" + recs[0].shown + "\0" + Render(recs[1..])
  }

  ghost function Listed(recs: seq<Record>): set<Commit>
  {
    set i | 0 <= i < |recs| :: recs[i].commit
  }

  ghost predicate AllValid(repo: Repo, recs: seq<Record>)
  {
    forall i :: 0 <= i < |recs| ==> ValidRecord(repo, recs[i])
  }

  lemma ListedCons(r: Record, recs: seq<Record>)
    ensures Listed([r] + recs) == {r.commit} + Listed(recs)
  {
    var all := [r] + recs;
    assert all[0] == r;
    assert forall i :: 0 <= i < |recs| ==> all[i + 1] == recs[i];
    forall c | c in {r.commit} + Listed(recs)
      ensures c in Listed(all)
    {
      if c != r.commit {
        var i :| 0 <= i < |recs| && recs[i].commit == c;
        assert all[i + 1].commit == c;
      }
    }
  }

  /** `text` is what git prints for these commits: the records, in any order. */
  ghost predicate Output(repo: Repo, cs: set<Commit>, text: string, recs: seq<Record>)
  {
    text == Render(recs) && AllValid(repo, recs) && Listed(recs) == cs
  }

  lemma OutputMore(repo: Repo, rec: Record, cs: set<Commit>, text: string, recs: seq<Record>)
    requires ValidRecord(repo, rec) && Output(repo, cs, text, recs)
    ensures Output(repo, cs + {rec.commit}, Render([rec] + recs), [rec] + recs)
  {
    var more := [rec] + recs;
    ListedCons(rec, recs);
    forall i | 0 <= i < |more|
      ensures ValidRecord(repo, more[i])
    {
      assert i > 0 ==> more[i] == recs[i - 1];
    }
  }

  /** git can print every set of commits it can read. */
  lemma {:induction false} CanPrint(repo: Repo, cs: set<Commit>) returns (text: string, recs: seq<Record>)
    requires Closed(repo) && cs <= repo.objects.Values && forall c :: c in cs ==> Readable(repo, c)
    ensures Output(repo, cs, text, recs)
    decreases |cs|
  {
    text, recs := "", [];
    if c :| c in cs {
      text, recs := CanPrint(repo, cs - {c});
      var shown := PrintedBack(Read(repo, c).text);
      var rec := Record(IdOf(repo, c), c, shown);
      OutputMore(repo, rec, cs - {c}, text, recs);
      text, recs := Render([rec] + recs), [rec] + recs;
      assert cs - {c} + {c} == cs;
    }
  }

  /** What rev-list answers for each id: an error, or its output. */
  type RevList = string -> Option<string>

  ghost predicate Prints(repo: Repo, c: Commit, text: string)
  {
    exists recs :: Output(repo, NewCommits(repo, c), text, recs)
  }

  /** It fails for an id that is not there, and where it would list a commit that
      cannot be read; and it may fail for any other. */
  ghost predicate Answers(repo: Repo, rev: RevList)
  {
    forall id :: rev(id).Some? ==> id in repo.objects && Prints(repo, repo.objects[id], rev(id).value)
  }

  lemma AnsweredReadable(repo: Repo, rev: RevList, id: string)
    requires Answers(repo, rev) && rev(id).Some?
    ensures id in repo.objects && forall c :: c in NewCommits(repo, repo.objects[id]) ==> Readable(repo, c)
  {
    var cs := NewCommits(repo, repo.objects[id]);
    var recs: seq<Record> :| Output(repo, cs, rev(id).value, recs);
    forall c | c in cs
      ensures Readable(repo, c)
    {
      var i :| 0 <= i < |recs| && recs[i].commit == c;
      assert ValidRecord(repo, recs[i]);
    }
  }

  /** What one NUL-separated piece contributes: its id when it is unsigned. */
  ghost function UnsignedPiece(p: string): seq<string>
  {
    var record := TrimLeft(p, '\n');
    if record == "" then [] else
    var i := Find(record, '\n');
    var raw := if i < |record| then record[i + 1..] else "";
    if HeaderSigned(raw) then [] else [record[..i]]
  }

  ghost function UnsignedPieces(ps: seq<string>): seq<string>
  {
    if ps == [] then [] else UnsignedPiece(ps[0]) + UnsignedPieces(ps[1..])
  }

  lemma {:induction false} UnsignedAppend(a: seq<string>, b: seq<string>)
    ensures UnsignedPieces(a + b) == UnsignedPieces(a) + UnsignedPieces(b)
  {
    if a == [] {
      assert a + b == b;
    } else {
      assert (a + b)[1..] == a[1..] + b;
      UnsignedAppend(a[1..], b);
    }
  }

  /** One turn of the loop over git's output. */
  method ParsePiece(p: string) returns (unsigned: seq<string>)
    ensures unsigned == UnsignedPiece(p)
  {
    var record := TrimLeft(p, '\n');
    if record == "" {
      return [];
    }
    var i := Find(record, '\n');
    var raw := if i < |record| then record[i + 1..] else "";
    var signed := HasSignatureHeader(raw);
    if signed {
      return [];
    }
    return [record[..i]];
  }

  lemma UnsignedSnoc(ps: seq<string>, k: nat)
    requires k < |ps|
    ensures UnsignedPieces(ps[..k + 1]) == UnsignedPieces(ps[..k]) + UnsignedPiece(ps[k])
  {
    assert ps[..k + 1] == ps[..k] + [ps[k]];
    UnsignedAppend(ps[..k], [ps[k]]);
  }

  method ParseUnsigned(out: string) returns (unsigned: seq<string>)
    ensures unsigned == UnsignedPieces(Split(out, '\0'))
  {
    var pieces := Split(out, '\0');
    unsigned := [];
    for k := 0 to |pieces|
      invariant unsigned == UnsignedPieces(pieces[..k])
    {
      var u := ParsePiece(pieces[k]);
      UnsignedSnoc(pieces, k);
      unsigned := unsigned + u;
    }
    assert pieces[..|pieces|] == pieces;
  }

  lemma IdLine(id: string, q: string)
    requires ValidId(id)
    ensures UnsignedPiece(id + "\n" + q) == if HeaderSigned(q) then [] else [id]
  {
    var p := id + "\n" + q;
    assert p[0] == id[0];
    assert TrimLeft(p, '\n') == p;
    assert '\n' !in id;
    FindAppend(id, q, '\n');
    assert p[|id| + 1..] == q && p[..|id|] == id;
  }

  /** The hook takes the commit as signed, from what git reads for it. */
  ghost predicate Taken(repo: Repo, c: Commit)
  {
    TakenAsSigned(Read(repo, c).text)
  }

  lemma RecordExact(repo: Repo, r: Record)
    requires ValidRecord(repo, r)
    ensures UnsignedPieces(Split(r.id + "\n" + r.shown, '\0')) == if Taken(repo, r.commit) then [] else [r.id]
  {
    var whole := r.id + "\n" + r.shown;
    SplitNone(whole, '\0');
    assert UnsignedPieces([whole]) == UnsignedPiece(whole);
    IdLine(r.id, r.shown);
    ShownIsTaken(r.shown, Read(repo, r.commit).text);
  }

  lemma RenderCons(recs: seq<Record>)
    requires recs != []
    ensures UnsignedPieces(Split(Render(recs), '\0')) ==
            UnsignedPieces(Split(recs[0].id + "\n" + recs[0].shown, '\0')) +
            UnsignedPieces(Split(Render(recs[1..]), '\0'))
  {
    var a, b := recs[0].id + "\n" + recs[0].shown, Render(recs[1..]);
    assert Render(recs) == a + ['\0'] + b;
    SplitConcat(a, b, '\0');
    UnsignedAppend(Split(a, '\0'), Split(b, '\0'));
  }

  ghost function UnsignedIds(repo: Repo, recs: seq<Record>): seq<string>
  {
    if recs == [] then [] else
    (if Taken(repo, recs[0].commit) then [] else [recs[0].id]) + UnsignedIds(repo, recs[1..])
  }

  /** The ids the hook lists are those of the commits it takes as unsigned, in
      git's order, whatever bytes the commits hold. */
  lemma {:induction false} RenderExact(repo: Repo, recs: seq<Record>)
    requires AllValid(repo, recs)
    ensures UnsignedPieces(Split(Render(recs), '\0')) == UnsignedIds(repo, recs)
  {
    if recs == [] {
      SplitNone("", '\0');
    } else {
      RenderCons(recs);
      RecordExact(repo, recs[0]);
      RenderExact(repo, recs[1..]);
    }
  }

  lemma {:induction false} UnsignedIdsNamed(repo: Repo, recs: seq<Record>, id: string)
    requires AllValid(repo, recs) && id in UnsignedIds(repo, recs)
    ensures id in repo.objects && repo.objects[id] in Listed(recs) && !Taken(repo, repo.objects[id])
  {
    assert [recs[0]] + recs[1..] == recs;
    ListedCons(recs[0], recs[1..]);
    if Taken(repo, recs[0].commit) || id != recs[0].id {
      UnsignedIdsNamed(repo, recs[1..], id);
    }
  }

  lemma {:induction false} UnsignedIdsComplete(repo: Repo, recs: seq<Record>, c: Commit) returns (id: string)
    requires AllValid(repo, recs) && c in Listed(recs) && !Taken(repo, c)
    ensures id in UnsignedIds(repo, recs) && id in repo.objects && repo.objects[id] == c
  {
    assert [recs[0]] + recs[1..] == recs;
    ListedCons(recs[0], recs[1..]);
    if c == recs[0].commit {
      id := recs[0].id;
      assert id in [id] + UnsignedIds(repo, recs[1..]);
    } else {
      id := UnsignedIdsComplete(repo, recs[1..], c);
    }
  }

  ghost predicate NamesUnsigned(repo: Repo, ids: seq<string>, cs: set<Commit>)
  {
    && (forall id :: id in ids ==>
          id in repo.objects && repo.objects[id] in cs && !Taken(repo, repo.objects[id]))
    && (forall c :: c in cs && !Taken(repo, c) ==>
          exists id :: id in ids && id in repo.objects && repo.objects[id] == c)
  }

  lemma NamedByRecords(repo: Repo, recs: seq<Record>)
    requires AllValid(repo, recs)
    ensures NamesUnsigned(repo, UnsignedIds(repo, recs), Listed(recs))
  {
    forall id | id in UnsignedIds(repo, recs)
      ensures id in repo.objects && repo.objects[id] in Listed(recs) && !Taken(repo, repo.objects[id])
    {
      UnsignedIdsNamed(repo, recs, id);
    }
    forall c | c in Listed(recs) && !Taken(repo, c)
      ensures exists id :: id in UnsignedIds(repo, recs) && id in repo.objects && repo.objects[id] == c
    {
      var id := UnsignedIdsComplete(repo, recs, c);
    }
  }

  lemma OutputNames(repo: Repo, cs: set<Commit>, text: string, unsigned: seq<string>)
    requires (exists recs :: Output(repo, cs, text, recs)) && unsigned == UnsignedPieces(Split(text, '\0'))
    ensures NamesUnsigned(repo, unsigned, cs)
    ensures unsigned == [] <==> forall c :: c in cs ==> Taken(repo, c)
  {
    var recs :| Output(repo, cs, text, recs);
    RenderExact(repo, recs);
    NamedByRecords(repo, recs);
    if unsigned != [] {
      assert unsigned[0] in unsigned;
    }
  }

  /** Every commit the id would add, as git walks and reads, is taken as signed. */
  ghost predicate Clean(repo: Repo, id: string)
  {
    id in repo.objects && forall c :: c in NewCommits(repo, repo.objects[id]) ==> Taken(repo, c)
  }

  /** unsignedNewCommits: the answer names exactly the new commits the hook takes
      as unsigned, so it is empty exactly when there are none. */
  method UnsignedNewCommits(ghost repo: Repo, rev: RevList, newId: string) returns (r: Option<seq<string>>)
    requires Answers(repo, rev)
    ensures r.None? <==> rev(newId).None?
    ensures r.Some? ==> newId in repo.objects && NamesUnsigned(repo, r.value, NewCommits(repo, repo.objects[newId]))
    ensures r == Some([]) <==> rev(newId).Some? && Clean(repo, newId)
  {
    var out := rev(newId);
    if out.None? {
      return None;
    }
    var unsigned := ParseUnsigned(out.value);
    assert Prints(repo, repo.objects[newId], out.value);
    OutputNames(repo, NewCommits(repo, repo.objects[newId]), out.value, unsigned);
    r := Some(unsigned);
  }

  // ------------------------------------------------------------- the hook

  /** isZeroObjectID. */
  predicate IsZeroObjectId(s: string)
  {
    s != "" && Trim(s, '0') == ""
  }

  /** It is git's id for a ref that does not exist, and no other. */
  lemma ZeroIsNull(s: string)
    ensures IsZeroObjectId(s) <==> NullId(s)
  {
    TrimNothing(s, '0');
  }

  function Getenv(env: map<string, string>, name: string): string
  {
    if name in env then env[name] else ""
  }

  predicate AgentSession(env: map<string, string>)
  {
    Getenv(env, AGENT_SESSION) != "" || Getenv(env, TOOL_USE_ID) != ""
  }

  /** A line of git's input the hook acts on: a branch set to some commit. */
  predicate Relevant(line: string)
  {
    var f := Fields(line);
    |f| == 3 && IsBranch(f[2]) && !IsZeroObjectId(f[1])
  }

  /** What that says of the texts read: signed and not missed, or misread. With
      plain headers alone it is: signed. */
  lemma CleanMeans(repo: Repo, id: string)
    requires id in repo.objects
    ensures Clean(repo, id) <==> forall c :: c in NewCommits(repo, repo.objects[id]) ==>
              (Signed(Read(repo, c).text) && !Missed(Read(repo, c).text)) || Misread(Read(repo, c).text)
    ensures (forall c :: c in NewCommits(repo, repo.objects[id]) ==> PlainHeader(Read(repo, c).text)) ==>
              (Clean(repo, id) <==> forall c :: c in NewCommits(repo, repo.objects[id]) ==> Signed(Read(repo, c).text))
  {
    forall c: Commit
      ensures var t := Read(repo, c).text;
              && (TakenAsSigned(t) <==> (Signed(t) && !Missed(t)) || Misread(t))
              && (PlainHeader(t) ==> (TakenAsSigned(t) <==> Signed(t)))
    {
      var t := Read(repo, c).text;
      TakenAsSignedIff(t);
      if PlainHeader(t) {
        PlainIsExact(t);
      }
    }
  }

  /** rev-list answers for the id, and the answer is clean. */
  ghost predicate Passed(repo: Repo, rev: RevList, id: string)
  {
    rev(id).Some? && Clean(repo, id)
  }

  /** The verdict the hook stands for, with no order in it. */
  ghost predicate Admits(repo: Repo, rev: RevList, lines: seq<string>)
  {
    forall l :: l in lines && Relevant(l) ==> Passed(repo, rev, Fields(l)[1])
  }

  predicate Gated(args: seq<string>, env: map<string, string>)
  {
    |args| >= 1 && args[0] == "prepared" && AgentSession(env)
  }

  /** The new ids of the lines the hook acts on, in order. */
  function NewIds(lines: seq<string>): seq<string>
  {
    if lines == [] then [] else
    var n := |lines| - 1;
    NewIds(lines[..n]) + if Relevant(lines[n]) then [Fields(lines[n])[1]] else []
  }

  lemma {:induction false} NewIdsAdmit(repo: Repo, rev: RevList, lines: seq<string>)
    ensures (forall id :: id in NewIds(lines) ==> Passed(repo, rev, id)) <==> Admits(repo, rev, lines)
  {
    if lines != [] {
      var n := |lines| - 1;
      NewIdsAdmit(repo, rev, lines[..n]);
      assert forall l :: l in lines <==> l in lines[..n] || l == lines[n] by {
        assert lines == lines[..n] + [lines[n]];
      }
      var rest := if Relevant(lines[n]) then [Fields(lines[n])[1]] else [];
      assert forall id :: id in NewIds(lines) <==> id in NewIds(lines[..n]) || id in rest;
      assert Relevant(lines[n]) ==> rest[0] in NewIds(lines);
    }
  }

  /** A line is acted on exactly when it has three fields, the last names a branch
      and the middle one is not all zeros. */
  lemma RelevantLines(lines: seq<string>)
    ensures forall l :: l in lines ==>
              (Relevant(l) <==>
               |Fields(l)| == 3 && "refs/heads/" <= Fields(l)[2] && exists c :: c in Fields(l)[1] && c != '0')
  {
    forall l | l in lines && |Fields(l)| == 3
      ensures IsZeroObjectId(Fields(l)[1]) <==> forall c :: c in Fields(l)[1] ==> c == '0'
    {
      var id := Fields(l)[1];
      ZeroIsNull(id);
      FieldsSolid(l, 1);
      assert forall i :: 0 <= i < |id| ==> id[i] in id;
    }
  }

  /** The loop over git's input lines. */
  method ReadUpdates(lines: seq<string>) returns (ids: seq<string>)
    ensures ids == NewIds(lines)
  {
    ids := [];
    for k := 0 to |lines|
      invariant ids == NewIds(lines[..k])
    {
      assert lines[..k + 1][..k] == lines[..k];
      var fields := Fields(lines[k]);
      if |fields| != 3 || !("refs/heads/" <= fields[2]) || IsZeroObjectId(fields[1]) {
        continue;
      }
      ids := ids + [fields[1]];
    }
    assert lines[..|lines|] == lines;
  }

  /** The second loop: the first id rev-list fails for, or that adds a commit
      taken as unsigned, is refused. */
  ghost function Exit(repo: Repo, rev: RevList, ids: seq<string>): int
  {
    if ids == [] then 0 else if !Passed(repo, rev, ids[0]) then 1 else Exit(repo, rev, ids[1..])
  }

  ghost function ExitCode(repo: Repo, rev: RevList, args: seq<string>, env: map<string, string>,
                          lines: seq<string>, readFails: bool): int
  {
    if !Gated(args, env) then 0 else if readFails then 1 else Exit(repo, rev, NewIds(lines))
  }

  lemma {:induction false} ExitIff(repo: Repo, rev: RevList, ids: seq<string>)
    ensures Exit(repo, rev, ids) == if forall id :: id in ids ==> Passed(repo, rev, id) then 0 else 1
  {
    if ids != [] {
      ExitIff(repo, rev, ids[1..]);
      assert ids == [ids[0]] + ids[1..];
    }
  }

  /** runGitHookReferenceTransaction. `readFails` is a failed read of stdin. */
  method ReferenceTransaction(ghost repo: Repo, rev: RevList, args: seq<string>, env: map<string, string>,
                              lines: seq<string>, readFails: bool) returns (code: int)
    requires Answers(repo, rev)
    ensures code == ExitCode(repo, rev, args, env, lines, readFails)
    ensures code == 0 <==> !Gated(args, env) || (!readFails && Admits(repo, rev, lines))
    // Said without the hook's own tests: an agent's transaction at its prepared
    // state whose input cannot be read, or that sets a branch to an id that is
    // not all zeros and does not pass.
    ensures code == 1 <==>
              && |args| > 0 && args[0] == "prepared"
              && (("CLAUDECODE" in env && env["CLAUDECODE"] != "") ||
                  ("INNSEGL_TOOL_USE_ID" in env && env["INNSEGL_TOOL_USE_ID"] != ""))
              && (readFails || exists l :: l in lines && |Fields(l)| == 3 && "refs/heads/" <= Fields(l)[2] &&
                                         (exists c :: c in Fields(l)[1] && c != '0') && !Passed(repo, rev, Fields(l)[1]))
  {
    VerdictIff(repo, rev, args, env, lines, readFails);
    RelevantLines(lines);
    if |args| < 1 || args[0] != "prepared" || !AgentSession(env) {
      return 0;
    }
    var ids := ReadUpdates(lines);
    if readFails {
      return 1;
    }
    for k := 0 to |ids|
      invariant Exit(repo, rev, ids) == Exit(repo, rev, ids[k..])
    {
      var unsigned := UnsignedNewCommits(repo, rev, ids[k]);
      assert ids[k..][0] == ids[k] && ids[k..][1..] == ids[k + 1..];
      if unsigned.None? {
        return 1;
      }
      if |unsigned.value| > 0 {
        return 1;
      }
    }
    return 0;
  }

  /** The code, loops and all, stands for the verdict with no order in it. */
  lemma VerdictIff(repo: Repo, rev: RevList, args: seq<string>, env: map<string, string>,
                   lines: seq<string>, readFails: bool)
    ensures ExitCode(repo, rev, args, env, lines, readFails) ==
            if !Gated(args, env) || (!readFails && Admits(repo, rev, lines)) then 0 else 1
  {
    ExitIff(repo, rev, NewIds(lines));
    NewIdsAdmit(repo, rev, lines);
  }

  /** So the code does not depend on the order of git's lines. */
  lemma OrderIndependent(repo: Repo, rev: RevList, args: seq<string>, env: map<string, string>,
                         a: seq<string>, b: seq<string>, readFails: bool)
    requires multiset(a) == multiset(b)
    ensures ExitCode(repo, rev, args, env, a, readFails) == ExitCode(repo, rev, args, env, b, readFails)
  {
    forall l
      ensures l in a <==> l in b
    {
      assert l in multiset(a) <==> l in multiset(b);
    }
    VerdictIff(repo, rev, args, env, a, readFails);
    VerdictIff(repo, rev, args, env, b, readFails);
  }
}
