/**
 `innsegl migrate-schema` (cmd/innsegl/migrateschema.go): attest, on a shared
 append-only chain, the position where events begin to carry a new schema
 version. Several runs of the command and other writers interleave at every
 read and append. The ledger's contract is the one its Append and SchemaSpan
 document (internal/ledger/postgres.go, internal/ledger/patchid.go): positions
 start at 1, an idempotency key is stored once, and an append whose key is
 stored returns that event when it is the same request and fails when it is
 not.
 */
module SchemaCutover {

  const CURRENT := "5"

  /** An event; `author` is the run that appended it, or -1. An attestation names
      its cutover. */
  datatype Event = Event(version: string, key: string, cutover: nat, author: int)

  type Chain = seq<Event>

  /** migrateSchemaKey. */
  function MigrateKey(from: string): string
  {
    "schema:migrated:" + from + "->" + CURRENT
  }

  lemma KeyNamesVersion(a: string, b: string)
    requires MigrateKey(a) == MigrateKey(b)
    ensures a == b
  {
    var pre, post := "schema:migrated:", "->" + CURRENT;
    assert MigrateKey(a) == pre + a + post && MigrateKey(b) == pre + b + post;
    assert |a| == |b|;
    assert a == MigrateKey(a)[|pre|..|pre| + |a|];
    assert b == MigrateKey(b)[|pre|..|pre| + |b|];
  }

  predicate IsNew(e: Event) { e.version == CURRENT }

  predicate NoNew(c: Chain) { forall p :: 0 <= p < |c| ==> !IsNew(c[p]) }
  predicate AllNew(c: Chain) { forall p :: 0 <= p < |c| ==> IsNew(c[p]) }

  /** SchemaSpan's first query: the least position carrying the new version,
      or 0. */
  function First(c: Chain): (f: nat)
    ensures f == 0 <==> NoNew(c)
    ensures f > 0 ==> f <= |c| && IsNew(c[f - 1]) && NoNew(c[..f - 1])
  {
    if c == [] then 0 else
    var n := |c| - 1;
    var f := First(c[..n]);
    if f > 0 then assert c[..n][..f - 1] == c[..f - 1]; f else
    if IsNew(c[n]) then n + 1 else 0
  }

  /** Its second query: does anything from there on carry another version. */
  predicate Mixed(c: Chain, f: nat)
    requires 0 < f <= |c| + 1
  {
    !AllNew(c[f - 1..])
  }

  /** Where a key is stored, as a position, or 0. */
  function Stored(c: Chain, key: string): (p: nat)
    ensures p <= |c| && (p > 0 ==> c[p - 1].key == key)
    ensures p == 0 ==> forall q :: 0 <= q < |c| ==> c[q].key != key
  {
    if c == [] then 0 else
    var n := |c| - 1;
    var p := Stored(c[..n], key);
    if p > 0 then p else if c[n].key == key then n + 1 else 0
  }

  /** What the position the attestation names has to do. */
  predicate Separates(c: Chain, cutover: nat)
  {
    forall p :: 0 <= p < |c| ==> (IsNew(c[p]) <==> p + 1 >= cutover)
  }

  // ------------------------------------------------------------ the runs

  /** Where a run is; spanAt and readAt are how long the chain was when it
      asked where the version begins, and when it asked its second question. */
  datatype PC =
    | Start
    | Checked
    | Spanned(first: nat, spanAt: nat)
    | Cut(cutover: nat, spanAt: nat, readAt: nat)
    | Attested(cutover: nat, landed: nat, added: bool, spanAt: nat, readAt: nat, appendAt: nat)
    | Already
    | Stopped

  datatype State = State(chain: Chain, pcs: map<int, PC>)

  datatype Step =
    | Check(i: int)
    | Span(i: int)
    | Read(i: int)
    | Append(i: int)
    | Halt(i: int)
    | Other(version: string, key: string)

  predicate Enabled(s: State, t: Step)
  {
    match t
    case Check(i) => i in s.pcs && s.pcs[i] == Start
    case Span(i) => i in s.pcs && s.pcs[i] == Checked
    case Read(i) => i in s.pcs && s.pcs[i].Spanned? && s.pcs[i].first <= |s.chain|
    case Append(i) => i in s.pcs && s.pcs[i].Cut?
    case Halt(i) => i in s.pcs
    case Other(_, _) => true
  }

  /** The ledger's append for another writer: a stored key adds nothing. */
  function OtherAppend(c: Chain, version: string, key: string): Chain
  {
    if key != "" && Stored(c, key) > 0 then c else c + [Event(version, key, 0, -1)]
  }

  function AppendStep(s: State, i: int, from: string): State
    requires i in s.pcs && s.pcs[i].Cut?
  {
    var Cut(cutover, spanAt, readAt) := s.pcs[i];
    var p := Stored(s.chain, MigrateKey(from));
    if p > 0 then
      var e := s.chain[p - 1];
      if e.version != CURRENT || e.cutover != cutover || p < cutover then s.(pcs := s.pcs[i := Stopped]) else
      s.(pcs := s.pcs[i := Attested(cutover, p, false, spanAt, readAt, |s.chain|)])
    else
      var landed := |s.chain| + 1;
      State(s.chain + [Event(CURRENT, MigrateKey(from), cutover, i)],
            s.pcs[i := if landed < cutover then Stopped
                       else Attested(cutover, landed, true, spanAt, readAt, |s.chain|)])
  }

  /** One step of a run: a refusal, an error or an inconsistent landing stops
      it. */
  function Next(froms: map<int, string>, s: State, t: Step): State
    requires Enabled(s, t) && s.pcs.Keys <= froms.Keys
  {
    match t
    case Check(i) =>
      s.(pcs := s.pcs[i := if Stored(s.chain, MigrateKey(froms[i])) > 0 then Already else Checked])
    case Span(i) => s.(pcs := s.pcs[i := Spanned(First(s.chain), |s.chain|)])
    case Read(i) =>
      var Spanned(f, spanAt) := s.pcs[i];
      if f == 0 then s.(pcs := s.pcs[i := Cut(|s.chain| + 1, spanAt, |s.chain|)]) else
      if Mixed(s.chain, f) then s.(pcs := s.pcs[i := Stopped]) else
      s.(pcs := s.pcs[i := Cut(f, spanAt, |s.chain|)])
    case Append(i) => AppendStep(s, i, froms[i])
    case Halt(i) => s.(pcs := s.pcs[i := Stopped])
    case Other(version, key) => s.(chain := OtherAppend(s.chain, version, key))
  }

  predicate UniqueKeys(c: Chain)
  {
    forall p, q :: 0 <= p < q < |c| && c[p].key != "" ==> c[p].key != c[q].key
  }

  predicate Init(froms: map<int, string>, s: State)
  {
    s.pcs.Keys == froms.Keys && UniqueKeys(s.chain) && forall i :: i in s.pcs ==> s.pcs[i] == Start
  }

  ghost predicate Run(froms: map<int, string>, ss: seq<State>, ts: seq<Step>)
  {
    && |ss| == |ts| + 1 && Init(froms, ss[0])
    && forall k :: 0 <= k < |ts| ==>
         ss[k].pcs.Keys <= froms.Keys && Enabled(ss[k], ts[k]) && ss[k + 1] == Next(froms, ss[k], ts[k])
  }

  // ------------------------------------------------------- exactly once

  lemma UniqueSnoc(c: Chain, e: Event)
    requires UniqueKeys(c) && (e.key == "" || Stored(c, e.key) == 0)
    ensures UniqueKeys(c + [e])
  {}

  /** The cutover is what the two reads of the chain say. */
  ghost predicate NamedBy(c: Chain, cutover: nat, spanAt: nat, readAt: nat)
    requires spanAt <= readAt <= |c|
  {
    var f := First(c[..spanAt]);
    if f == 0 then cutover == readAt + 1 else cutover == f && AllNew(c[..readAt][f - 1..])
  }

  /** The attestation that the schema moved from one version at a position. */
  predicate Attests(e: Event, from: string, cutover: nat)
  {
    e.version == "5" && e.key == MigrateKey(from) && e.cutover == cutover
  }

  /** What a run knows of the chain it saw grow. */
  ghost predicate Known(froms: map<int, string>, s: State, i: int)
    requires i in s.pcs
  {
    match s.pcs[i]
    case Spanned(f, a) => a <= |s.chain| && f == First(s.chain[..a])
    case Cut(c, a, b) => a <= b <= |s.chain| && NamedBy(s.chain, c, a, b)
    case Attested(c, landed, added, a, b, n) =>
      && a <= b <= n <= |s.chain| && NamedBy(s.chain, c, a, b) && 0 < landed <= |s.chain| && landed >= c
      && i in froms && Attests(s.chain[landed - 1], froms[i], c)
      && (added ==> landed == n + 1 && s.chain[n].author == i)
    case _ => true
  }

  ghost predicate Inv(froms: map<int, string>, s: State)
  {
    s.pcs.Keys == froms.Keys && UniqueKeys(s.chain) && forall i :: i in s.pcs ==> Known(froms, s, i)
  }

  lemma KnownGrows(froms: map<int, string>, s: State, s': State, i: int)
    requires i in s.pcs && i in s'.pcs && s'.pcs[i] == s.pcs[i] && s.chain <= s'.chain && Known(froms, s, i)
    ensures Known(froms, s', i)
  {
    match s.pcs[i]
    case Spanned(f, a) => assert s'.chain[..a] == s.chain[..a];
    case Cut(c, a, b) => assert s'.chain[..a] == s.chain[..a] && s'.chain[..b] == s.chain[..b];
    case Attested(c, landed, added, a, b, n) =>
      assert s'.chain[..a] == s.chain[..a] && s'.chain[..b] == s.chain[..b];
    case _ =>
  }

  lemma ChainGrows(froms: map<int, string>, s: State, t: Step)
    requires Enabled(s, t) && s.pcs.Keys <= froms.Keys && UniqueKeys(s.chain)
    ensures s.chain <= Next(froms, s, t).chain && UniqueKeys(Next(froms, s, t).chain)
  {
    match t
    case Append(i) =>
      if Stored(s.chain, MigrateKey(froms[i])) == 0 {
        UniqueSnoc(s.chain, Event(CURRENT, MigrateKey(froms[i]), s.pcs[i].cutover, i));
      }
    case Other(version, key) =>
      if key == "" || Stored(s.chain, key) == 0 {
        UniqueSnoc(s.chain, Event(version, key, 0, -1));
      }
    case _ =>
  }

  lemma OwnAppend(froms: map<int, string>, s: State, i: int)
    requires s.pcs.Keys == froms.Keys && Enabled(s, Append(i)) && Known(froms, s, i)
    ensures Known(froms, Next(froms, s, Append(i)), i)
  {
    var s' := Next(froms, s, Append(i));
    var Cut(c, a, b) := s.pcs[i];
    assert s'.chain[..a] == s.chain[..a] && s'.chain[..b] == s.chain[..b];
  }

  lemma OwnStep(froms: map<int, string>, s: State, t: Step, i: int)
    requires s.pcs.Keys == froms.Keys && Enabled(s, t) && !t.Other? && t.i == i && Known(froms, s, i)
    ensures Known(froms, Next(froms, s, t), i)
  {
    match t
    case Span(_) => assert s.chain[..|s.chain|] == s.chain;
    case Read(_) => assert s.chain[..|s.chain|] == s.chain;
    case Append(_) => OwnAppend(froms, s, i);
    case _ =>
  }

  lemma NextKeeps(froms: map<int, string>, s: State, t: Step)
    requires Inv(froms, s) && Enabled(s, t)
    ensures Inv(froms, Next(froms, s, t))
  {
    var s' := Next(froms, s, t);
    ChainGrows(froms, s, t);
    assert s'.pcs.Keys == s.pcs.Keys;
    forall i | i in s'.pcs
      ensures Known(froms, s', i)
    {
      if !t.Other? && t.i == i {
        OwnStep(froms, s, t, i);
      } else {
        KnownGrows(froms, s, s', i);
      }
    }
  }

  lemma {:induction false} RunKeeps(froms: map<int, string>, ss: seq<State>, ts: seq<Step>, k: nat)
    requires Run(froms, ss, ts) && k <= |ts|
    ensures Inv(froms, ss[k])
  {
    if k > 0 {
      RunKeeps(froms, ss, ts, k - 1);
      NextKeeps(froms, ss[k - 1], ts[k - 1]);
    }
  }

  ghost predicate StoredOnce(c: Chain, key: string)
  {
    forall p, q :: 0 <= p < |c| && 0 <= q < |c| && c[p].key == key && c[q].key == key ==> p == q
  }

  /** Over every interleaving, the position a successful run reports, its own
      append or another's, is the one the stored attestation names. */
  lemma SuccessIsStored(froms: map<int, string>, ss: seq<State>, ts: seq<Step>, k: nat, i: int)
    requires Run(froms, ss, ts) && k <= |ts| && i in ss[k].pcs && i in froms && ss[k].pcs[i].Attested?
    ensures var s := ss[k].pcs[i];
            s.cutover <= s.landed && 0 < s.landed <= |ss[k].chain| &&
            Attests(ss[k].chain[s.landed - 1], froms[i], s.cutover)
  {
    RunKeeps(froms, ss, ts, k);
    assert Known(froms, ss[k], i);
  }

  /** The run succeeded by adding the attestation itself. */
  predicate Added(s: State, i: int)
  {
    i in s.pcs && s.pcs[i].Attested? && s.pcs[i].added
  }

  /** Over every interleaving: the chain holds at most one attestation for a
      version pair, and at most one run added it. */
  lemma AttestedOnce(froms: map<int, string>, ss: seq<State>, ts: seq<Step>, k: nat)
    requires Run(froms, ss, ts) && k <= |ts|
    ensures forall v :: StoredOnce(ss[k].chain, MigrateKey(v))
    ensures forall i, j :: i in froms && j in froms && froms[i] == froms[j] ==>
              Added(ss[k], i) && Added(ss[k], j) ==> i == j
  {
    RunKeeps(froms, ss, ts, k);
    var s := ss[k];
    forall v
      ensures StoredOnce(s.chain, MigrateKey(v))
    {
      assert |MigrateKey(v)| > 0;
    }
    forall i, j | Added(s, i) && Added(s, j) && i in froms && j in froms && froms[i] == froms[j]
      ensures i == j
    {
      assert Known(froms, s, i) && Known(froms, s, j);
      assert s.chain[s.pcs[i].appendAt].key == s.chain[s.pcs[j].appendAt].key == MigrateKey(froms[i]);
      assert |MigrateKey(froms[i])| > 0;
    }
  }

  lemma StoredStays(c: Chain, c': Chain, key: string)
    requires c <= c' && Stored(c, key) > 0
    ensures Stored(c', key) > 0
  {
    var p := Stored(c, key);
    assert c'[p - 1] == c[p - 1];
  }

  /** A run that has not looked yet, or has found the attestation, or stopped. */
  predicate Idle(s: State, i: int)
  {
    i in s.pcs && (s.pcs[i].Start? || s.pcs[i].Already? || s.pcs[i].Stopped?)
  }

  /** From position `n` on, nothing was appended by this run. */
  predicate NoneBy(c: Chain, n: nat, i: int)
  {
    forall p :: n <= p < |c| ==> c[p].author != i
  }

  lemma IdleStep(froms: map<int, string>, s: State, t: Step, i: int)
    requires s.pcs.Keys <= froms.Keys && Enabled(s, t) && Idle(s, i) && i >= 0
    requires Stored(s.chain, MigrateKey(froms[i])) > 0
    ensures Idle(Next(froms, s, t), i) && s.chain <= Next(froms, s, t).chain
    ensures NoneBy(Next(froms, s, t).chain, |s.chain|, i)
  {
  }

  lemma NoneByLater(c: Chain, c': Chain, n: nat, i: int)
    requires n <= |c| && c <= c' && NoneBy(c, n, i) && NoneBy(c', |c|, i)
    ensures NoneBy(c', n, i)
  {
  }

  lemma StepOf(froms: map<int, string>, ss: seq<State>, ts: seq<Step>, k: nat)
    requires Run(froms, ss, ts) && k < |ts|
    ensures ss[k].pcs.Keys <= froms.Keys && Enabled(ss[k], ts[k]) && ss[k + 1] == Next(froms, ss[k], ts[k])
  {
  }

  /** Since the chain was `c`, the run has not done anything. */
  predicate IdleSince(s: State, c: Chain, i: int)
  {
    Idle(s, i) && c <= s.chain && NoneBy(s.chain, |c|, i)
  }

  lemma IdleOn(froms: map<int, string>, s: State, t: Step, c: Chain, i: int)
    requires s.pcs.Keys <= froms.Keys && Enabled(s, t) && i >= 0 && IdleSince(s, c, i)
    requires Stored(c, MigrateKey(froms[i])) > 0
    ensures IdleSince(Next(froms, s, t), c, i)
  {
    StoredStays(c, s.chain, MigrateKey(froms[i]));
    IdleStep(froms, s, t, i);
    NoneByLater(s.chain, Next(froms, s, t).chain, |c|, i);
  }

  lemma {:induction false} IdleUpTo(froms: map<int, string>, ss: seq<State>, ts: seq<Step>,
                                    k: nat, m: nat, c: Chain, i: int)
    requires Run(froms, ss, ts) && k <= m <= |ts| && i in froms && i >= 0
    requires IdleSince(ss[k], c, i) && Stored(c, MigrateKey(froms[i])) > 0
    ensures IdleSince(ss[m], c, i)
    decreases m
  {
    if k < m {
      IdleUpTo(froms, ss, ts, k, m - 1, c, i);
      StepOf(froms, ss, ts, m - 1);
      IdleOn(froms, ss[m - 1], ts[m - 1], c, i);
    }
  }

  /** A run that has not begun when the chain holds the attestation adds nothing,
      whatever else happens: it stays where it is, finds it, or stops. */
  lemma SecondRunAddsNothing(froms: map<int, string>, ss: seq<State>, ts: seq<Step>, k: nat, m: nat, i: int)
    requires Run(froms, ss, ts) && k <= m <= |ts| && i in ss[k].pcs && i in froms && i >= 0
    requires ss[k].pcs[i] == Start && Stored(ss[k].chain, MigrateKey(froms[i])) > 0
    ensures Idle(ss[m], i) && ss[k].chain <= ss[m].chain
    ensures NoneBy(ss[m].chain, |ss[k].chain|, i)
  {
    assert IdleSince(ss[k], ss[k].chain, i);
    IdleUpTo(froms, ss, ts, k, m, ss[k].chain, i);
  }

  // --------------------------------------------------- the right position

  /** What the events that landed during a run must have been: nothing new
      between its two reads when it takes the head, and nothing old from its
      second read to its append. */
  predicate Undisturbed(c: Chain, spanAt: nat, readAt: nat, appendAt: nat)
    requires spanAt <= readAt <= appendAt <= |c|
  {
    (First(c[..spanAt]) == 0 ==> NoNew(c[spanAt..readAt])) && AllNew(c[readAt..appendAt])
  }

  /** The chain up to and with the attestation: the named position separates
      the versions exactly when the run was not disturbed. */
  lemma SeparatesIff(c: Chain, cutover: nat, a: nat, b: nat, n: nat)
    requires a <= b <= n < |c| && NamedBy(c, cutover, a, b) && IsNew(c[n])
    ensures Separates(c[..n + 1], cutover) <==> Undisturbed(c, a, b, n)
  {
    var f := First(c[..a]);
    var d := c[..n + 1];
    var front, gap, tail := c[..a], c[a..b], c[b..n];
    assert forall p :: 0 <= p < |tail| ==> tail[p] == d[b + p];
    assert forall p :: 0 <= p < |gap| ==> gap[p] == d[a + p];
    if f == 0 {
      if Undisturbed(c, a, b, n) {
        forall p | 0 <= p < |d|
          ensures IsNew(d[p]) <==> p + 1 >= cutover
        {
          if p < a {
            assert front[p] == d[p];
          } else if p < b {
            assert gap[p - a] == d[p];
          } else if p < n {
            assert tail[p - b] == d[p];
          }
        }
      }
    } else if Undisturbed(c, a, b, n) {
      var seen := c[..b][f - 1..];
      forall p | 0 <= p < |d|
        ensures IsNew(d[p]) <==> p + 1 >= cutover
      {
        if p < f - 1 {
          assert front[..f - 1][p] == d[p];
        } else if p < b {
          assert seen[p - (f - 1)] == d[p];
        } else if p < n {
          assert tail[p - b] == d[p];
        }
      }
    }
  }

  /** A fresh success, in any interleaving, names the position that separates
      the versions exactly when no event of the wrong version landed while it
      ran. */
  lemma FreshSuccessIff(froms: map<int, string>, ss: seq<State>, ts: seq<Step>, k: nat, i: int)
    requires Run(froms, ss, ts) && k <= |ts| && i in ss[k].pcs
    requires ss[k].pcs[i].Attested? && ss[k].pcs[i].added
    ensures var Attested(cutover, landed, _, a, b, n) := ss[k].pcs[i];
            && a <= b <= n < |ss[k].chain| && landed == n + 1 && cutover <= landed
            && (Separates(ss[k].chain[..landed], cutover) <==> Undisturbed(ss[k].chain, a, b, n))
  {
    RunKeeps(froms, ss, ts, k);
    assert Known(froms, ss[k], i);
    var Attested(cutover, landed, _, a, b, n) := ss[k].pcs[i];
    SeparatesIff(ss[k].chain, cutover, a, b, n);
  }

  /** The states of a run that reads an empty chain, meets another writer's event
      of the version it migrates from, and appends behind it. */
  function Disturbed(from: string, k: nat): State
  {
    var stale, mine := Event(from, "", 0, -1), Event(CURRENT, MigrateKey(from), 1, 0);
    if k == 0 then State([], map[0 := Start])
    else if k == 1 then State([], map[0 := Checked])
    else if k == 2 then State([], map[0 := Spanned(0, 0)])
    else if k == 3 then State([], map[0 := Cut(1, 0, 0)])
    else if k == 4 then State([stale], map[0 := Cut(1, 0, 0)])
    else State([stale, mine], map[0 := Attested(1, 2, true, 0, 0, 1)])
  }

  function DisturbedStep(from: string, k: nat): Step
  {
    if k == 0 then Check(0) else if k == 1 then Span(0) else if k == 2 then Read(0)
    else if k == 3 then Other(from, "") else Append(0)
  }

  lemma DisturbedNext(from: string, k: nat)
    requires from != CURRENT && k < 5
    ensures var s, t := Disturbed(from, k), DisturbedStep(from, k);
            Enabled(s, t) && Next(map[0 := from], s, t) == Disturbed(from, k + 1)
  {
    if k == 4 {
      DisturbedAppend(from);
    }
  }

  lemma DisturbedAppend(from: string)
    requires from != CURRENT
    ensures AppendStep(Disturbed(from, 4), 0, from) == Disturbed(from, 5)
  {
    var c := [Event(from, "", 0, -1)];
    assert |MigrateKey(from)| > 0 && c[..0] == [];
    assert Stored(c, MigrateKey(from)) == 0;
  }

  /** The input that shows it: a fresh success that names position 1, with an
      event of the other version there. */
  lemma DisturbedRun(from: string) returns (ss: seq<State>, ts: seq<Step>)
    requires from != CURRENT
    ensures Run(map[0 := from], ss, ts) && |ts| == 5 && Added(ss[5], 0)
    ensures ss[5].pcs[0].landed == |ss[5].chain| && !Separates(ss[5].chain, ss[5].pcs[0].cutover)
  {
    ss, ts := seq(6, (k: nat) => Disturbed(from, k)), seq(5, (k: nat) => DisturbedStep(from, k));
    forall k | 0 <= k < |ts|
      ensures Enabled(ss[k], ts[k]) && ss[k + 1] == Next(map[0 := from], ss[k], ts[k])
    {
      DisturbedNext(from, k);
    }
    assert !IsNew(ss[5].chain[0]);
  }

  // ------------------------------------------------- one command on its own

  const OK := 0
  const USAGE := 2
  const INCOMPLETE := 5

  /** Whether the versions interleave, so that no position separates them. */
  predicate Interleaved(c: Chain)
  {
    First(c) > 0 && Mixed(c, First(c))
  }

  lemma InterleavedIff(c: Chain)
    ensures Interleaved(c) <==> forall cutover :: !Separates(c, cutover)
  {
    var f := First(c);
    if f > 0 {
      var rest := c[f - 1..];
      if Interleaved(c) {
        var p :| 0 <= p < |rest| && !IsNew(rest[p]);
        assert rest[p] == c[f - 1 + p];
        forall cutover
          ensures !Separates(c, cutover)
        {
          assert IsNew(c[f - 1]) && !IsNew(c[f - 1 + p]);
        }
      } else {
        forall p | 0 <= p < |c|
          ensures IsNew(c[p]) <==> p + 1 >= f
        {
          if p >= f - 1 {
            assert rest[p - (f - 1)] == c[p];
          } else {
            assert c[..f - 1][p] == c[p];
          }
        }
        assert Separates(c, f);
      }
    } else {
      assert Separates(c, |c| + 1);
    }
  }

  /** migrate-schema with nobody else writing: it appends one attestation of
      the position that separates the versions, unless there is one already, or
      no position does. */
  method MigrateSchema(chain: Chain, from: string, run: int) returns (code: int, chain': Chain, cutover: nat)
    requires UniqueKeys(chain)
    ensures UniqueKeys(chain')
    ensures from == CURRENT ==> code == USAGE && chain' == chain
    ensures from != CURRENT && Stored(chain, MigrateKey(from)) > 0 ==> code == OK && chain' == chain
    ensures from != CURRENT && Stored(chain, MigrateKey(from)) == 0 && Interleaved(chain) ==>
              code == INCOMPLETE && chain' == chain
    ensures from != CURRENT && Stored(chain, MigrateKey(from)) == 0 && !Interleaved(chain) ==>
              code == OK && chain' == chain + [Event(CURRENT, MigrateKey(from), cutover, run)] &&
              Separates(chain', cutover)
    // Said without the command's own tests: the new version is "5", and the codes
    // are 0, 2 and 5.
    ensures code == 2 <==> from == "5"
    ensures chain' == chain || chain' == chain + [Event("5", "schema:migrated:" + from + "->" + "5", cutover, run)]
    ensures chain' != chain ==>
              code == 0 && forall p :: 0 <= p < |chain'| ==> (chain'[p].version == "5" <==> p + 1 >= cutover)
    ensures code == 5 <==> from != "5" && Stored(chain, MigrateKey(from)) == 0 && forall k :: !Separates(chain, k)
  {
    chain', cutover := chain, 0;
    InterleavedIff(chain);
    if from == CURRENT {
      return USAGE, chain', cutover;
    }
    var key := MigrateKey(from);
    if Stored(chain, key) > 0 {
      return OK, chain', cutover;
    }
    cutover := First(chain);
    if cutover > 0 && Mixed(chain, cutover) {
      return INCOMPLETE, chain', cutover;
    }
    if cutover == 0 {
      cutover := |chain| + 1;
    }
    UniqueSnoc(chain, Event(CURRENT, key, cutover, run));
    chain' := chain + [Event(CURRENT, key, cutover, run)];
    var n := |chain|;
    assert chain'[..n] == chain && chain'[..n + 1] == chain';
    SeparatesIff(chain', cutover, n, n, n);
    var landed := n + 1;
    if landed < cutover {
      return INCOMPLETE, chain', cutover;
    }
    return OK, chain', cutover;
  }
}
