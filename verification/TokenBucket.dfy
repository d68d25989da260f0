/**
 The token bucket per machine (backupLimiter in cmd/innsegl/coretrustbackup.go,
 used by cmd/innsegl/corecacustody.go). Tokens are scaled by the refill time,
 so one token is `refill` nanoseconds and every quantity is an exact integer.
 */
module TokenBucket {
  import opened Options

  datatype Limits = Limits(burst: nat, refill: nat)
  {
    function Full(): int { burst * refill }
  }

  const SECOND := 1_000_000_000
  const BACKUP := Limits(6, 600 * SECOND)
  const CUSTODY := Limits(10, 20 * SECOND)

  datatype Bucket = Bucket(level: int, at: int)

  function Min(a: int, b: int): int { if a < b then a else b }

  /** The level a call finds: full for a machine not seen before, otherwise
      what was left plus the time since, capped. */
  function Found(l: Limits, b: Option<Bucket>, now: int): int
  {
    if b.None? then l.Full() else Min(l.Full(), b.value.level + (now - b.value.at))
  }

  predicate Admits(l: Limits, b: Option<Bucket>, now: int)
  {
    Found(l, b, now) >= l.refill
  }

  function After(l: Limits, b: Option<Bucket>, now: int): Bucket
  {
    Bucket(Found(l, b, now) - if Admits(l, b, now) then l.refill else 0, now)
  }

  // ----------------------------------------------------- one machine's calls

  function State(l: Limits, ts: seq<int>): Option<Bucket>
  {
    if ts == [] then None else
    var n := |ts| - 1;
    Some(After(l, State(l, ts[..n]), ts[n]))
  }

  /** Whether the n-th call was admitted. */
  predicate Admitted(l: Limits, ts: seq<int>, n: nat)
    requires n < |ts|
  {
    Admits(l, State(l, ts[..n]), ts[n])
  }

  /** Admitted calls among the j-th to the one before the n-th. */
  function Count(l: Limits, ts: seq<int>, j: nat, n: nat): (c: nat)
    requires j <= n <= |ts|
    decreases n - j
  {
    if j == n then 0 else Count(l, ts, j, n - 1) + if Admitted(l, ts, n - 1) then 1 else 0
  }

  /** The sliding window: since every earlier call, and this one, the admitted
      calls and one more fit in the burst and the time gone by. */
  predicate WindowAdmits(l: Limits, ts: seq<int>, n: nat)
    requires n < |ts|
  {
    forall j :: 0 <= j <= n ==> (Count(l, ts, j, n) + 1) * l.refill <= l.Full() + (ts[n] - ts[j])
  }

  /** What the window from the j-th call leaves at the n-th. */
  function Room(l: Limits, ts: seq<int>, j: nat, n: nat): int
    requires j <= n < |ts|
  {
    l.Full() + (ts[n] - ts[j]) - Count(l, ts, j, n) * l.refill
  }

  lemma RoomStep(l: Limits, ts: seq<int>, j: nat, n: nat)
    requires j <= n && n + 1 < |ts|
    ensures Room(l, ts, j, n + 1) ==
            Room(l, ts, j, n) + (ts[n + 1] - ts[n]) - if Admitted(l, ts, n) then l.refill else 0
  {
    var c := Count(l, ts, j, n);
    assert (c + 1) * l.refill == c * l.refill + l.refill;
  }

  lemma FoundStep(l: Limits, ts: seq<int>, n: nat)
    requires n + 1 < |ts|
    ensures Found(l, State(l, ts[..n + 1]), ts[n + 1]) ==
            Min(l.Full(), Found(l, State(l, ts[..n]), ts[n]) - (if Admitted(l, ts, n) then l.refill else 0)
                          + (ts[n + 1] - ts[n]))
  {
    assert ts[..n + 1][..n] == ts[..n] && ts[..n + 1][n] == ts[n];
  }

  /** The bucket's level is the least room over all windows. */
  lemma {:induction false} LevelIsLeastRoom(l: Limits, ts: seq<int>, n: nat)
    requires n < |ts|
    ensures forall j :: 0 <= j <= n ==> Found(l, State(l, ts[..n]), ts[n]) <= Room(l, ts, j, n)
    ensures exists j :: 0 <= j <= n && Found(l, State(l, ts[..n]), ts[n]) == Room(l, ts, j, n)
  {
    if n == 0 {
      assert Found(l, State(l, ts[..0]), ts[0]) == Room(l, ts, 0, 0);
    } else {
      LevelIsLeastRoom(l, ts, n - 1);
      FoundStep(l, ts, n - 1);
      var step := (ts[n] - ts[n - 1]) - if Admitted(l, ts, n - 1) then l.refill else 0;
      forall j | 0 <= j <= n
        ensures j == n || Room(l, ts, j, n) == Room(l, ts, j, n - 1) + step
      {
        if j < n {
          RoomStep(l, ts, j, n - 1);
        }
      }
      assert Room(l, ts, n, n) == l.Full();
      var k :| 0 <= k <= n - 1 && Found(l, State(l, ts[..n - 1]), ts[n - 1]) == Room(l, ts, k, n - 1);
      if Found(l, State(l, ts[..n]), ts[n]) == l.Full() {
        assert Found(l, State(l, ts[..n]), ts[n]) == Room(l, ts, n, n);
      } else {
        assert Found(l, State(l, ts[..n]), ts[n]) == Room(l, ts, k, n);
      }
    }
  }

  /** The bucket is the sliding window, for any call times at all. */
  lemma BucketIsWindow(l: Limits, ts: seq<int>, n: nat)
    requires n < |ts|
    ensures Admitted(l, ts, n) <==> WindowAdmits(l, ts, n)
  {
    LevelIsLeastRoom(l, ts, n);
    forall j | 0 <= j <= n
      ensures (Count(l, ts, j, n) + 1) * l.refill <= l.Full() + (ts[n] - ts[j]) <==> Room(l, ts, j, n) >= l.refill
    {
      var c := Count(l, ts, j, n);
      assert (c + 1) * l.refill == c * l.refill + l.refill;
    }
  }

  // ------------------------------------------------------- all the machines

  datatype Call = Call(id: string, now: int)

  function Lookup(m: map<string, Bucket>, id: string): Option<Bucket>
  {
    if id in m then Some(m[id]) else None
  }

  function Buckets(l: Limits, calls: seq<Call>): map<string, Bucket>
  {
    if calls == [] then map[] else
    var n := |calls| - 1;
    var m := Buckets(l, calls[..n]);
    m[calls[n].id := After(l, Lookup(m, calls[n].id), calls[n].now)]
  }

  /** The times of one machine's calls. */
  function Times(calls: seq<Call>, id: string): seq<int>
  {
    if calls == [] then [] else
    var n := |calls| - 1;
    Times(calls[..n], id) + if calls[n].id == id then [calls[n].now] else []
  }

  /** A machine's bucket is what its own calls alone would have made it. */
  lemma {:induction false} Independent(l: Limits, calls: seq<Call>, id: string)
    ensures Lookup(Buckets(l, calls), id) == State(l, Times(calls, id))
  {
    if calls != [] {
      var n := |calls| - 1;
      Independent(l, calls[..n], id);
      var ts := Times(calls[..n], id);
      assert (ts + [calls[n].now])[..|ts|] == ts;
      assert ts + [] == ts;
    }
  }

  lemma TimesSnoc(calls: seq<Call>, id: string, now: int)
    ensures Times(calls + [Call(id, now)], id) == Times(calls, id) + [now]
  {
    assert (calls + [Call(id, now)])[..|calls|] == calls;
  }

  lemma BucketsSnoc(l: Limits, calls: seq<Call>, id: string, now: int)
    ensures Buckets(l, calls + [Call(id, now)]) ==
            Buckets(l, calls)[id := After(l, Lookup(Buckets(l, calls), id), now)]
  {
    assert (calls + [Call(id, now)])[..|calls|] == calls;
  }

  /** A token is found for a machine's next call exactly when the window over its
      own calls admits it. */
  lemma FoundIsWindow(l: Limits, calls: seq<Call>, id: string, now: int)
    ensures Found(l, Lookup(Buckets(l, calls), id), now) >= l.refill <==>
            WindowAdmits(l, Times(calls, id) + [now], |Times(calls, id)|)
  {
    var ts := Times(calls, id) + [now];
    var n := |Times(calls, id)|;
    Independent(l, calls, id);
    assert ts[..n] == Times(calls, id) && ts[n] == now;
    BucketIsWindow(l, ts, n);
  }

  class BackupLimiter {
    const limits: Limits
    var buckets: map<string, Bucket>
    /** Every call so far. */
    ghost var history: seq<Call>

    ghost predicate Valid()
      reads this
    {
      buckets == Buckets(limits, history)
    }

    constructor (limits: Limits)
      ensures Valid() && this.limits == limits && history == []
    {
      this.limits, buckets, history := limits, map[], [];
    }

    /** newBackupLimiter: six at once, then one every ten minutes. */
    constructor Backup()
      ensures Valid() && limits.burst == 6 && limits.refill == 600_000_000_000 && history == []
    {
      limits, buckets, history := BACKUP, map[], [];
    }

    /** newCustodyLimiter: ten at once, then one every twenty seconds. */
    constructor Custody()
      ensures Valid() && limits.burst == 10 && limits.refill == 20_000_000_000 && history == []
    {
      limits, buckets, history := CUSTODY, map[], [];
    }

    /** allow: spend a token for `id`, or answer how long until one is back.
        The answer is the sliding window's over that machine's own calls. */
    method Allow(id: string, now: int) returns (wait: int, ok: bool)
      requires Valid()
      modifies this`buckets, this`history
      ensures Valid() && history == old(history) + [Call(id, now)]
      ensures var ts := Times(history, id);
              |ts| > 0 && ts[|ts| - 1] == now && (ok <==> WindowAdmits(limits, ts, |ts| - 1))
      ensures ok ==> wait == 0
      ensures !ok ==> wait == limits.refill - buckets[id].level > 0 && buckets[id].at == now
      ensures forall other :: other != id ==> Lookup(buckets, other) == Lookup(old(buckets), other)
    {
      ghost var before := Lookup(buckets, id);
      TimesSnoc(history, id, now);
      BucketsSnoc(limits, history, id, now);
      FoundIsWindow(limits, history, id, now);
      if id !in buckets {
        buckets := buckets[id := Bucket(limits.Full(), now)];
      }
      var b := buckets[id];
      var level := Min(limits.Full(), b.level + (now - b.at));
      assert level == Found(limits, before, now);
      history := history + [Call(id, now)];
      if level < limits.refill {
        buckets := buckets[id := Bucket(level, now)];
        return limits.refill - level, false;
      }
      buckets := buckets[id := Bucket(level - limits.refill, now)];
      return 0, true;
    }
  }

  // ----------------------------------------------------------- the wait

  /** A machine's bucket after calls at `ts`, all of them refused. */
  ghost predicate AllRefused(l: Limits, b: Bucket, ts: seq<int>)
    decreases |ts|
  {
    ts == [] || (!Admits(l, Some(b), ts[0]) && AllRefused(l, After(l, Some(b), ts[0]), ts[1..]))
  }

  function Later(l: Limits, b: Bucket, ts: seq<int>): Bucket
    decreases |ts|
  {
    if ts == [] then b else Later(l, After(l, Some(b), ts[0]), ts[1..])
  }

  predicate NonDecreasing(from: int, ts: seq<int>)
  {
    (forall i :: 0 <= i < |ts| ==> from <= ts[i]) && forall i, j :: 0 <= i < j < |ts| ==> ts[i] <= ts[j]
  }

  lemma FullHoldsOne(l: Limits)
    requires l.burst >= 1
    ensures l.Full() >= l.refill
  {
    assert l.burst * l.refill == (l.burst - 1) * l.refill + l.refill;
    assert (l.burst - 1) * l.refill >= 0;
  }

  /** A call refused before the wait is over leaves the end of the wait where it
      was. */
  lemma RefusalKeepsTime(l: Limits, b: Bucket, now: int)
    requires l.Full() >= l.refill && b.at <= now < b.at + (l.refill - b.level)
    ensures !Admits(l, Some(b), now)
    ensures After(l, Some(b), now) == Bucket(b.level + (now - b.at), now)
  {
  }

  lemma NonDecreasingTail(from: int, ts: seq<int>)
    requires ts != [] && NonDecreasing(from, ts)
    ensures from <= ts[0] && NonDecreasing(ts[0], ts[1..])
  {
  }

  /** After a refusal at b.at, every call before b.at + wait is refused, however
      many there are, and the first one at or after it is admitted. */
  lemma {:induction false} WaitIsExact(l: Limits, b: Bucket, ts: seq<int>, t: int)
    requires l.burst >= 1 && b.level < l.refill
    requires NonDecreasing(b.at, ts) && forall i :: 0 <= i < |ts| ==> ts[i] < b.at + (l.refill - b.level)
    ensures AllRefused(l, b, ts)
    ensures t >= b.at + (l.refill - b.level) ==> Admits(l, Some(Later(l, b, ts)), t)
    ensures (forall i :: 0 <= i < |ts| ==> ts[i] <= t) && b.at <= t < b.at + (l.refill - b.level) ==>
              !Admits(l, Some(Later(l, b, ts)), t)
    decreases |ts|
  {
    FullHoldsOne(l);
    if ts == [] {
      assert Later(l, b, ts) == b;
    } else {
      var b' := After(l, Some(b), ts[0]);
      NonDecreasingTail(b.at, ts);
      RefusalKeepsTime(l, b, ts[0]);
      assert forall i :: 0 <= i < |ts[1..]| ==> ts[1..][i] == ts[i + 1];
      WaitIsExact(l, b', ts[1..], t);
    }
  }

  /** Retry-After: the wait in whole seconds, rounded up. */
  function RetryAfter(wait: int): int
  {
    (wait + SECOND - 1) / SECOND
  }

  /** The header never sends a machine back too early, and never asks for a
      second more than the wait needs. */
  lemma RetryAfterSuffices(l: Limits, b: Bucket, ts: seq<int>)
    requires l.burst >= 1 && b.level < l.refill
    requires NonDecreasing(b.at, ts) && forall i :: 0 <= i < |ts| ==> ts[i] < b.at + (l.refill - b.level)
    ensures Admits(l, Some(Later(l, b, ts)), b.at + RetryAfter(l.refill - b.level) * 1_000_000_000)
    ensures (RetryAfter(l.refill - b.level) - 1) * 1_000_000_000 < l.refill - b.level
  {
    var wait := l.refill - b.level;
    assert RetryAfter(wait) * SECOND >= wait;
    WaitIsExact(l, b, ts, b.at + RetryAfter(wait) * SECOND);
  }

  // ------------------------------------------------- who reaches the bucket

  datatype Membership = Membership(account: string, operator: bool, role: string)
  datatype Installation = Installation(active: bool, workstation: bool, account: string)

  /** What the store answers for the machine's id. */
  datatype Stored = Absent | Broken | Stored(inst: Installation, memberships: Option<seq<Membership>>)

  predicate Entitles(inst: Installation, m: Membership)
  {
    m.account == inst.account && m.operator && (m.role == "owner" || m.role == "admin")
  }

  /** An active workstation whose enroller is still an owner or an admin. */
  predicate Entitled(s: Stored)
  {
    && s.Stored? && s.inst.active && s.inst.workstation && s.memberships.Some?
    && exists i :: 0 <= i < |s.memberships.value| && Entitles(s.inst, s.memberships.value[i])
  }

  /** mayFetchTrustBackup; None is a store that could not be read. */
  method MayFetch(s: Stored) returns (r: Option<bool>)
    requires s.Stored?
    ensures r == Some(true) <==> Entitled(s)
    ensures r == Some(true) <==>
              && s.inst.active && s.inst.workstation && s.memberships.Some?
              && exists m :: m in s.memberships.value && m.account == s.inst.account && m.operator &&
                             m.role in {"owner", "admin"}
    ensures r.None? <==> s.inst.active && s.inst.workstation && s.memberships.None?
  {
    if !s.inst.active || !s.inst.workstation {
      return Some(false);
    }
    if s.memberships.None? {
      return None;
    }
    var ms := s.memberships.value;
    for k := 0 to |ms|
      invariant forall i :: 0 <= i < k ==> !Entitles(s.inst, ms[i])
    {
      if Entitles(s.inst, ms[k]) {
        assert ms[k] in ms;
        return Some(true);
      }
    }
    assert forall m :: m in ms ==> !Entitles(s.inst, m);
    return Some(false);
  }

  datatype Answer = ClientRefusal | Unavailable | Forbidden | TooMany(retryAfter: int) | Served

  /** admitOperatorMachine: only an entitled machine spends a token, and one
      sent away is let in after the time it was told. */
  method AdmitOperatorMachine(limit: BackupLimiter, id: Option<string>, stored: Stored, now: int) returns (a: Answer)
    requires limit.Valid()
    modifies limit`buckets, limit`history
    ensures limit.Valid()
    ensures a.Served? || a.TooMany? <==> id.Some? && Entitled(stored)
    ensures a.ClientRefusal? <==> id.None? || stored.Absent?
    ensures a.Unavailable? <==>
              id.Some? && (stored.Broken? ||
                (stored.Stored? && stored.inst.active && stored.inst.workstation && stored.memberships.None?))
    ensures !a.Served? && !a.TooMany? ==> limit.buckets == old(limit.buckets) && limit.history == old(limit.history)
    ensures a.Served? || a.TooMany? ==>
              var ts := Times(limit.history, id.value);
              limit.history == old(limit.history) + [Call(id.value, now)] && |ts| > 0 &&
              (a.Served? <==> WindowAdmits(limit.limits, ts, |ts| - 1))
    ensures a.TooMany? && limit.limits.burst >= 1 ==>
              Admits(limit.limits, Lookup(limit.buckets, id.value), now + a.retryAfter * 1_000_000_000)
  {
    if id.None? {
      return ClientRefusal;
    }
    match stored
    case Absent => return ClientRefusal;
    case Broken => return Unavailable;
    case Stored(_, _) =>
      var allowed := MayFetch(stored);
      if allowed.None? {
        return Unavailable;
      }
      if !allowed.value {
        return Forbidden;
      }
      var wait, ok := limit.Allow(id.value, now);
      if !ok {
        if limit.limits.burst >= 1 {
          RetryAfterSuffices(limit.limits, limit.buckets[id.value], []);
        }
        return TooMany(RetryAfter(wait));
      }
      return Served;
  }
}
