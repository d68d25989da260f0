/** The wait after an up: which services a zero result vouches for, and when the
    wait ends.

    What docker reports and what the clock reads are inputs.  A round is one pass
    over the pending services.  Each service is looked at once in a round. */
module ComposeWait {
  import opened Options
  import opened Text

  datatype Service = Service(name: string)

  /** The status and health strings the wait tells apart. */
  datatype Status = Exited | Dead | Running | OtherStatus
  datatype Health = NoCheck | IsHealthy | IsUnhealthy | OtherHealth

  /** One look at a service's container.  `Gone` is a first inspect that fails,
      `Lost` a second one that fails. */
  datatype Look =
    | Gone
    | Lost
    | Seen(status: Status, exit: int, health: Health, restarting: bool, restarts: int)

  /** What each round meets.  `first` and `second` are the clock readings taken
      for a service, `check` the one the deadline is compared with. */
  datatype World = World(
    look: (nat, Service) -> Look,
    first: (nat, Service) -> real,
    second: (nat, Service) -> real,
    check: nat -> real)

  const WAIT_POLL: real := 1.0
  const STEADY_SECONDS: real := 5.0
  const CRASH_RESTARTS: int := 2

  /** The clock does not go back, and the sleep between rounds is a full poll. */
  ghost predicate Ticks(w: World, start: real)
  {
    && (forall svc :: start <= w.first(0, svc))
    && (forall r, svc :: w.first(r, svc) <= w.second(r, svc) <= w.check(r))
    && (forall r, svc :: r > 0 ==> w.check(r - 1) + WAIT_POLL <= w.first(r, svc))
  }

  // ------------------------------------------------- one service in one round

  datatype Stamp = Stamp(at: real, restarts: int)

  /** Running, with no health check, and not between two runs. */
  predicate Calm(l: Look)
  {
    l.Seen? && l.health.NoCheck? && l.status.Running? && !l.restarting
  }

  /** What `steady` holds for a service before a round. */
  function Since(w: World, svc: Service, r: nat): Option<Stamp>
  {
    if r == 0 then None
    else
      var l := w.look(r - 1, svc);
      if !Calm(l) then None
      else
        var held := Since(w, svc, r - 1);
        if held.None? then Some(Stamp(w.first(r - 1, svc), l.restarts))
        else if held.value.restarts != l.restarts then Some(Stamp(w.second(r - 1, svc), l.restarts))
        else held
  }

  datatype Outcome = Vanished | Finished | Stopped | Unhealthy | Healthy | Steady | Waiting

  predicate OnFailure(policy: string)
  {
    "on-failure" <= policy
  }

  /** How many restarts a look counts since the first one. */
  function Restarted(w: World, svc: Service, l: Look): int
    requires l.Seen?
  {
    if w.look(0, svc).Seen? then l.restarts - w.look(0, svc).restarts else 0
  }

  function Judge(w: World, policy: Service -> string, svc: Service, r: nat): Outcome
  {
    var l := w.look(r, svc);
    if !l.Seen? then Vanished
    else if l.status.Exited? && l.exit == 0 && OnFailure(policy(svc)) then Finished
    else if l.status.Exited? || l.status.Dead? || Restarted(w, svc, l) >= CRASH_RESTARTS then Stopped
    else if l.health.IsUnhealthy? then Unhealthy
    else if l.health.IsHealthy? then Healthy
    else if !Calm(l) then Waiting
    else
      var now := Since(w, svc, r + 1).value;
      if w.second(r, svc) - now.at >= STEADY_SECONDS then Steady else Waiting
  }

  predicate Settles(w: World, policy: Service -> string, svc: Service, r: nat)
  {
    var o := Judge(w, policy, svc, r);
    o.Finished? || o.Healthy? || o.Steady?
  }

  predicate Fails(w: World, policy: Service -> string, svc: Service, r: nat)
  {
    var o := Judge(w, policy, svc, r);
    o.Vanished? || o.Stopped? || o.Unhealthy?
  }

  /** Exited with code 0 under an on-failure policy. */
  predicate FinishedClean(l: Look, policy: string)
  {
    l.Seen? && l.status == Exited && l.exit == 0 && "on-failure" <= policy
  }

  /** What a look says against a service: its container is gone; or it did not
      finish cleanly and is dead or exited, has restarted twice since the first
      look, or is unhealthy. */
  predicate Against(w: World, policy: Service -> string, svc: Service, r: nat)
  {
    var l, l0 := w.look(r, svc), w.look(0, svc);
    || !l.Seen?
    || (!FinishedClean(l, policy(svc)) &&
        (l.status == Exited || l.status == Dead || l.health == IsUnhealthy ||
         (l0.Seen? && l.restarts >= l0.restarts + 2)))
  }

  /** A service fails a round exactly when its look there says so. */
  lemma FailsIff(w: World, policy: Service -> string, svc: Service, r: nat)
    ensures Fails(w, policy, svc, r) <==> Against(w, policy, svc, r)
  {
  }

  // ------------------------------------------------------ what steady stands for

  /** Rounds `from..upto`, both included, all saw the service calm with one
      restart count. */
  predicate Unbroken(w: World, svc: Service, from: nat, upto: nat)
    requires from <= upto
  {
    Calm(w.look(upto, svc))
    && forall k :: from <= k <= upto ==> Calm(w.look(k, svc)) && w.look(k, svc).restarts == w.look(upto, svc).restarts
  }

  /** The unbroken rounds up to `upto` begin at `from` and no earlier. */
  predicate Begins(w: World, svc: Service, from: nat, upto: nat)
    requires from <= upto
  {
    Unbroken(w, svc, from, upto) && (from > 0 ==> !Unbroken(w, svc, from - 1, upto))
  }

  /** The clock reading an unbroken run of rounds is timed from: after a restart
      the later of the round's two. */
  function TimedFrom(w: World, svc: Service, from: nat): real
  {
    if from > 0 && Calm(w.look(from - 1, svc)) then w.second(from, svc) else w.first(from, svc)
  }

  lemma UnbrokenShorter(w: World, svc: Service, from: nat, upto: nat)
    requires from < upto && Unbroken(w, svc, from, upto)
    ensures Unbroken(w, svc, from, upto - 1)
  {
    assert w.look(upto - 1, svc).restarts == w.look(upto, svc).restarts;
  }

  lemma UnbrokenLonger(w: World, svc: Service, from: nat, upto: nat)
    requires from < upto && Unbroken(w, svc, from, upto - 1) && Calm(w.look(upto, svc))
    requires w.look(upto - 1, svc).restarts == w.look(upto, svc).restarts
    ensures Unbroken(w, svc, from, upto)
  {
  }

  /** The stamp after a calm round is the start of the unbroken rounds. */
  lemma {:induction false} SinceBegins(w: World, svc: Service, r: nat) returns (from: nat)
    requires Calm(w.look(r, svc))
    ensures from <= r && Begins(w, svc, from, r)
    ensures Since(w, svc, r + 1) == Some(Stamp(TimedFrom(w, svc, from), w.look(r, svc).restarts))
  {
    if r == 0 || !Calm(w.look(r - 1, svc)) {
      from := r;
      assert Since(w, svc, r).None?;
      assert from > 0 ==> !Unbroken(w, svc, from - 1, r);
    } else {
      from := SinceBegins(w, svc, r - 1);
      if w.look(r - 1, svc).restarts == w.look(r, svc).restarts {
        UnbrokenLonger(w, svc, from, r);
        if from > 0 && Unbroken(w, svc, from - 1, r) {
          UnbrokenShorter(w, svc, from - 1, r);
        }
      } else {
        from := r;
        assert !Unbroken(w, svc, from - 1, r);
      }
    }
  }

  lemma BeginsOnce(w: World, svc: Service, a: nat, b: nat, upto: nat)
    requires a <= upto && b <= upto && Begins(w, svc, a, upto) && Begins(w, svc, b, upto)
    ensures a == b
  {
    assert a < b ==> Unbroken(w, svc, b - 1, upto);
    assert b < a ==> Unbroken(w, svc, a - 1, upto);
  }

  /** A running service without a health check, with nothing against it, is taken
      as up exactly when it was seen so, with one restart count, over unbroken
      rounds that span five seconds. */
  lemma SteadyIff(w: World, policy: Service -> string, svc: Service, r: nat)
    requires w.look(r, svc).Seen? && w.look(r, svc).health == NoCheck && w.look(r, svc).status == Running
    requires !w.look(r, svc).restarting && !Against(w, policy, svc, r)
    ensures Settles(w, policy, svc, r) <==>
            exists from: nat :: from <= r && Begins(w, svc, from, r)
              && w.second(r, svc) - TimedFrom(w, svc, from) >= 5.0
  {
    var from := SinceBegins(w, svc, r);
    forall other: nat | other <= r && Begins(w, svc, other, r)
      ensures other == from
    {
      BeginsOnce(w, svc, from, other, r);
    }
  }

  /** Seen running without a health check, in every one of the rounds, with one
      restart count. */
  ghost predicate RanThrough(w: World, svc: Service, from: nat, upto: nat)
  {
    forall k: nat :: from <= k <= upto ==>
      w.look(k, svc).Seen? && w.look(k, svc).status == Running && w.look(k, svc).health == NoCheck &&
      !w.look(k, svc).restarting && w.look(upto, svc).Seen? && w.look(k, svc).restarts == w.look(upto, svc).restarts
  }

  /** Healthy, or finished under an on-failure policy, or running without a
      health check over unbroken rounds that span five seconds. */
  ghost predicate WasUp(w: World, policy: Service -> string, svc: Service, r: nat)
  {
    var l := w.look(r, svc);
    && l.Seen?
    && (|| l.health == IsHealthy
        || FinishedClean(l, policy(svc))
        || exists from: nat :: from <= r && RanThrough(w, svc, from, r)
             && w.second(r, svc) - w.first(from, svc) >= 5.0)
  }

  /** A service settles a round exactly when it finished cleanly, or nothing is
      against it and it is healthy, or is steady. */
  lemma SettlesIff(w: World, policy: Service -> string, svc: Service, r: nat)
    ensures var l := w.look(r, svc);
            Settles(w, policy, svc, r) <==>
            || FinishedClean(l, policy(svc))
            || (!Against(w, policy, svc, r) &&
                (l.health == IsHealthy ||
                 (l.health == NoCheck && l.status == Running && !l.restarting &&
                  exists from: nat :: from <= r && Begins(w, svc, from, r)
                    && w.second(r, svc) - TimedFrom(w, svc, from) >= 5.0)))
  {
    var l := w.look(r, svc);
    if l.Seen? && l.health == NoCheck && l.status == Running && !l.restarting && !Against(w, policy, svc, r) {
      SteadyIff(w, policy, svc, r);
    }
  }

  lemma SettledWasUp(w: World, policy: Service -> string, svc: Service, r: nat, start: real)
    requires Ticks(w, start) && Settles(w, policy, svc, r)
    ensures WasUp(w, policy, svc, r)
  {
    if Judge(w, policy, svc, r).Steady? {
      var from := SinceBegins(w, svc, r);
      assert w.first(from, svc) <= w.second(from, svc);
      assert RanThrough(w, svc, from, r);
    }
  }

  // ------------------------------------------------------------- whole rounds

  /** Still pending before round `r`. */
  predicate Unsettled(w: World, policy: Service -> string, svc: Service, r: nat)
  {
    forall k: nat :: k < r ==> !Settles(w, policy, svc, k)
  }

  predicate FailsPending(w: World, policy: Service -> string, svc: Service, r: nat)
  {
    Unsettled(w, policy, svc, r) && Fails(w, policy, svc, r)
  }

  predicate NoneFails(w: World, policy: Service -> string, awaited: seq<Service>, r: nat)
  {
    forall i :: 0 <= i < |awaited| ==> !FailsPending(w, policy, awaited[i], r)
  }

  predicate NonePending(w: World, policy: Service -> string, awaited: seq<Service>, r: nat)
  {
    forall i :: 0 <= i < |awaited| ==> !Unsettled(w, policy, awaited[i], r)
  }

  /** A round after which the wait goes on. */
  predicate Passes(w: World, policy: Service -> string, awaited: seq<Service>, deadline: real, r: nat)
  {
    NoneFails(w, policy, awaited, r) && !NonePending(w, policy, awaited, r + 1) && w.check(r) < deadline
  }

  predicate AllPass(w: World, policy: Service -> string, awaited: seq<Service>, deadline: real, r: nat)
  {
    forall k: nat :: k < r ==> Passes(w, policy, awaited, deadline, k)
  }

  datatype Verdict = AllUp | Failed(svc: Service) | TimedOut(svc: Service)

  /** The first awaited service, in order, that fails in a round while pending. */
  predicate FirstFailing(w: World, policy: Service -> string, awaited: seq<Service>, r: nat, svc: Service)
  {
    exists i :: 0 <= i < |awaited| && awaited[i] == svc && FailsPending(w, policy, awaited[i], r)
      && NoneFails(w, policy, awaited[..i], r)
  }

  /** The first awaited service, in order, still pending before a round. */
  predicate FirstPending(w: World, policy: Service -> string, awaited: seq<Service>, r: nat, svc: Service)
  {
    exists i :: 0 <= i < |awaited| && awaited[i] == svc && Unsettled(w, policy, awaited[i], r)
      && NonePending(w, policy, awaited[..i], r)
  }

  /** The wait ends in round `last` with this verdict: the first pending service
      that fails, or none left, or time run out. */
  predicate Ends(w: World, policy: Service -> string, awaited: seq<Service>, deadline: real, last: nat, v: Verdict)
  {
    && AllPass(w, policy, awaited, deadline, last)
    && match v
       case Failed(svc) => FirstFailing(w, policy, awaited, last, svc)
       case AllUp => NoneFails(w, policy, awaited, last) && NonePending(w, policy, awaited, last + 1)
       case TimedOut(svc) =>
         NoneFails(w, policy, awaited, last) && FirstPending(w, policy, awaited, last + 1, svc)
         && w.check(last) >= deadline
  }

  ghost predicate EndsWith(w: World, policy: Service -> string, awaited: seq<Service>, deadline: real, v: Verdict)
  {
    exists last: nat :: Ends(w, policy, awaited, deadline, last, v)
  }

  // ----------------------------------------------------------- when it returns 0

  ghost predicate ComesUpAt(w: World, policy: Service -> string, deadline: real, svc: Service, r: nat)
  {
    Settles(w, policy, svc, r) && (forall k: nat :: k <= r ==> !Fails(w, policy, svc, k))
    && (r > 0 ==> w.check(r - 1) < deadline)
  }

  /** A service settles, without failing first, in a round begun before the
      deadline. */
  ghost predicate ComesUp(w: World, policy: Service -> string, deadline: real, svc: Service)
  {
    exists r: nat :: ComesUpAt(w, policy, deadline, svc, r)
  }

  ghost predicate AllComeUp(w: World, policy: Service -> string, awaited: seq<Service>, deadline: real)
  {
    forall i :: 0 <= i < |awaited| ==> ComesUp(w, policy, deadline, awaited[i])
  }

  lemma CheckStep(w: World, start: real, r: nat)
    requires Ticks(w, start)
    ensures w.check(r) + WAIT_POLL <= w.check(r + 1)
  {
    var any := Service("");
    assert w.first(r + 1, any) <= w.second(r + 1, any) <= w.check(r + 1);
  }

  lemma {:induction false} ChecksRise(w: World, start: real, a: nat, b: nat)
    requires Ticks(w, start) && a <= b
    ensures w.check(a) <= w.check(b)
  {
    if a < b {
      ChecksRise(w, start, a, b - 1);
      CheckStep(w, start, b - 1);
    }
  }

  lemma {:induction false} CheckAfterStart(w: World, start: real, r: nat)
    requires Ticks(w, start)
    ensures start + r as real <= w.check(r)
  {
    if r == 0 {
      var any := Service("");
      assert w.first(0, any) <= w.second(0, any) <= w.check(0);
    } else {
      CheckAfterStart(w, start, r - 1);
      CheckStep(w, start, r - 1);
      assert r as real == (r - 1) as real + 1.0;
    }
  }

  lemma {:induction false} FirstSettled(w: World, policy: Service -> string, svc: Service, last: nat) returns (r: nat)
    requires exists k: nat :: k <= last && Settles(w, policy, svc, k)
    ensures r <= last && Settles(w, policy, svc, r) && forall k: nat :: k < r ==> !Settles(w, policy, svc, k)
  {
    if last > 0 && exists k: nat :: k <= last - 1 && Settles(w, policy, svc, k) {
      r := FirstSettled(w, policy, svc, last - 1);
    } else {
      r := last;
    }
  }

  lemma UpThenEach(w: World, policy: Service -> string, awaited: seq<Service>, deadline: real, last: nat, i: nat)
    requires Ends(w, policy, awaited, deadline, last, AllUp) && i < |awaited|
    ensures ComesUp(w, policy, deadline, awaited[i])
  {
    var svc := awaited[i];
    assert !Unsettled(w, policy, svc, last + 1);
    var r := FirstSettled(w, policy, svc, last);
    forall k: nat | k <= r
      ensures !Fails(w, policy, svc, k)
    {
      assert Unsettled(w, policy, svc, k);
      assert k < last ==> Passes(w, policy, awaited, deadline, k);
      assert !FailsPending(w, policy, awaited[i], k);
    }
    assert r > 0 ==> Passes(w, policy, awaited, deadline, r - 1);
    assert ComesUpAt(w, policy, deadline, svc, r);
  }

  /** A service that comes up is neither the one that fails nor one left when
      time runs out. */
  lemma NotTheOneNamed(w: World, policy: Service -> string, awaited: seq<Service>, start: real, deadline: real,
                       last: nat, svc: Service)
    requires Ticks(w, start) && ComesUp(w, policy, deadline, svc)
    ensures !Ends(w, policy, awaited, deadline, last, Failed(svc))
    ensures !Ends(w, policy, awaited, deadline, last, TimedOut(svc))
  {
    var r: nat :| ComesUpAt(w, policy, deadline, svc, r);
    assert r < last ==> !Unsettled(w, policy, svc, last);
    assert r < last + 1 ==> !Unsettled(w, policy, svc, last + 1);
    if r > last {
      ChecksRise(w, start, last, r - 1);
    }
  }

  /** The wait answers 0 exactly when every awaited service comes up.  Which
      other services are waited for, and in what order, does not matter. */
  lemma AllUpIff(w: World, policy: Service -> string, awaited: seq<Service>, start: real, deadline: real,
                 last: nat, v: Verdict)
    requires Ticks(w, start) && Ends(w, policy, awaited, deadline, last, v)
    ensures v.AllUp? <==> AllComeUp(w, policy, awaited, deadline)
  {
    if v.AllUp? {
      forall i | 0 <= i < |awaited|
        ensures ComesUp(w, policy, deadline, awaited[i])
      {
        UpThenEach(w, policy, awaited, deadline, last, i);
      }
    } else {
      assert v.svc in awaited;
      if ComesUp(w, policy, deadline, v.svc) {
        NotTheOneNamed(w, policy, awaited, start, deadline, last, v.svc);
      }
    }
  }

  /** The service was seen up in a round begun before the deadline, and in no round
      up to it did a look say anything against it. */
  ghost predicate Vouched(w: World, policy: Service -> string, deadline: real, svc: Service)
  {
    exists r: nat :: WasUp(w, policy, svc, r) && (forall k: nat :: k <= r ==> !Against(w, policy, svc, k)) &&
                     (r > 0 ==> w.check(r - 1) < deadline)
  }

  /** A 0 vouches for each awaited service: it was seen up in some round, after
      rounds in none of which it had failed. */
  lemma ZeroVouches(w: World, policy: Service -> string, awaited: seq<Service>, start: real, deadline: real,
                    last: nat, svc: Service)
    requires Ticks(w, start) && Ends(w, policy, awaited, deadline, last, AllUp) && svc in awaited
    ensures Vouched(w, policy, deadline, svc)
  {
    var i :| 0 <= i < |awaited| && awaited[i] == svc;
    UpThenEach(w, policy, awaited, deadline, last, i);
    var r: nat :| ComesUpAt(w, policy, deadline, svc, r);
    SettledWasUp(w, policy, svc, r, start);
    forall k: nat | k <= r
      ensures !Against(w, policy, svc, k)
    {
      FailsIff(w, policy, svc, k);
    }
  }

  /** Every 0, in every world, finds all the awaited services up in the round it
      was given in. */
  ghost predicate ZeroMeansTogether(awaited: seq<Service>)
  {
    forall w: World, policy: Service -> string, start: real, deadline: real, last: nat ::
      Ticks(w, start) && Ends(w, policy, awaited, deadline, last, AllUp) ==>
        forall i :: 0 <= i < |awaited| ==> Settles(w, policy, awaited[i], last)
  }

  /** The service `a` is healthy in the first round and gone after it; every
      other one starts in the first round and is healthy after it. */
  function Leaving(a: Service): World
  {
    var up, starting := Seen(Running, 0, IsHealthy, false, 0), Seen(Running, 0, OtherHealth, false, 0);
    World((r: nat, svc: Service) =>
            if svc == a then (if r == 0 then up else Gone) else if r == 0 then starting else up,
          (r: nat, svc: Service) => r as real, (r: nat, svc: Service) => r as real, (r: nat) => r as real)
  }

  lemma LeavingRounds(a: Service, policy: Service -> string, svc: Service)
    ensures Ticks(Leaving(a), 0.0)
    ensures Judge(Leaving(a), policy, svc, 0) == if svc == a then Healthy else Waiting
    ensures Judge(Leaving(a), policy, svc, 1) == if svc == a then Vanished else Healthy
  {
  }

  /** So a 0 does not vouch for all services at once: one that was healthy is not
      looked at again, and may be gone when the wait answers 0. */
  lemma NotAllAtOnce(awaited: seq<Service>, policy: Service -> string) returns (w: World)
    requires Distinct(awaited) && |awaited| >= 2
    ensures Ticks(w, 0.0) && Ends(w, policy, awaited, 600.0, 1, AllUp)
    ensures Judge(w, policy, awaited[0], 1) == Vanished
  {
    var a := awaited[0];
    w := Leaving(a);
    forall i | 0 <= i < |awaited|
      ensures Settles(w, policy, awaited[i], if i == 0 then 0 else 1)
      ensures !Fails(w, policy, awaited[i], 0) && (i > 0 ==> !Settles(w, policy, awaited[i], 0))
      ensures i > 0 ==> !Fails(w, policy, awaited[i], 1)
    {
      LeavingRounds(a, policy, awaited[i]);
    }
    LeavingRounds(a, policy, a);
    LeavingPasses(w, policy, awaited);
  }

  lemma LeavingPasses(w: World, policy: Service -> string, awaited: seq<Service>)
    requires |awaited| >= 2 && w.check(0) < 600.0
    requires forall i :: 0 <= i < |awaited| ==> Settles(w, policy, awaited[i], if i == 0 then 0 else 1)
    requires forall i :: 0 <= i < |awaited| ==>
               !Fails(w, policy, awaited[i], 0) && (i > 0 ==> !Settles(w, policy, awaited[i], 0))
    requires forall i :: 0 < i < |awaited| ==> !Fails(w, policy, awaited[i], 1)
    ensures Ends(w, policy, awaited, 600.0, 1, AllUp)
  {
    assert Unsettled(w, policy, awaited[1], 1);
    assert Passes(w, policy, awaited, 600.0, 0);
    forall i | 0 <= i < |awaited|
      ensures !FailsPending(w, policy, awaited[i], 1) && !Unsettled(w, policy, awaited[i], 2)
    {
      assert i == 0 ==> !Unsettled(w, policy, awaited[0], 1);
    }
  }

  /** The last service left settles in the last round. */
  lemma LastSettles(w: World, policy: Service -> string, awaited: seq<Service>, deadline: real, last: nat)
    requires |awaited| == 1 && Ends(w, policy, awaited, deadline, last, AllUp)
    ensures Settles(w, policy, awaited[0], last)
  {
    assert last > 0 ==> Passes(w, policy, awaited, deadline, last - 1);
    assert Unsettled(w, policy, awaited[0], last);
    assert !Unsettled(w, policy, awaited[0], last + 1);
  }

  /** A 0 means that all are up together exactly when there is one service to wait
      for, or none. */
  lemma TogetherIff(awaited: seq<Service>)
    requires Distinct(awaited)
    ensures ZeroMeansTogether(awaited) <==> |awaited| <= 1
  {
    if |awaited| <= 1 {
      forall w: World, policy: Service -> string, start: real, deadline: real, last: nat
        | Ticks(w, start) && Ends(w, policy, awaited, deadline, last, AllUp)
        ensures forall i :: 0 <= i < |awaited| ==> Settles(w, policy, awaited[i], last)
      {
        if |awaited| == 1 {
          LastSettles(w, policy, awaited, deadline, last);
        }
      }
    } else {
      var policy := (svc: Service) => "";
      var w := NotAllAtOnce(awaited, policy);
      assert !Settles(w, policy, awaited[0], 1);
    }
  }

  /** The wait ends within the timeout and one polling round, however long a
      round takes, or within its first round; and a timeout's worth of seconds and
      one more bound the number of rounds. */
  lemma EndsInTime(w: World, policy: Service -> string, awaited: seq<Service>, start: real, timeout: real,
                   last: nat, v: Verdict, round: real)
    requires Ticks(w, start) && Ends(w, policy, awaited, start + timeout, last, v)
    requires w.check(last) - (if last > 0 then w.check(last - 1) else start) <= round
    ensures last > 0 ==> w.check(last) < start + timeout + round && last as real < timeout + 1.0
    ensures last == 0 ==> w.check(last) <= start + round
  {
    if last > 0 {
      CheckAfterStart(w, start, last - 1);
      assert Passes(w, policy, awaited, start + timeout, last - 1);
    }
  }

  // ----------------------------------------------------------- the pending list

  /** Python's list remove: the first occurrence goes. */
  function Remove(names: seq<Service>, name: Service): seq<Service>
  {
    if names == [] then []
    else if names[0] == name then names[1..]
    else [names[0]] + Remove(names[1..], name)
  }

  lemma {:induction false} RemoveAt(names: seq<Service>, i: nat)
    requires i < |names| && names[i] !in names[..i]
    ensures Remove(names, names[i]) == names[..i] + names[i + 1..]
  {
    if i > 0 {
      assert names[0] in names[..i];
      assert names[1..][..i - 1] == names[..i][1..];
      RemoveAt(names[1..], i - 1);
      assert names[..i] == [names[0]] + names[1..][..i - 1] && names[1..][i..] == names[i + 1..];
    }
  }

  predicate Precedes(whole: seq<Service>, x: Service, y: Service)
  {
    forall a, b :: 0 <= a < |whole| && 0 <= b < |whole| && whole[a] == x && whole[b] == y ==> a < b
  }

  /** `part` lists some of `whole`'s services, each once, in `whole`'s order. */
  predicate Ordered(part: seq<Service>, whole: seq<Service>)
  {
    && (forall i :: 0 <= i < |part| ==> part[i] in whole)
    && forall i, j :: 0 <= i < j < |part| ==> part[i] != part[j] && Precedes(whole, part[i], part[j])
  }

  lemma LessHolds(part: seq<Service>, i: nat, svc: Service)
    requires i < |part| && forall k :: 0 <= k < |part| && k != i ==> part[k] != part[i]
    ensures svc in part[..i] + part[i + 1..] <==> svc in part && svc != part[i]
  {
    var less := part[..i] + part[i + 1..];
    if svc in part && svc != part[i] {
      var k :| 0 <= k < |part| && part[k] == svc;
      assert svc == less[if k < i then k else k - 1];
    }
  }

  lemma LessOrdered(part: seq<Service>, whole: seq<Service>, i: nat)
    requires Ordered(part, whole) && i < |part|
    ensures Ordered(part[..i] + part[i + 1..], whole)
  {
    var less := part[..i] + part[i + 1..];
    assert forall k :: 0 <= k < |less| ==> less[k] == part[if k < i then k else k + 1];
  }

  /** Taking a listed service out keeps the rest, in order. */
  lemma RemoveKeeps(part: seq<Service>, whole: seq<Service>, name: Service)
    requires Ordered(part, whole) && name in part
    ensures Ordered(Remove(part, name), whole)
    ensures forall svc :: svc in Remove(part, name) <==> svc in part && svc != name
  {
    var i :| 0 <= i < |part| && part[i] == name;
    RemoveAt(part, i);
    LessOrdered(part, whole, i);
    forall svc
      ensures svc in Remove(part, name) <==> svc in part && svc != name
    {
      LessHolds(part, i, svc);
    }
  }

  // ------------------------------------------------------------------ the wait

  function Held(steady: map<Service, Stamp>, svc: Service): Option<Stamp>
  {
    if svc in steady then Some(steady[svc]) else None
  }

  /** What the two maps hold for a service before it is looked at in a round. */
  predicate Before(w: World, base: map<Service, int>, steady: map<Service, Stamp>, svc: Service, r: nat)
  {
    && Held(steady, svc) == Since(w, svc, r)
    && (if r == 0 then svc !in base
        else w.look(0, svc).Seen? && svc in base && base[svc] == w.look(0, svc).restarts)
  }

  /** The same for every service of a list. */
  predicate AllBefore(w: World, base: map<Service, int>, steady: map<Service, Stamp>, names: seq<Service>, r: nat)
  {
    forall svc :: svc in names ==> Before(w, base, steady, svc, r)
  }

  /** A service's turn touches what the maps hold for it alone. */
  ghost predicate OthersKept(base: map<Service, int>, steady: map<Service, Stamp>,
                             base': map<Service, int>, steady': map<Service, Stamp>, svc: Service)
  {
    forall other: Service :: other != svc ==>
      (other in base' <==> other in base) && (other in base ==> base'[other] == base[other])
      && Held(steady', other) == Held(steady, other)
  }

  /** One service's turn in a round. */
  method LookAt(w: World, policy: Service -> string, svc: Service, r: nat,
                base: map<Service, int>, steady: map<Service, Stamp>)
    returns (o: Outcome, base': map<Service, int>, steady': map<Service, Stamp>)
    requires Before(w, base, steady, svc, r)
    ensures o == Judge(w, policy, svc, r)
    ensures o.Waiting? ==> Before(w, base', steady', svc, r + 1)
    ensures OthersKept(base, steady, base', steady', svc)
  {
    base', steady' := base, steady;
    match w.look(r, svc)
    case Gone => o := Vanished;
    case Lost => o := Vanished;
    case Seen(status, exit, health, restarting, restarts) =>
      if svc !in base' {
        base' := base'[svc := restarts];
      }
      if status.Exited? && exit == 0 && OnFailure(policy(svc)) {
        o := Finished;
      } else if status.Exited? || status.Dead? || restarts - base'[svc] >= CRASH_RESTARTS {
        o := Stopped;
      } else if health.IsUnhealthy? {
        o := Unhealthy;
      } else if health.IsHealthy? {
        o := Healthy;
      } else if health.NoCheck? && status.Running? && !restarting {
        o := Waiting;
        if svc !in steady' {
          steady' := steady'[svc := Stamp(w.first(r, svc), restarts)];
        }
        if steady'[svc].restarts != restarts {
          steady' := steady'[svc := Stamp(w.second(r, svc), restarts)];
        } else if w.second(r, svc) - steady'[svc].at >= STEADY_SECONDS {
          o := Steady;
        }
      } else {
        o := Waiting;
        steady' := steady' - {svc};
      }
  }

  /** Where a pass over `round` stands before its turn `i`. */
  ghost predicate Midway(w: World, policy: Service -> string, awaited: seq<Service>, round: seq<Service>,
                         i: nat, r: nat, pending: seq<Service>, base: map<Service, int>, steady: map<Service, Stamp>)
    requires i <= |round|
  {
    && Ordered(pending, awaited)
    && (forall svc :: svc in pending <==> svc in round && !(svc in round[..i] && Settles(w, policy, svc, r)))
    && (forall j :: 0 <= j < i ==> !Fails(w, policy, round[j], r))
    && (forall j :: i <= j < |round| ==> Before(w, base, steady, round[j], r))
    && (forall j :: 0 <= j < i && !Settles(w, policy, round[j], r) ==> Before(w, base, steady, round[j], r + 1))
  }

  lemma StillBefore(w: World, base: map<Service, int>, steady: map<Service, Stamp>,
                    base': map<Service, int>, steady': map<Service, Stamp>, svc: Service, other: Service, r: nat)
    requires other != svc && Before(w, base, steady, other, r) && OthersKept(base, steady, base', steady', svc)
    ensures Before(w, base', steady', other, r)
  {
  }

  lemma MidwayMaps(w: World, policy: Service -> string, awaited: seq<Service>, round: seq<Service>,
                   i: nat, r: nat, pending: seq<Service>,
                   base: map<Service, int>, steady: map<Service, Stamp>,
                   base': map<Service, int>, steady': map<Service, Stamp>)
    requires i < |round| && Distinct(round)
    requires Midway(w, policy, awaited, round, i, r, pending, base, steady)
    requires OthersKept(base, steady, base', steady', round[i])
    requires !Settles(w, policy, round[i], r) ==> Before(w, base', steady', round[i], r + 1)
    ensures forall j :: i + 1 <= j < |round| ==> Before(w, base', steady', round[j], r)
    ensures forall j :: 0 <= j < i + 1 && !Settles(w, policy, round[j], r) ==>
              Before(w, base', steady', round[j], r + 1)
  {
    forall j | i + 1 <= j < |round|
      ensures Before(w, base', steady', round[j], r)
    {
      StillBefore(w, base, steady, base', steady', round[i], round[j], r);
    }
    forall j | 0 <= j < i && !Settles(w, policy, round[j], r)
      ensures Before(w, base', steady', round[j], r + 1)
    {
      StillBefore(w, base, steady, base', steady', round[i], round[j], r + 1);
    }
  }

  lemma MidwayList(w: World, policy: Service -> string, awaited: seq<Service>, round: seq<Service>,
                   i: nat, r: nat, pending: seq<Service>, base: map<Service, int>, steady: map<Service, Stamp>)
    requires i < |round| && Distinct(round)
    requires Midway(w, policy, awaited, round, i, r, pending, base, steady)
    ensures round[i] in pending
    ensures forall svc :: svc in round[..i + 1] <==> svc in round[..i] || svc == round[i]
  {
    assert round[i] !in round[..i];
    assert round[..i + 1] == round[..i] + [round[i]];
  }

  lemma MidwayStep(w: World, policy: Service -> string, awaited: seq<Service>, round: seq<Service>,
                   i: nat, r: nat, pending: seq<Service>,
                   base: map<Service, int>, steady: map<Service, Stamp>,
                   base': map<Service, int>, steady': map<Service, Stamp>, pending': seq<Service>)
    requires i < |round| && Distinct(round)
    requires Midway(w, policy, awaited, round, i, r, pending, base, steady)
    requires OthersKept(base, steady, base', steady', round[i]) && !Fails(w, policy, round[i], r)
    requires !Settles(w, policy, round[i], r) ==> Before(w, base', steady', round[i], r + 1)
    requires pending' == if Settles(w, policy, round[i], r) then Remove(pending, round[i]) else pending
    ensures Midway(w, policy, awaited, round, i + 1, r, pending', base', steady')
  {
    MidwayMaps(w, policy, awaited, round, i, r, pending, base, steady, base', steady');
    MidwayList(w, policy, awaited, round, i, r, pending, base, steady);
    RemoveKeeps(pending, awaited, round[i]);
  }

  /** One pass over the pending services. */
  method Round(w: World, policy: Service -> string, ghost awaited: seq<Service>, round: seq<Service>, r: nat,
               base: map<Service, int>, steady: map<Service, Stamp>)
    returns (pending: seq<Service>, failure: Option<Service>, base': map<Service, int>, steady': map<Service, Stamp>)
    requires Ordered(round, awaited) && AllBefore(w, base, steady, round, r)
    ensures failure.Some? ==>
              exists i :: 0 <= i < |round| && round[i] == failure.value && Fails(w, policy, round[i], r)
                && forall j :: 0 <= j < i ==> !Fails(w, policy, round[j], r)
    ensures failure.None? ==>
              && (forall j :: 0 <= j < |round| ==> !Fails(w, policy, round[j], r))
              && Ordered(pending, awaited)
              && (forall svc :: svc in pending <==> svc in round && !Settles(w, policy, svc, r))
              && AllBefore(w, base', steady', pending, r + 1)
  {
    pending, failure, base', steady' := round, None, base, steady;
    for i := 0 to |round|
      invariant failure.None?
      invariant Midway(w, policy, awaited, round, i, r, pending, base', steady')
    {
      ghost var base0, steady0, pending0 := base', steady', pending;
      var o: Outcome;
      o, base', steady' := LookAt(w, policy, round[i], r, base', steady');
      if o.Vanished? || o.Stopped? || o.Unhealthy? {
        failure := Some(round[i]);
        return;
      }
      if !o.Waiting? {
        pending := Remove(pending, round[i]);
      }
      MidwayStep(w, policy, awaited, round, i, r, pending0, base0, steady0, base', steady', pending);
    }
    assert round[..|round|] == round;
  }

  /** `pending` is what is unsettled before round `r`, in order. */
  ghost predicate Lists(w: World, policy: Service -> string, awaited: seq<Service>, pending: seq<Service>, r: nat)
  {
    Distinct(awaited) && Ordered(pending, awaited)
    && forall svc :: svc in pending <==> svc in awaited && Unsettled(w, policy, svc, r)
  }

  lemma ListsStep(w: World, policy: Service -> string, awaited: seq<Service>, round: seq<Service>,
                  pending: seq<Service>, r: nat)
    requires Lists(w, policy, awaited, round, r) && Ordered(pending, awaited)
    requires forall svc :: svc in pending <==> svc in round && !Settles(w, policy, svc, r)
    ensures Lists(w, policy, awaited, pending, r + 1)
  {
    forall svc
      ensures Unsettled(w, policy, svc, r + 1) <==> Unsettled(w, policy, svc, r) && !Settles(w, policy, svc, r)
    {
    }
  }

  /** The place of a listed service in the whole list: what stands before it
      there and is listed stands before it in the part. */
  lemma PlaceOf(part: seq<Service>, whole: seq<Service>, i: nat) returns (a: nat)
    requires Distinct(whole) && Ordered(part, whole) && i < |part|
    ensures a < |whole| && whole[a] == part[i]
    ensures forall b :: 0 <= b < a && whole[b] in part ==> whole[b] in part[..i]
  {
    assert part[i] in whole;
    a :| 0 <= a < |whole| && whole[a] == part[i];
    forall b | 0 <= b < a && whole[b] in part
      ensures whole[b] in part[..i]
    {
      var j :| 0 <= j < |part| && part[j] == whole[b];
    }
  }

  lemma ListedFailure(w: World, policy: Service -> string, awaited: seq<Service>, round: seq<Service>, r: nat, i: nat)
    requires Lists(w, policy, awaited, round, r) && i < |round| && Fails(w, policy, round[i], r)
    requires forall j :: 0 <= j < i ==> !Fails(w, policy, round[j], r)
    ensures FirstFailing(w, policy, awaited, r, round[i])
  {
    var a := PlaceOf(round, awaited, i);
    forall b | 0 <= b < |awaited[..a]|
      ensures !FailsPending(w, policy, awaited[..a][b], r)
    {
      assert awaited[..a][b] == awaited[b] && awaited[b] in awaited;
    }
  }

  lemma ListedPending(w: World, policy: Service -> string, awaited: seq<Service>, pending: seq<Service>, r: nat)
    requires Lists(w, policy, awaited, pending, r) && pending != []
    ensures FirstPending(w, policy, awaited, r, pending[0]) && !NonePending(w, policy, awaited, r)
  {
    var a := PlaceOf(pending, awaited, 0);
    forall b | 0 <= b < |awaited[..a]|
      ensures !Unsettled(w, policy, awaited[..a][b], r)
    {
      assert awaited[..a][b] == awaited[b] && awaited[b] in awaited;
    }
  }

  /** Where the wait stands before round `r`, with services still pending. */
  ghost predicate Going(w: World, policy: Service -> string, awaited: seq<Service>, deadline: real, r: nat,
                        pending: seq<Service>, base: map<Service, int>, steady: map<Service, Stamp>)
  {
    && Lists(w, policy, awaited, pending, r)
    && AllBefore(w, base, steady, pending, r)
    && AllPass(w, policy, awaited, deadline, r)
  }

  lemma GoingAtFirst(w: World, policy: Service -> string, awaited: seq<Service>, deadline: real)
    requires Distinct(awaited)
    ensures Going(w, policy, awaited, deadline, 0, awaited, map[], map[])
  {
  }

  /** What a pass that meets no failure leads to. */
  lemma RoundPassed(w: World, policy: Service -> string, awaited: seq<Service>, deadline: real, r: nat,
                    round: seq<Service>, pending: seq<Service>)
    requires AllPass(w, policy, awaited, deadline, r)
    requires Lists(w, policy, awaited, round, r) && Lists(w, policy, awaited, pending, r + 1)
    requires forall j :: 0 <= j < |round| ==> !Fails(w, policy, round[j], r)
    ensures pending == [] ==> Ends(w, policy, awaited, deadline, r, AllUp)
    ensures pending != [] && w.check(r) >= deadline ==>
              Ends(w, policy, awaited, deadline, r, TimedOut(pending[0]))
    ensures pending != [] && w.check(r) < deadline ==> AllPass(w, policy, awaited, deadline, r + 1)
  {
    forall a | 0 <= a < |awaited|
      ensures !FailsPending(w, policy, awaited[a], r)
    {
      assert awaited[a] in awaited;
      assert Unsettled(w, policy, awaited[a], r) ==> awaited[a] in round;
    }
    if pending == [] {
      forall a | 0 <= a < |awaited|
        ensures !Unsettled(w, policy, awaited[a], r + 1)
      {
        assert awaited[a] in awaited;
      }
    } else {
      ListedPending(w, policy, awaited, pending, r + 1);
    }
  }

  /** One round: the pass, then the deadline. */
  method Poll(w: World, policy: Service -> string, ghost awaited: seq<Service>, deadline: real, r: nat,
              round: seq<Service>, base: map<Service, int>, steady: map<Service, Stamp>)
    returns (ended: Option<Verdict>, pending: seq<Service>, base': map<Service, int>, steady': map<Service, Stamp>)
    requires Going(w, policy, awaited, deadline, r, round, base, steady)
    ensures ended.Some? ==> !ended.value.AllUp? && Ends(w, policy, awaited, deadline, r, ended.value)
    ensures ended.None? && pending == [] ==> Ends(w, policy, awaited, deadline, r, AllUp)
    ensures ended.None? && pending != [] ==> Going(w, policy, awaited, deadline, r + 1, pending, base', steady')
  {
    var failure: Option<Service>;
    ended := None;
    pending, failure, base', steady' := Round(w, policy, awaited, round, r, base, steady);
    if failure.Some? {
      ghost var i :| 0 <= i < |round| && round[i] == failure.value && Fails(w, policy, round[i], r)
                     && forall j :: 0 <= j < i ==> !Fails(w, policy, round[j], r);
      ListedFailure(w, policy, awaited, round, r, i);
      ended := Some(Failed(failure.value));
    } else {
      ListsStep(w, policy, awaited, round, pending, r);
      RoundPassed(w, policy, awaited, deadline, r, round, pending);
      if pending != [] && w.check(r) >= deadline {
        ended := Some(TimedOut(pending[0]));
      }
    }
  }

  /** Only so many rounds begin before the deadline. */
  lemma RoundsLeft(w: World, policy: Service -> string, awaited: seq<Service>, start: real, timeout: real, r: nat)
    requires Ticks(w, start) && AllPass(w, policy, awaited, start + timeout, r)
    ensures r <= 0 || r - 1 <= timeout.Floor
  {
    if r > 0 {
      CheckAfterStart(w, start, r - 1);
      assert Passes(w, policy, awaited, start + timeout, r - 1);
      assert (r - 1) as real < timeout;
    }
  }

  /** What the answer of an ended wait tells. */
  lemma Answered(w: World, policy: Service -> string, awaited: seq<Service>, start: real, deadline: real,
                 last: nat, v: Verdict)
    requires Ticks(w, start) && Ends(w, policy, awaited, deadline, last, v)
    ensures EndsWith(w, policy, awaited, deadline, v)
    ensures v.AllUp? <==> AllComeUp(w, policy, awaited, deadline)
    ensures v.AllUp? ==> forall svc :: svc in awaited ==> Vouched(w, policy, deadline, svc)
    ensures v.Failed? ==> v.svc in awaited && exists r: nat :: Against(w, policy, v.svc, r)
    ensures v.TimedOut? ==> v.svc in awaited && exists r: nat :: w.check(r) >= deadline
  {
    AllUpIff(w, policy, awaited, start, deadline, last, v);
    if v.AllUp? {
      forall svc | svc in awaited
        ensures Vouched(w, policy, deadline, svc)
      {
        ZeroVouches(w, policy, awaited, start, deadline, last, svc);
      }
    } else if v.Failed? {
      FailsIff(w, policy, v.svc, last);
    }
  }

  /** The wait.  It ends, with the answer every pending service's turn gives in
      order, and 0 when and only when every awaited service comes up. */
  method WaitUp(w: World, policy: Service -> string, awaited: seq<Service>, start: real, timeout: real)
    returns (code: int, verdict: Verdict)
    requires Distinct(awaited) && Ticks(w, start)
    ensures code == if verdict.AllUp? then 0 else 1
    ensures awaited != [] ==> EndsWith(w, policy, awaited, start + timeout, verdict)
    ensures code == 0 <==> AllComeUp(w, policy, awaited, start + timeout)
    ensures code == 0 ==> forall svc :: svc in awaited ==> Vouched(w, policy, start + timeout, svc)
    ensures verdict.Failed? ==> verdict.svc in awaited && exists r: nat :: Against(w, policy, verdict.svc, r)
    ensures verdict.TimedOut? ==> verdict.svc in awaited && exists r: nat :: w.check(r) >= start + timeout
  {
    if awaited == [] {
      return 0, AllUp;
    }
    var deadline := start + timeout;
    var base: map<Service, int>, steady: map<Service, Stamp>, pending := map[], map[], awaited;
    var r: nat := 0;
    GoingAtFirst(w, policy, awaited, deadline);
    while pending != []
      invariant pending == [] ==> r > 0 && Ends(w, policy, awaited, deadline, r - 1, AllUp)
      invariant pending != [] ==> Going(w, policy, awaited, deadline, r, pending, base, steady)
      decreases if timeout < 0.0 then 2 - r else timeout.Floor + 2 - r
    {
      RoundsLeft(w, policy, awaited, start, timeout, r);
      var ended: Option<Verdict>;
      ended, pending, base, steady := Poll(w, policy, awaited, deadline, r, pending, base, steady);
      if ended.Some? {
        Answered(w, policy, awaited, start, deadline, r, ended.value);
        return 1, ended.value;
      }
      r := r + 1;
    }
    Answered(w, policy, awaited, start, deadline, r - 1, AllUp);
    return 0, AllUp;
  }
}
