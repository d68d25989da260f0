/** The services an up covers: those named and, unless dependencies are left out,
    everything they depend on.

    `services` maps each service of the configuration to the names it depends on;
    a name that is no service may be given, or depended on, and is passed over. */
module ServiceClosure {

  /** A way from a named service, each a configured one that the one before it
      depends on.  Without dependencies a way is a single service. */
  predicate Way<S(==)>(services: map<S, seq<S>>, named: seq<S>, noDeps: bool, way: seq<S>)
  {
    && way != []
    && way[0] in named
    && (forall i :: 0 <= i < |way| ==> way[i] in services)
    && (forall i :: 0 < i < |way| ==> way[i] in services[way[i - 1]])
    && (noDeps ==> |way| == 1)
  }

  ghost predicate Reached<S(!new)>(services: map<S, seq<S>>, named: seq<S>, noDeps: bool, n: S)
  {
    exists way :: Way(services, named, noDeps, way) && way[|way| - 1] == n
  }

  lemma ReachedNamed<S(!new)>(services: map<S, seq<S>>, named: seq<S>, noDeps: bool, n: S)
    requires n in named && n in services
    ensures Reached(services, named, noDeps, n)
  {
    assert Way(services, named, noDeps, [n]);
    assert [n][|[n]| - 1] == n;
  }

  lemma ReachedNext<S(!new)>(services: map<S, seq<S>>, named: seq<S>, n: S, d: S)
    requires Reached(services, named, false, n) && n in services && d in services[n] && d in services
    ensures Reached(services, named, false, d)
  {
    var way :| Way(services, named, false, way) && way[|way| - 1] == n;
    var longer := way + [d];
    assert Way(services, named, false, longer) && longer[|longer| - 1] == d;
  }

  /** `seen` holds every named service and, with each service, what it depends on,
      but for what is still to do. */
  predicate ClosedBut<S(==)>(services: map<S, seq<S>>, named: seq<S>, noDeps: bool, seen: set<S>, todo: seq<S>)
  {
    && (forall n :: n in named && n in services ==> n in seen || n in todo)
    && (!noDeps ==> forall n, d :: n in seen && n in services && d in services[n] && d in services ==>
          d in seen || d in todo)
  }

  lemma {:induction false} ClosedHoldsWay<S(!new)>(services: map<S, seq<S>>, named: seq<S>, noDeps: bool,
                                                   seen: set<S>, way: seq<S>)
    requires ClosedBut(services, named, noDeps, seen, []) && Way(services, named, noDeps, way)
    ensures way[|way| - 1] in seen
    decreases |way|
  {
    if |way| > 1 {
      var shorter := way[..|way| - 1];
      assert Way(services, named, noDeps, shorter);
      ClosedHoldsWay(services, named, noDeps, seen, shorter);
      assert shorter[|shorter| - 1] == way[|way| - 2];
    }
  }

  /** One name taken off the list, and what it depends on put there. */
  lemma StepCloses<S(!new)>(services: map<S, seq<S>>, named: seq<S>, noDeps: bool, seen: set<S>, todo: seq<S>)
    requires todo != [] && ClosedBut(services, named, noDeps, seen, todo)
    ensures var n, rest := todo[|todo| - 1], todo[..|todo| - 1];
            ClosedBut(services, named, noDeps, if n in services then seen + {n} else seen,
                      if n in seen || n !in services || noDeps then rest else rest + services[n])
  {
    var rest := todo[..|todo| - 1];
    assert todo == rest + [todo[|todo| - 1]];
  }

  ghost predicate AllReached<S(!new)>(services: map<S, seq<S>>, named: seq<S>, noDeps: bool, names: seq<S>)
  {
    forall n :: n in names && n in services ==> Reached(services, named, noDeps, n)
  }

  lemma DepsReached<S(!new)>(services: map<S, seq<S>>, named: seq<S>, rest: seq<S>, n: S)
    requires n in services && Reached(services, named, false, n) && AllReached(services, named, false, rest)
    ensures AllReached(services, named, false, rest + services[n])
  {
    forall d | d in services[n] && d in services
      ensures Reached(services, named, false, d)
    {
      ReachedNext(services, named, n, d);
    }
  }

  /** What the search keeps. */
  ghost predicate Searching<S(!new)>(services: map<S, seq<S>>, named: seq<S>, noDeps: bool, seen: set<S>, todo: seq<S>)
  {
    && seen <= services.Keys
    && (forall n :: n in seen ==> Reached(services, named, noDeps, n))
    && AllReached(services, named, noDeps, todo)
    && ClosedBut(services, named, noDeps, seen, todo)
  }

  lemma SearchBegins<S(!new)>(services: map<S, seq<S>>, named: seq<S>, noDeps: bool)
    ensures Searching(services, named, noDeps, {}, named)
  {
    forall n | n in named && n in services
      ensures Reached(services, named, noDeps, n)
    {
      ReachedNamed(services, named, noDeps, n);
    }
  }

  lemma SearchPassesOver<S(!new)>(services: map<S, seq<S>>, named: seq<S>, noDeps: bool, seen: set<S>, todo: seq<S>)
    requires todo != [] && Searching(services, named, noDeps, seen, todo)
    requires todo[|todo| - 1] in seen || todo[|todo| - 1] !in services
    ensures Searching(services, named, noDeps, seen, todo[..|todo| - 1])
  {
    StepCloses(services, named, noDeps, seen, todo);
    assert todo[|todo| - 1] in services ==> seen + {todo[|todo| - 1]} == seen;
  }

  lemma SearchTakes<S(!new)>(services: map<S, seq<S>>, named: seq<S>, noDeps: bool, seen: set<S>, todo: seq<S>)
    requires todo != [] && Searching(services, named, noDeps, seen, todo)
    requires todo[|todo| - 1] in services && todo[|todo| - 1] !in seen
    ensures var n, rest := todo[|todo| - 1], todo[..|todo| - 1];
            Searching(services, named, noDeps, seen + {n}, if noDeps then rest else rest + services[n])
  {
    var n, rest := todo[|todo| - 1], todo[..|todo| - 1];
    assert n in todo;
    StepCloses(services, named, noDeps, seen, todo);
    assert AllReached(services, named, noDeps, rest);
    if !noDeps {
      DepsReached(services, named, rest, n);
    }
  }

  lemma SearchEnds<S(!new)>(services: map<S, seq<S>>, named: seq<S>, noDeps: bool, seen: set<S>)
    requires Searching(services, named, noDeps, seen, [])
    ensures forall n :: n in seen <==> Reached(services, named, noDeps, n)
  {
    forall n | Reached(services, named, noDeps, n)
      ensures n in seen
    {
      var way :| Way(services, named, noDeps, way) && way[|way| - 1] == n;
      ClosedHoldsWay(services, named, noDeps, seen, way);
    }
  }

  lemma FewerLeft<S>(all: set<S>, seen: set<S>, n: S)
    requires n in all && n !in seen
    ensures |all - (seen + {n})| < |all - seen|
  {
    assert all - (seen + {n}) == (all - seen) - {n};
  }

  /** The covered services are exactly those a way leads to; all of them when none
      is named. */
  method ClosureOf<S(==, !new)>(services: map<S, seq<S>>, named: seq<S>, noDeps: bool) returns (seen: set<S>)
    ensures named == [] ==> seen == services.Keys
    ensures named != [] ==> forall n :: n in seen <==> Reached(services, named, noDeps, n)
  {
    if named == [] {
      return services.Keys;
    }
    seen := {};
    var todo := named;
    SearchBegins(services, named, noDeps);
    while todo != []
      invariant Searching(services, named, noDeps, seen, todo)
      decreases |services.Keys - seen|, |todo|
    {
      var n := todo[|todo| - 1];
      if n in seen || n !in services {
        SearchPassesOver(services, named, noDeps, seen, todo);
        todo := todo[..|todo| - 1];
      } else {
        SearchTakes(services, named, noDeps, seen, todo);
        FewerLeft(services.Keys, seen, n);
        seen, todo := seen + {n}, todo[..|todo| - 1];
        if !noDeps {
          todo := todo + services[n];
        }
      }
    }
    SearchEnds(services, named, noDeps, seen);
  }
}
