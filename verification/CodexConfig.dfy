/**
 Whether a loaded Codex configuration holds the settings innsegl wants
 (cmd/innsegl/connectcodexverify.go): both are normalised, then the one must
 contain the other. Configurations are JSON trees; a field that is absent reads
 as null.
 */
module CodexConfig {
  import opened Options

  datatype Json =
    | Null
    | Bool(b: bool)
    | Num(n: int)
    | Str(s: string)
    | Arr(items: seq<Json>)
    | Obj(fields: map<string, Json>)

  function Field(m: map<string, Json>, k: string): Json
  {
    if k in m then m[k] else Null
  }

  // ----------------------------------------------------------- containment

  /** What codexConfigContains answers. */
  predicate Contains(got: Json, want: Json)
    decreases want, 0
  {
    match want
    case Obj(w) => got.Obj? && forall k :: k in w ==> Contains(Field(got.fields, k), w[k])
    case Arr(w) => got.Arr? && forall i :: 0 <= i < |w| ==> ContainsAny(got.items, w[i])
    case _ => got == want
  }

  predicate ContainsAny(items: seq<Json>, want: Json)
    decreases want, 1
  {
    exists j :: 0 <= j < |items| && Contains(items[j], want)
  }

  /** codexConfigContains, with its local flag. */
  method CodexConfigContains(got: Json, want: Json) returns (r: bool)
    ensures r <==> Contains(got, want)
    decreases want
  {
    match want
    case Obj(w) =>
      if !got.Obj? {
        return false;
      }
      var keys := w.Keys;
      while keys != {}
        invariant keys <= w.Keys
        invariant forall k :: k in w.Keys - keys ==> Contains(Field(got.fields, k), w[k])
        decreases |keys|
      {
        var k :| k in keys;
        var ok := CodexConfigContains(Field(got.fields, k), w[k]);
        if !ok {
          return false;
        }
        keys := keys - {k};
      }
      return true;
    case Arr(w) =>
      if !got.Arr? {
        return false;
      }
      for i := 0 to |w|
        invariant forall k :: 0 <= k < i ==> ContainsAny(got.items, w[k])
      {
        var found := false;
        for j := 0 to |got.items|
          invariant found <==> exists k :: 0 <= k < j && Contains(got.items[k], w[i])
        {
          var one := CodexConfigContains(got.items[j], w[i]);
          found := found || one;
        }
        if !found {
          assert !ContainsAny(got.items, w[i]);
          return false;
        }
      }
      return true;
    case _ =>
      return got == want;
  }

  /** Every configuration contains itself. */
  lemma {:induction false} Reflexive(c: Json)
    ensures Contains(c, c)
  {
    match c
    case Obj(w) =>
      forall k | k in w
        ensures Contains(Field(w, k), w[k])
      {
        Reflexive(w[k]);
      }
    case Arr(w) =>
      forall i | 0 <= i < |w|
        ensures ContainsAny(w, w[i])
      {
        Reflexive(w[i]);
      }
    case _ =>
  }

  /** `a` holds what `b` holds, nulls included: `b`, enlarged with further
      fields and further items anywhere. */
  predicate Enlarges(a: Json, b: Json)
    decreases b, 0
  {
    match b
    case Obj(w) => a.Obj? && forall k :: k in w ==> k in a.fields && Enlarges(a.fields[k], w[k])
    case Arr(w) => a.Arr? && forall i :: 0 <= i < |w| ==> EnlargesAny(a.items, w[i])
    case _ => a == b
  }

  predicate EnlargesAny(items: seq<Json>, b: Json)
    decreases b, 1
  {
    exists j :: 0 <= j < |items| && Enlarges(items[j], b)
  }

  lemma {:induction false} EnlargingContains(a: Json, b: Json)
    requires Enlarges(a, b)
    ensures Contains(a, b)
    decreases b
  {
    match b
    case Obj(w) =>
      forall k | k in w
        ensures Contains(Field(a.fields, k), w[k])
      {
        EnlargingContains(a.fields[k], w[k]);
      }
    case Arr(w) =>
      forall i | 0 <= i < |w|
        ensures ContainsAny(a.items, w[i])
      {
        assert EnlargesAny(a.items, w[i]);
        var j :| 0 <= j < |a.items| && Enlarges(a.items[j], w[i]);
        EnlargingContains(a.items[j], w[i]);
      }
    case _ =>
  }

  /** Containment carries over to whatever the middle one holds explicitly. */
  lemma {:induction false} ContainsThrough(a: Json, b: Json, c: Json)
    requires Contains(a, b) && Enlarges(b, c)
    ensures Contains(a, c)
    decreases c
  {
    match c
    case Obj(w) =>
      forall k | k in w
        ensures Contains(Field(a.fields, k), w[k])
      {
        ContainsThrough(Field(a.fields, k), b.fields[k], w[k]);
      }
    case Arr(w) =>
      forall i | 0 <= i < |w|
        ensures ContainsAny(a.items, w[i])
      {
        assert EnlargesAny(b.items, w[i]);
        var j :| 0 <= j < |b.items| && Enlarges(b.items[j], w[i]);
        assert ContainsAny(a.items, b.items[j]);
        var m :| 0 <= m < |a.items| && Contains(a.items[m], b.items[j]);
        ContainsThrough(a.items[m], b.items[j], w[i]);
      }
    case _ =>
  }

  // ------------------------------------- exactly when it carries over

  function Nums(c: Json): set<int>
  {
    match c
    case Num(n) => {n}
    case Arr(w) => set i, n | 0 <= i < |w| && n in Nums(w[i]) :: n
    case Obj(w) => set k, n | k in w && n in Nums(w[k]) :: n
    case _ => {}
  }

  function Keys(c: Json): set<string>
  {
    match c
    case Arr(w) => set i, k | 0 <= i < |w| && k in Keys(w[i]) :: k
    case Obj(w) => w.Keys + set j, k | j in w && k in Keys(w[j]) :: k
    case _ => {}
  }

  /** `b` with every field of `ks` it lacks set to a number, everywhere. */
  function Filled(b: Json, ks: set<string>, n: int): Json
  {
    match b
    case Arr(w) => Arr(seq(|w|, i requires 0 <= i < |w| => Filled(w[i], ks, n)))
    case Obj(w) => Obj(map k | k in w.Keys + ks :: if k in w then Filled(w[k], ks, n) else Num(n))
    case _ => b
  }

  lemma {:induction false} FilledEnlarges(b: Json, ks: set<string>, n: int)
    ensures Enlarges(Filled(b, ks, n), b)
  {
    match b
    case Arr(w) =>
      forall i | 0 <= i < |w|
        ensures EnlargesAny(Filled(b, ks, n).items, w[i])
      {
        FilledEnlarges(w[i], ks, n);
        assert Filled(b, ks, n).items[i] == Filled(w[i], ks, n);
      }
    case Obj(w) =>
      forall k | k in w
        ensures Enlarges(Filled(b, ks, n).fields[k], w[k])
      {
        FilledEnlarges(w[k], ks, n);
      }
    case _ =>
  }

  lemma {:induction false} FilledTells(b: Json, c: Json, ks: set<string>, n: int)
    requires Keys(c) <= ks && n !in Nums(c) && Contains(Filled(b, ks, n), c)
    ensures Enlarges(b, c)
    decreases c
  {
    var a := Filled(b, ks, n);
    match c
    case Obj(w) =>
      forall k | k in w
        ensures k in b.fields && Enlarges(b.fields[k], w[k])
      {
        assert Keys(w[k]) <= Keys(c) && Nums(w[k]) <= Nums(c);
        assert k in Keys(c) && Contains(Field(a.fields, k), w[k]);
        assert n !in Nums(w[k]);
        FilledTells(b.fields[k], w[k], ks, n);
      }
    case Arr(w) =>
      forall i | 0 <= i < |w|
        ensures EnlargesAny(b.items, w[i])
      {
        assert Keys(w[i]) <= Keys(c) && Nums(w[i]) <= Nums(c);
        assert ContainsAny(a.items, w[i]);
        var j :| 0 <= j < |a.items| && Contains(a.items[j], w[i]);
        FilledTells(b.items[j], w[i], ks, n);
      }
    case _ =>
  }

  lemma {:induction false} NumberAbove(s: set<int>) returns (n: int)
    ensures forall x :: x in s ==> x < n
    decreases |s|
  {
    n := 0;
    if x :| x in s {
      var m := NumberAbove(s - {x});
      n := if x < m then m else x + 1;
      assert forall y :: y in s ==> y == x || y in s - {x};
    }
  }

  /** Everything that contains `b` contains `c` exactly when `b` holds `c`
      explicitly: an absent field of `b` that reads as one of `c`'s nulls is
      the one thing that does not carry over. */
  lemma CarriesOverIff(b: Json, c: Json)
    ensures (forall a :: Contains(a, b) ==> Contains(a, c)) <==> Enlarges(b, c)
  {
    if Enlarges(b, c) {
      forall a | Contains(a, b)
        ensures Contains(a, c)
      {
        ContainsThrough(a, b, c);
      }
    } else {
      var n := NumberAbove(Nums(c));
      var a := Filled(b, Keys(c), n);
      FilledEnlarges(b, Keys(c), n);
      EnlargingContains(a, b);
      assert n !in Nums(c);
      if Contains(a, c) {
        FilledTells(b, c, Keys(c), n);
      }
      assert Contains(a, b) && !Contains(a, c);
    }
  }

  /** So containment itself is not transitive: a wanted null matches an absent
      field, which a larger configuration may set. */
  lemma NotTransitive()
    ensures var a, b, c := Obj(map["k" := Num(1)]), Obj(map[]), Obj(map["k" := Null]);
            Contains(a, b) && Contains(b, c) && !Contains(a, c)
  {
    assert Field(map["k" := Num(1)], "k") == Num(1);
    assert "k" in map["k" := Null];
  }

  // --------------------------------------------------------- normalisation

  const MATCHER := "matcher"
  const HOOKS := "hooks"
  const ASYNC := "async"

  predicate AllObjects(items: seq<Json>)
  {
    forall i :: 0 <= i < |items| ==> items[i].Obj?
  }

  predicate ValidGroup(g: Json)
  {
    g.Obj? && Field(g.fields, HOOKS).Arr? && AllObjects(Field(g.fields, HOOKS).items)
  }

  predicate ValidGroups(gs: seq<Json>)
  {
    forall i :: 0 <= i < |gs| ==> ValidGroup(gs[i])
  }

  /** A value of the hook table: an event's groups, or something else. */
  predicate ValidEvent(v: Json)
  {
    v.Arr? ==> ValidGroups(v.items)
  }

  predicate ValidConfig(c: Json)
  {
    c.Obj? && Field(c.fields, HOOKS).Obj? &&
    forall k :: k in Field(c.fields, HOOKS).fields ==> ValidEvent(Field(c.fields, HOOKS).fields[k])
  }

  function NormalHandler(h: Json): Json
    requires h.Obj?
  {
    if ASYNC in h.fields then h else Obj(h.fields[ASYNC := Bool(false)])
  }

  function NormalHandlers(hs: seq<Json>): (r: seq<Json>)
    requires AllObjects(hs)
    ensures |r| == |hs| && forall i :: 0 <= i < |hs| ==> r[i] == NormalHandler(hs[i])
  {
    seq(|hs|, i requires 0 <= i < |hs| => NormalHandler(hs[i]))
  }

  /** A matcher that is absent, null, empty or "*" matches everything. */
  predicate MatchesAll(m: Json)
  {
    m == Null || m == Str("") || m == Str("*")
  }

  function NormalGroup(g: Json): Json
    requires ValidGroup(g)
  {
    var f := if MatchesAll(Field(g.fields, MATCHER)) then g.fields[MATCHER := Null] else g.fields;
    Obj(f[HOOKS := Arr(NormalHandlers(g.fields[HOOKS].items))])
  }

  function NormalGroups(gs: seq<Json>): (r: seq<Json>)
    requires ValidGroups(gs)
    ensures |r| == |gs| && forall i :: 0 <= i < |gs| ==> r[i] == NormalGroup(gs[i])
  {
    seq(|gs|, i requires 0 <= i < |gs| => NormalGroup(gs[i]))
  }

  function NormalEvent(v: Json): Json
    requires ValidEvent(v)
  {
    if v.Arr? then Arr(NormalGroups(v.items)) else v
  }

  function NormalTable(t: map<string, Json>): map<string, Json>
    requires forall k :: k in t ==> ValidEvent(t[k])
  {
    map k | k in t :: NormalEvent(t[k])
  }

  /** normalizeCodexHookSemantics, for a configuration it accepts. */
  function Normal(c: Json): Json
    requires ValidConfig(c)
  {
    Obj(c.fields[HOOKS := Obj(NormalTable(c.fields[HOOKS].fields))])
  }

  lemma NormalGroupTwice(g: Json)
    requires ValidGroup(g)
    ensures ValidGroup(NormalGroup(g)) && NormalGroup(NormalGroup(g)) == NormalGroup(g)
    ensures MATCHER in NormalGroup(g).fields
  {
    var hs := g.fields[HOOKS].items;
    var n := NormalGroup(g);
    assert n.fields[HOOKS] == Arr(NormalHandlers(hs));
    assert Field(n.fields, MATCHER) == if MatchesAll(Field(g.fields, MATCHER)) then Null else Field(g.fields, MATCHER);
    assert NormalHandlers(NormalHandlers(hs)) == NormalHandlers(hs);
    assert NormalGroup(n).fields == n.fields;
  }

  lemma NormalEventTwice(v: Json)
    requires ValidEvent(v)
    ensures ValidEvent(NormalEvent(v)) && NormalEvent(NormalEvent(v)) == NormalEvent(v)
  {
    if v.Arr? {
      forall i | 0 <= i < |v.items|
        ensures ValidGroup(NormalGroup(v.items[i])) && NormalGroup(NormalGroup(v.items[i])) == NormalGroup(v.items[i])
      {
        NormalGroupTwice(v.items[i]);
      }
      assert NormalGroups(NormalGroups(v.items)) == NormalGroups(v.items);
    }
  }

  function Get(m: map<string, Json>, k: string): Option<Json>
  {
    if k in m then Some(m[k]) else None
  }

  predicate SaysAsync(h: Json, n: Json)
  {
    h.Obj? && n.Obj? && n.fields == if "async" in h.fields then h.fields else h.fields["async" := Bool(false)]
  }

  /** What normalising does to a hook group, field by field: a matcher that
      matches everything is null, every handler says whether it is asynchronous,
      and nothing else changes. */
  lemma NormalGroupIs(g: Json)
    requires ValidGroup(g)
    ensures var f, n := g.fields, NormalGroup(g).fields;
            && (forall k :: k != "matcher" && k != "hooks" ==> Get(n, k) == Get(f, k))
            && Get(n, "matcher") == (if "matcher" !in f || f["matcher"] in {Null, Str(""), Str("*")} then Some(Null)
                                     else Some(f["matcher"]))
            && "hooks" in f && "hooks" in n && n["hooks"].Arr? && |n["hooks"].items| == |f["hooks"].items|
            && forall i :: 0 <= i < |f["hooks"].items| ==>
                 SaysAsync(f["hooks"].items[i], n["hooks"].items[i])
  {
    GroupFields(g);
  }

  /** Normalising twice is normalising once. */
  lemma NormalTwice(c: Json)
    requires ValidConfig(c)
    ensures ValidConfig(Normal(c)) && Normal(Normal(c)) == Normal(c)
  {
    var t := c.fields[HOOKS].fields;
    forall k | k in t
      ensures ValidEvent(NormalEvent(t[k])) && NormalEvent(NormalEvent(t[k])) == NormalEvent(t[k])
    {
      NormalEventTwice(t[k]);
    }
    var n := Normal(c);
    assert n.fields[HOOKS] == Obj(NormalTable(t));
    assert NormalTable(NormalTable(t)) == NormalTable(t);
    assert Normal(n).fields == n.fields;
  }

  // -------------------------------------------------- the loops, in place

  method NormalizeHandlers(hs: seq<Json>) returns (r: Option<seq<Json>>)
    ensures r.Some? <==> AllObjects(hs)
    ensures r.Some? ==> r.value == NormalHandlers(hs)
  {
    var out := hs;
    for i := 0 to |hs|
      invariant |out| == |hs|
      invariant forall j :: 0 <= j < i ==> hs[j].Obj? && out[j] == NormalHandler(hs[j])
      invariant forall j :: i <= j < |hs| ==> out[j] == hs[j]
    {
      if !out[i].Obj? {
        return None;
      }
      if ASYNC !in out[i].fields {
        out := out[i := Obj(out[i].fields[ASYNC := Bool(false)])];
      }
    }
    assert AllObjects(hs);
    assert out == NormalHandlers(hs);
    return Some(out);
  }

  method NormalizeGroups(gs: seq<Json>) returns (r: Option<seq<Json>>)
    ensures r.Some? <==> ValidGroups(gs)
    ensures r.Some? ==> r.value == NormalGroups(gs)
  {
    var out := gs;
    for i := 0 to |gs|
      invariant |out| == |gs|
      invariant forall j :: 0 <= j < i ==> ValidGroup(gs[j]) && out[j] == NormalGroup(gs[j])
      invariant forall j :: i <= j < |gs| ==> out[j] == gs[j]
    {
      if !out[i].Obj? {
        return None;
      }
      var group := out[i].fields;
      if MatchesAll(Field(group, MATCHER)) {
        group := group[MATCHER := Null];
      }
      if !Field(group, HOOKS).Arr? {
        return None;
      }
      var handlers := NormalizeHandlers(group[HOOKS].items);
      if handlers.None? {
        return None;
      }
      group := group[HOOKS := Arr(handlers.value)];
      assert Obj(group) == NormalGroup(gs[i]);
      out := out[i := Obj(group)];
    }
    assert ValidGroups(gs);
    assert out == NormalGroups(gs);
    return Some(out);
  }

  /** normalizeCodexHookSemantics: an error, or the configuration normalised,
      whatever order the hook table is walked in. */
  method NormalizeCodexHookSemantics(c: Json) returns (r: Option<Json>)
    requires c.Obj?
    ensures r.Some? <==> ValidConfig(c)
    ensures r.Some? ==> r.value == Normal(c)
  {
    if !Field(c.fields, HOOKS).Obj? {
      return None;
    }
    var t := c.fields[HOOKS].fields;
    var out := t;
    var keys := t.Keys;
    while keys != {}
      invariant keys <= t.Keys && out.Keys == t.Keys
      invariant forall k :: k in t.Keys - keys ==> ValidEvent(t[k]) && out[k] == NormalEvent(t[k])
      invariant forall k :: k in keys ==> out[k] == t[k]
      decreases |keys|
    {
      var k :| k in keys;
      keys := keys - {k};
      if !t[k].Arr? {
        continue;
      }
      var groups := NormalizeGroups(t[k].items);
      if groups.None? {
        return None;
      }
      out := out[k := Arr(groups.value)];
    }
    assert ValidConfig(c);
    assert out == NormalTable(t);
    return Some(Obj(c.fields[HOOKS := Obj(out)]));
  }

  // --------------------------------------------------------- the check

  predicate NullFree(c: Json)
  {
    match c
    case Null => false
    case Arr(w) => forall i :: 0 <= i < |w| ==> NullFree(w[i])
    case Obj(w) => forall k :: k in w ==> NullFree(w[k])
    case _ => true
  }

  /** Nulls stand only as the matchers of hook groups. */
  predicate NullGroup(g: Json)
  {
    g.Obj? && forall k :: k in g.fields ==> NullFree(g.fields[k]) || (k == MATCHER && g.fields[k] == Null)
  }

  predicate NullEvent(v: Json)
  {
    NullFree(v) || (v.Arr? && forall i :: 0 <= i < |v.items| ==> NullGroup(v.items[i]))
  }

  predicate NullsOnlyAsMatchers(c: Json)
  {
    c.Obj? && Field(c.fields, HOOKS).Obj? &&
    (forall k :: k in c.fields && k != HOOKS ==> NullFree(c.fields[k])) &&
    forall k :: k in c.fields[HOOKS].fields ==> NullEvent(c.fields[HOOKS].fields[k])
  }

  lemma {:induction false} NullFreeEnlarges(b: Json, c: Json)
    requires NullFree(c) && Contains(b, c)
    ensures Enlarges(b, c)
    decreases c
  {
    match c
    case Obj(w) =>
      forall k | k in w
        ensures k in b.fields && Enlarges(b.fields[k], w[k])
      {
        assert NullFree(w[k]) && Contains(Field(b.fields, k), w[k]);
        NullFreeEnlarges(b.fields[k], w[k]);
      }
    case Arr(w) =>
      forall i | 0 <= i < |w|
        ensures EnlargesAny(b.items, w[i])
      {
        assert NullFree(w[i]) && ContainsAny(b.items, w[i]);
        var j :| 0 <= j < |b.items| && Contains(b.items[j], w[i]);
        NullFreeEnlarges(b.items[j], w[i]);
      }
    case _ =>
  }

  lemma GroupEnlarges(b: Json, c: Json)
    requires b.Obj? && MATCHER in b.fields && NullGroup(c) && Contains(b, c)
    ensures Enlarges(b, c)
  {
    forall k | k in c.fields
      ensures k in b.fields && Enlarges(b.fields[k], c.fields[k])
    {
      assert Contains(Field(b.fields, k), c.fields[k]);
      if NullFree(c.fields[k]) {
        NullFreeEnlarges(Field(b.fields, k), c.fields[k]);
      }
    }
  }

  lemma EventEnlarges(v: Json, c: Json)
    requires ValidEvent(v) && NullEvent(c) && Contains(NormalEvent(v), c)
    ensures Enlarges(NormalEvent(v), c)
  {
    var b := NormalEvent(v);
    if NullFree(c) {
      NullFreeEnlarges(b, c);
    } else {
      forall i | 0 <= i < |c.items|
        ensures EnlargesAny(b.items, c.items[i])
      {
        assert ContainsAny(b.items, c.items[i]);
        var j :| 0 <= j < |b.items| && Contains(b.items[j], c.items[i]);
        NormalGroupTwice(v.items[j]);
        GroupEnlarges(b.items[j], c.items[i]);
      }
    }
  }

  lemma TableEnlarges(t: map<string, Json>, c: Json)
    requires (forall k :: k in t ==> ValidEvent(t[k])) && c.Obj? && forall k :: k in c.fields ==> NullEvent(c.fields[k])
    requires Contains(Obj(NormalTable(t)), c)
    ensures Enlarges(Obj(NormalTable(t)), c)
  {
    forall k | k in c.fields
      ensures k in t && Enlarges(NormalTable(t)[k], c.fields[k])
    {
      assert NullEvent(c.fields[k]) && Contains(Field(NormalTable(t), k), c.fields[k]);
      EventEnlarges(t[k], c.fields[k]);
    }
  }

  /** A normalised configuration that contains wanted settings whose only nulls
      are matchers holds them explicitly. */
  lemma NormalEnlarges(g: Json, want: Json)
    requires ValidConfig(g) && NullsOnlyAsMatchers(want) && Contains(Normal(g), want)
    ensures Enlarges(Normal(g), want)
  {
    var b := Normal(g);
    forall k | k in want.fields
      ensures k in b.fields && Enlarges(b.fields[k], want.fields[k])
    {
      assert Contains(Field(b.fields, k), want.fields[k]);
      if k == HOOKS {
        TableEnlarges(g.fields[HOOKS].fields, want.fields[HOOKS]);
      } else {
        NullFreeEnlarges(Field(b.fields, k), want.fields[k]);
      }
    }
  }

  /** checkCodexEffectiveConfig, after both sides are read. */
  predicate Accepts(got: Json, want: Json)
  {
    ValidConfig(want) && ValidConfig(got) && Contains(Normal(got), Normal(want))
  }

  lemma AcceptsItself(c: Json)
    requires ValidConfig(c)
    ensures Accepts(c, c)
  {
    Reflexive(Normal(c));
  }

  // ------------------------------------------- an enlarged configuration

  /** What a handler without `async` is taken to say. */
  function AsyncOf(h: map<string, Json>): Json
  {
    if ASYNC in h then h[ASYNC] else Bool(false)
  }

  /** `m` says at least what the handler `h` says, and is no more asynchronous. */
  predicate KeepsHandler(m: Json, h: Json)
    requires m.Obj? && h.Obj?
  {
    && (forall k :: k in h.fields && k != ASYNC ==> k in m.fields && Enlarges(m.fields[k], h.fields[k]))
    && Enlarges(AsyncOf(m.fields), AsyncOf(h.fields))
  }

  predicate KeepsMatcher(m: Json, g: Json)
  {
    if MatchesAll(g) then MatchesAll(m) else Enlarges(m, g)
  }

  /** Some handler of `ms` keeps `h`. */
  predicate KeptBy(ms: seq<Json>, h: Json)
    requires AllObjects(ms) && h.Obj?
  {
    exists j :: 0 <= j < |ms| && KeepsHandler(ms[j], h)
  }

  /** `m` says at least what the group `g` says, and is no more selective. */
  predicate KeepsGroup(m: Json, g: Json)
    requires ValidGroup(m) && ValidGroup(g)
  {
    && (forall k :: k in g.fields && k != MATCHER && k != HOOKS ==> k in m.fields && Enlarges(m.fields[k], g.fields[k]))
    && KeepsMatcher(Field(m.fields, MATCHER), Field(g.fields, MATCHER))
    && forall i :: 0 <= i < |g.fields[HOOKS].items| ==> KeptBy(m.fields[HOOKS].items, g.fields[HOOKS].items[i])
  }

  predicate GroupKept(ms: seq<Json>, g: Json)
    requires ValidGroups(ms) && ValidGroup(g)
  {
    exists j :: 0 <= j < |ms| && KeepsGroup(ms[j], g)
  }

  predicate KeepsEvent(u: Json, v: Json)
    requires ValidEvent(u) && ValidEvent(v)
  {
    if v.Arr? then u.Arr? && forall i :: 0 <= i < |v.items| ==> GroupKept(u.items, v.items[i])
    else Enlarges(u, v)
  }

  /** `more` keeps everything `got` says: outside the hook table it holds it; and
      each of its hook groups has a group there that is no more selective, with
      each of its handlers, none more asynchronous. */
  predicate Keeps(more: Json, got: Json)
    requires ValidConfig(more) && ValidConfig(got)
  {
    && (forall k :: k in got.fields && k != HOOKS ==> k in more.fields && Enlarges(more.fields[k], got.fields[k]))
    && forall k :: k in got.fields[HOOKS].fields ==>
         k in more.fields[HOOKS].fields && KeepsEvent(more.fields[HOOKS].fields[k], got.fields[HOOKS].fields[k])
  }

  lemma KeepsHandlerIff(m: Json, h: Json)
    requires m.Obj? && h.Obj?
    ensures Enlarges(NormalHandler(m), NormalHandler(h)) <==> KeepsHandler(m, h)
  {
    var nm, nh := NormalHandler(m).fields, NormalHandler(h).fields;
    assert nm[ASYNC] == AsyncOf(m.fields) && nh[ASYNC] == AsyncOf(h.fields);
    assert forall k :: k != ASYNC ==> (k in nm <==> k in m.fields) && (k in nh <==> k in h.fields);
    assert forall k :: k != ASYNC && k in nm ==> nm[k] == m.fields[k];
    assert forall k :: k != ASYNC && k in nh ==> nh[k] == h.fields[k];
  }

  lemma KeptByIff(ms: seq<Json>, h: Json)
    requires AllObjects(ms) && h.Obj?
    ensures EnlargesAny(NormalHandlers(ms), NormalHandler(h)) <==> KeptBy(ms, h)
  {
    forall j | 0 <= j < |ms|
      ensures Enlarges(NormalHandlers(ms)[j], NormalHandler(h)) <==> KeepsHandler(ms[j], h)
    {
      KeepsHandlerIff(ms[j], h);
    }
  }

  lemma HandlersIff(ms: seq<Json>, hs: seq<Json>)
    requires AllObjects(ms) && AllObjects(hs)
    ensures Enlarges(Arr(NormalHandlers(ms)), Arr(NormalHandlers(hs))) <==>
            forall i :: 0 <= i < |hs| ==> KeptBy(ms, hs[i])
  {
    forall i | 0 <= i < |hs|
      ensures EnlargesAny(NormalHandlers(ms), NormalHandlers(hs)[i]) <==> KeptBy(ms, hs[i])
    {
      KeptByIff(ms, hs[i]);
    }
  }

  lemma GroupFields(g: Json)
    requires ValidGroup(g)
    ensures var n := NormalGroup(g).fields;
            && (forall k :: k != MATCHER && k != HOOKS ==> (k in n <==> k in g.fields))
            && (forall k :: k != MATCHER && k != HOOKS && k in n ==> n[k] == g.fields[k])
            && MATCHER in n && HOOKS in n && n[HOOKS] == Arr(NormalHandlers(g.fields[HOOKS].items))
            && n[MATCHER] == if MatchesAll(Field(g.fields, MATCHER)) then Null else Field(g.fields, MATCHER)
  {
    assert MATCHER != HOOKS by { assert MATCHER[0] == 'm' && HOOKS[0] == 'h'; }
  }

  lemma KeepsGroupIff(m: Json, g: Json)
    requires ValidGroup(m) && ValidGroup(g)
    ensures Enlarges(NormalGroup(m), NormalGroup(g)) <==> KeepsGroup(m, g)
  {
    GroupFields(m);
    GroupFields(g);
    HandlersIff(m.fields[HOOKS].items, g.fields[HOOKS].items);
    var nm, ng := NormalGroup(m).fields, NormalGroup(g).fields;
    assert Enlarges(nm[MATCHER], ng[MATCHER]) <==>
           KeepsMatcher(Field(m.fields, MATCHER), Field(g.fields, MATCHER));
    assert Enlarges(NormalGroup(m), NormalGroup(g)) <==>
           forall k :: k in ng ==> k in nm && Enlarges(nm[k], ng[k]);
  }

  lemma GroupKeptIff(ms: seq<Json>, g: Json)
    requires ValidGroups(ms) && ValidGroup(g)
    ensures EnlargesAny(NormalGroups(ms), NormalGroup(g)) <==> GroupKept(ms, g)
  {
    forall j | 0 <= j < |ms|
      ensures Enlarges(NormalGroups(ms)[j], NormalGroup(g)) <==> KeepsGroup(ms[j], g)
    {
      KeepsGroupIff(ms[j], g);
    }
  }

  lemma KeepsEventIff(u: Json, v: Json)
    requires ValidEvent(u) && ValidEvent(v)
    ensures Enlarges(NormalEvent(u), NormalEvent(v)) <==> KeepsEvent(u, v)
  {
    if v.Arr? && u.Arr? {
      forall i | 0 <= i < |v.items|
        ensures EnlargesAny(NormalGroups(u.items), NormalGroups(v.items)[i]) <==> GroupKept(u.items, v.items[i])
      {
        GroupKeptIff(u.items, v.items[i]);
      }
    }
  }

  lemma KeepsTableIff(t: map<string, Json>, w: map<string, Json>)
    requires (forall k :: k in t ==> ValidEvent(t[k])) && forall k :: k in w ==> ValidEvent(w[k])
    ensures Enlarges(Obj(NormalTable(t)), Obj(NormalTable(w))) <==>
            forall k :: k in w ==> k in t && KeepsEvent(t[k], w[k])
  {
    forall k | k in w && k in t
      ensures Enlarges(NormalTable(t)[k], NormalTable(w)[k]) <==> KeepsEvent(t[k], w[k])
    {
      KeepsEventIff(t[k], w[k]);
    }
    var nt, nw := NormalTable(t), NormalTable(w);
    assert forall k :: (k in nt <==> k in t) && (k in nw <==> k in w);
    if Enlarges(Obj(nt), Obj(nw)) {
      forall k | k in w
        ensures k in t && KeepsEvent(t[k], w[k])
      {
        assert k in nw && Enlarges(nt[k], nw[k]);
      }
    }
  }

  /** Said on the configurations as they were loaded: the one, normalised, holds
      the other, normalised, exactly when it keeps everything that one says. */
  lemma KeepsIff(more: Json, got: Json)
    requires ValidConfig(more) && ValidConfig(got)
    ensures Enlarges(Normal(more), Normal(got)) <==> Keeps(more, got)
  {
    var m, g := Normal(more).fields, Normal(got).fields;
    KeepsTableIff(more.fields[HOOKS].fields, got.fields[HOOKS].fields);
    assert forall k :: k != HOOKS ==> (k in m <==> k in more.fields) && (k in g <==> k in got.fields);
    assert forall k :: k != HOOKS && k in m ==> m[k] == more.fields[k];
    assert forall k :: k != HOOKS && k in g ==> g[k] == got.fields[k];
    assert Enlarges(Normal(more), Normal(got)) <==> forall k :: k in g ==> k in m && Enlarges(m[k], g[k]);
  }

  /** A loaded configuration that is accepted stays accepted when it is replaced
      by one that keeps everything it says. */
  lemma EnlargedStaysAccepted(got: Json, more: Json, want: Json)
    requires Accepts(got, want) && NullsOnlyAsMatchers(Normal(want))
    requires ValidConfig(more) && Keeps(more, got)
    ensures Accepts(more, want)
  {
    KeepsIff(more, got);
    EnlargingContains(Normal(more), Normal(got));
    NormalEnlarges(got, Normal(want));
    ContainsThrough(Normal(more), Normal(got), Normal(want));
  }

  /** Whatever settings are wanted: if the one configuration is accepted for
      them, so is the other. */
  ghost predicate StaysAccepted(more: Json, got: Json)
  {
    forall want :: Accepts(got, want) && NullsOnlyAsMatchers(Normal(want)) ==> Accepts(more, want)
  }

  /** And by no other: with nulls only as matchers, everything accepted stays
      accepted exactly when nothing it says is lost. */
  lemma NullFreeStaysAccepted(got: Json, more: Json)
    requires ValidConfig(got) && ValidConfig(more) && NullsOnlyAsMatchers(Normal(got))
    ensures StaysAccepted(more, got) <==> Keeps(more, got)
  {
    if Keeps(more, got) {
      forall want | Accepts(got, want) && NullsOnlyAsMatchers(Normal(want))
        ensures Accepts(more, want)
      {
        EnlargedStaysAccepted(got, more, want);
      }
    }
    if StaysAccepted(more, got) {
      AcceptsItself(got);
      assert Accepts(more, got);
      NormalEnlarges(more, Normal(got));
      KeepsIff(more, got);
    }
  }

  /** A configuration with one event and one hook group. */
  function OneGroup(g: Json): Json
  {
    Obj(map[HOOKS := Obj(map["Stop" := Arr([g])])])
  }

  lemma OneGroupEnlarges(m: Json, g: Json)
    requires ValidGroup(m) && ValidGroup(g) && Enlarges(m, g)
    ensures ValidConfig(OneGroup(m)) && ValidConfig(OneGroup(g)) && Enlarges(OneGroup(m), OneGroup(g))
  {
    assert EnlargesAny([m], g) by { assert [m][0] == m; }
    assert Enlarges(Arr([m]), Arr([g]));
    assert Enlarges(Obj(map["Stop" := Arr([m])]), Obj(map["Stop" := Arr([g])]));
  }

  lemma OneGroupKeeps(m: Json, g: Json)
    requires ValidGroup(m) && ValidGroup(g) && Keeps(OneGroup(m), OneGroup(g))
    ensures KeepsGroup(m, g)
  {
    var u, v := Arr([m]), Arr([g]);
    assert OneGroup(g).fields[HOOKS].fields["Stop"] == v && OneGroup(m).fields[HOOKS].fields["Stop"] == u;
    assert KeepsEvent(u, v);
    assert v.items[0] == g && GroupKept(u.items, g);
  }

  /** A hook group with one handler that says nothing. */
  function PlainGroup(): Json
  {
    Obj(map[HOOKS := Arr([Obj(map[])])])
  }

  lemma PlainGroupNulls()
    ensures ValidGroup(PlainGroup()) && ValidConfig(OneGroup(PlainGroup()))
    ensures NullsOnlyAsMatchers(Normal(OneGroup(PlainGroup())))
  {
    var g := PlainGroup();
    GroupFields(g);
    var n := NormalGroup(g);
    var h := NormalHandlers([Obj(map[])]);
    assert h[0] == Obj(map[ASYNC := Bool(false)]) && NullFree(h[0]);
    assert NullFree(n.fields[HOOKS]) && NullGroup(n);
    var e := NormalEvent(Arr([g]));
    assert e.items[0] == n && NullEvent(e);
  }

  lemma PlainIsNotKept(m: Json)
    requires ValidGroup(m)
    requires !MatchesAll(Field(m.fields, MATCHER)) ||
             forall j :: 0 <= j < |m.fields[HOOKS].items| ==> AsyncOf(m.fields[HOOKS].items[j].fields) == Bool(true)
    ensures ValidGroup(PlainGroup()) && !KeepsGroup(m, PlainGroup())
  {
    var g, ms, h := PlainGroup(), m.fields[HOOKS].items, Obj(map[]);
    assert MatchesAll(Field(g.fields, MATCHER)) && g.fields[HOOKS].items[0] == h && AsyncOf(h.fields) == Bool(false);
    if MatchesAll(Field(m.fields, MATCHER)) {
      forall j | 0 <= j < |ms|
        ensures !KeepsHandler(ms[j], h)
      {
        assert AsyncOf(ms[j].fields) == Bool(true);
      }
      assert !KeptBy(ms, g.fields[HOOKS].items[0]);
    }
  }

  /** The inputs that show it: a group that matched everything is given a matcher,
      or its handler is made asynchronous. The configuration only grew, and the
      settings it was accepted for are refused. */
  lemma EnlargedIsRefused(m: Json)
    requires ValidGroup(m) && Enlarges(m, PlainGroup())
    requires !MatchesAll(Field(m.fields, MATCHER)) ||
             forall j :: 0 <= j < |m.fields[HOOKS].items| ==> AsyncOf(m.fields[HOOKS].items[j].fields) == Bool(true)
    ensures var got, more := OneGroup(PlainGroup()), OneGroup(m);
            Enlarges(more, got) && Accepts(got, got) && ValidConfig(more) && !Accepts(more, got)
  {
    var g := PlainGroup();
    var got, more := OneGroup(g), OneGroup(m);
    PlainGroupNulls();
    OneGroupEnlarges(m, g);
    AcceptsItself(got);
    PlainIsNotKept(m);
    if Accepts(more, got) {
      NormalEnlarges(more, Normal(got));
      KeepsIff(more, got);
      OneGroupKeeps(m, g);
    }
  }

  /** Such groups there are. */
  lemma SelectiveGroups()
    ensures var m := Obj(map[HOOKS := Arr([Obj(map[])]), MATCHER := Str("Bash")]);
            ValidGroup(m) && Enlarges(m, PlainGroup()) && !MatchesAll(Field(m.fields, MATCHER))
    ensures var m := Obj(map[HOOKS := Arr([Obj(map[ASYNC := Bool(true)])])]);
            ValidGroup(m) && Enlarges(m, PlainGroup()) && AsyncOf(m.fields[HOOKS].items[0].fields) == Bool(true)
  {
    assert MATCHER != HOOKS by { assert MATCHER[0] == 'm' && HOOKS[0] == 'h'; }
    var h, a := Obj(map[]), Obj(map[ASYNC := Bool(true)]);
    assert Enlarges(h, h) && Enlarges(a, h);
    assert EnlargesAny([h], h) by { assert [h][0] == h; }
    assert EnlargesAny([a], h) by { assert [a][0] == a; }
    assert Enlarges(Arr([h]), Arr([h])) && Enlarges(Arr([a]), Arr([h]));
    assert "Bash"[0] == 'B' && |"Bash"| == 4;
  }
}


