/**
 What a loaded Codex configuration says, its nulls aside: wanted settings hold
 nulls only as the matchers of hook groups, so nothing else of a loaded null
 can be asked for.
 */
module CodexNulls {
  import opened CodexConfig

  /** A value without the null fields and null items in it. */
  function Said(c: Json): (s: Json)
    ensures c.Obj? ==> s.Obj?
    ensures c.Arr? ==> s.Arr?
    decreases c, if c.Arr? then |c.items| + 1 else 0
  {
    match c
    case Obj(w) => Obj(map k | k in w && w[k] != Null :: Said(w[k]))
    case Arr(w) => Arr(SaidUpTo(c, |w|))
    case _ => c
  }

  function SaidUpTo(c: Json, n: nat): seq<Json>
    requires c.Arr? && n <= |c.items|
    decreases c, n
  {
    if n == 0 then [] else
    SaidUpTo(c, n - 1) + if c.items[n - 1] == Null then [] else [Said(c.items[n - 1])]
  }

  lemma {:induction false} SaidItems(c: Json, n: nat, x: Json)
    requires c.Arr? && n <= |c.items|
    ensures x in SaidUpTo(c, n) <==> exists i :: 0 <= i < n && c.items[i] != Null && x == Said(c.items[i])
  {
    if n > 0 {
      SaidItems(c, n - 1, x);
    }
  }

  lemma {:induction false} SaidNullFree(c: Json)
    requires c != Null
    ensures NullFree(Said(c))
    decreases c
  {
    match c
    case Obj(w) =>
      forall k | k in w && w[k] != Null
        ensures NullFree(Said(w[k]))
      {
        SaidNullFree(w[k]);
      }
    case Arr(w) =>
      var s := SaidUpTo(c, |w|);
      forall i | 0 <= i < |s|
        ensures NullFree(s[i])
      {
        SaidItems(c, |w|, s[i]);
        var j :| 0 <= j < |w| && w[j] != Null && s[i] == Said(w[j]);
        SaidNullFree(w[j]);
      }
    case _ =>
  }

  /** A value holds all of it. */
  lemma {:induction false} SaidHeld(c: Json)
    ensures Enlarges(c, Said(c))
    decreases c
  {
    match c
    case Obj(w) =>
      forall k | k in w && w[k] != Null
        ensures Enlarges(w[k], Said(w[k]))
      {
        SaidHeld(w[k]);
      }
    case Arr(w) =>
      var s := SaidUpTo(c, |w|);
      forall i | 0 <= i < |s|
        ensures EnlargesAny(w, s[i])
      {
        SaidItems(c, |w|, s[i]);
        var j :| 0 <= j < |w| && w[j] != Null && s[i] == Said(w[j]);
        SaidHeld(w[j]);
      }
    case _ =>
  }

  /** What a value contains without nulls, it contains without its own. */
  lemma {:induction false} SaidContains(b: Json, c: Json)
    requires NullFree(c) && Contains(b, c)
    ensures b != Null && Contains(Said(b), c)
    decreases c
  {
    match c
    case Obj(w) =>
      var s := Said(b).fields;
      forall k | k in w
        ensures Contains(Field(s, k), w[k])
      {
        assert NullFree(w[k]) && Contains(Field(b.fields, k), w[k]);
        SaidContains(Field(b.fields, k), w[k]);
      }
    case Arr(w) =>
      forall i | 0 <= i < |w|
        ensures ContainsAny(Said(b).items, w[i])
      {
        assert NullFree(w[i]) && ContainsAny(b.items, w[i]);
        var j :| 0 <= j < |b.items| && Contains(b.items[j], w[i]);
        SaidContains(b.items[j], w[i]);
        SaidItems(b, |b.items|, Said(b.items[j]));
      }
    case _ =>
  }

  // ------------------------------------------------------------ the hook table

  /** A handler whose `async` is null is no handler any wanted one can match. */
  predicate Speaks(h: Json)
  {
    h.Obj? && !(ASYNC in h.fields && h.fields[ASYNC] == Null)
  }

  function SaidHandlers(hs: seq<Json>): (r: seq<Json>)
    requires AllObjects(hs)
    ensures AllObjects(r)
  {
    if hs == [] then [] else
    var n := |hs| - 1;
    SaidHandlers(hs[..n]) + if Speaks(hs[n]) then [Said(hs[n])] else []
  }

  lemma {:induction false} SaidHandlersAt(hs: seq<Json>, x: Json)
    requires AllObjects(hs)
    ensures x in SaidHandlers(hs) <==> exists i :: 0 <= i < |hs| && Speaks(hs[i]) && x == Said(hs[i])
  {
    if hs != [] {
      var n := |hs| - 1;
      SaidHandlersAt(hs[..n], x);
      assert x in SaidHandlers(hs) <==> x in SaidHandlers(hs[..n]) || (Speaks(hs[n]) && x == Said(hs[n]));
      assert forall i :: 0 <= i < n ==> hs[..n][i] == hs[i];
    }
  }

  function SaidGroup(g: Json): (s: Json)
    requires ValidGroup(g)
    ensures ValidGroup(s)
  {
    var hs := SaidHandlers(g.fields[HOOKS].items);
    Obj(map k | k in g.fields && g.fields[k] != Null :: if k == HOOKS then Arr(hs) else Said(g.fields[k]))
  }

  function SaidEvent(v: Json): (s: Json)
    requires ValidEvent(v)
    ensures ValidEvent(s) && (v.Arr? <==> s.Arr?)
    ensures v.Arr? ==> |s.items| == |v.items| && forall i :: 0 <= i < |v.items| ==> s.items[i] == SaidGroup(v.items[i])
  {
    if v.Arr? then Arr(seq(|v.items|, i requires 0 <= i < |v.items| => SaidGroup(v.items[i]))) else Said(v)
  }

  /** A loaded configuration without its nulls, and without the handlers nothing
      can match. */
  function SaidConfig(c: Json): (s: Json)
    requires ValidConfig(c)
    ensures ValidConfig(s)
  {
    var t := c.fields[HOOKS].fields;
    var table := Obj(map e | e in t && t[e] != Null :: SaidEvent(t[e]));
    Obj(map k | k in c.fields && c.fields[k] != Null :: if k == HOOKS then table else Said(c.fields[k]))
  }

  // ------------------------------------------------ it is held, without nulls

  lemma HandlerHeld(h: Json)
    requires Speaks(h)
    ensures KeepsHandler(h, Said(h)) && NullFree(NormalHandler(Said(h)))
  {
    SaidHeld(h);
    SaidNullFree(h);
  }

  lemma GroupHeld(g: Json)
    requires ValidGroup(g)
    ensures KeepsGroup(g, SaidGroup(g)) && NullGroup(NormalGroup(SaidGroup(g)))
  {
    var s, hs := SaidGroup(g), g.fields[HOOKS].items;
    var rs := SaidHandlers(hs);
    forall i | 0 <= i < |rs|
      ensures KeptBy(hs, rs[i]) && NullFree(NormalHandler(rs[i]))
    {
      SaidHandlersAt(hs, rs[i]);
      var j :| 0 <= j < |hs| && Speaks(hs[j]) && rs[i] == Said(hs[j]);
      HandlerHeld(hs[j]);
    }
    forall k | k in g.fields && g.fields[k] != Null
      ensures Enlarges(g.fields[k], Said(g.fields[k])) && NullFree(Said(g.fields[k]))
    {
      SaidHeld(g.fields[k]);
      SaidNullFree(g.fields[k]);
    }
    GroupFields(s);
    assert s.fields[HOOKS] == Arr(rs);
  }

  lemma EventHeld(v: Json)
    requires ValidEvent(v) && v != Null
    ensures KeepsEvent(v, SaidEvent(v)) && NullEvent(NormalEvent(SaidEvent(v)))
  {
    if v.Arr? {
      forall i | 0 <= i < |v.items|
        ensures GroupKept(v.items, SaidGroup(v.items[i])) && NullGroup(NormalGroup(SaidGroup(v.items[i])))
      {
        GroupHeld(v.items[i]);
      }
    } else {
      SaidHeld(v);
      SaidNullFree(v);
    }
  }

  lemma ConfigHeld(c: Json)
    requires ValidConfig(c)
    ensures Keeps(c, SaidConfig(c)) && NullsOnlyAsMatchers(Normal(SaidConfig(c)))
  {
    var t := c.fields[HOOKS].fields;
    forall e | e in t && t[e] != Null
      ensures KeepsEvent(t[e], SaidEvent(t[e])) && NullEvent(NormalEvent(SaidEvent(t[e])))
    {
      EventHeld(t[e]);
    }
    forall k | k in c.fields && c.fields[k] != Null
      ensures Enlarges(c.fields[k], Said(c.fields[k])) && NullFree(Said(c.fields[k]))
    {
      SaidHeld(c.fields[k]);
      SaidNullFree(c.fields[k]);
    }
  }

  // ------------------------------------------------ nothing wanted is lost

  lemma HandlerSays(h: Json, want: Json)
    requires h.Obj? && want.Obj? && NullFree(want) && ASYNC in want.fields && Contains(NormalHandler(h), want)
    ensures Speaks(h) && Contains(NormalHandler(Said(h)), want)
  {
    assert Contains(Field(NormalHandler(h).fields, ASYNC), want.fields[ASYNC]) && NullFree(want.fields[ASYNC]);
    SaidContains(NormalHandler(h), want);
    assert Speaks(h);
    assert NormalHandler(Said(h)).fields == Said(NormalHandler(h)).fields;
  }

  lemma HandlersSay(hs: seq<Json>, ws: seq<Json>)
    requires AllObjects(hs) && AllObjects(ws) && NullFree(Arr(NormalHandlers(ws)))
    requires Contains(Arr(NormalHandlers(hs)), Arr(NormalHandlers(ws)))
    ensures Contains(Arr(NormalHandlers(SaidHandlers(hs))), Arr(NormalHandlers(ws)))
  {
    var nh, nw, rs := NormalHandlers(hs), NormalHandlers(ws), SaidHandlers(hs);
    forall i | 0 <= i < |nw|
      ensures ContainsAny(NormalHandlers(rs), nw[i])
    {
      assert ContainsAny(nh, nw[i]) && NullFree(nw[i]);
      var j :| 0 <= j < |nh| && Contains(nh[j], nw[i]);
      HandlerSays(hs[j], nw[i]);
      SaidHandlersAt(hs, Said(hs[j]));
      var m :| 0 <= m < |rs| && rs[m] == Said(hs[j]);
      assert Contains(NormalHandlers(rs)[m], nw[i]);
    }
  }

  lemma GroupSays(g: Json, want: Json)
    requires ValidGroup(g) && ValidGroup(want) && NullGroup(NormalGroup(want))
    requires Contains(NormalGroup(g), NormalGroup(want))
    ensures Contains(NormalGroup(SaidGroup(g)), NormalGroup(want))
  {
    var s := SaidGroup(g);
    var ng, ns, nw := NormalGroup(g).fields, NormalGroup(s).fields, NormalGroup(want).fields;
    GroupFields(g);
    GroupFields(s);
    GroupFields(want);
    forall k | k in nw
      ensures Contains(Field(ns, k), nw[k])
    {
      assert Contains(Field(ng, k), nw[k]);
      if k == HOOKS {
        HandlersSay(g.fields[HOOKS].items, want.fields[HOOKS].items);
        assert s.fields[HOOKS] == Arr(SaidHandlers(g.fields[HOOKS].items));
      } else if NullFree(nw[k]) {
        SaidContains(Field(ng, k), nw[k]);
      }
    }
  }

  lemma EventSays(v: Json, want: Json)
    requires ValidEvent(v) && ValidEvent(want) && NullEvent(NormalEvent(want))
    requires Contains(NormalEvent(v), NormalEvent(want))
    ensures v != Null && Contains(NormalEvent(SaidEvent(v)), NormalEvent(want))
  {
    if want.Arr? {
      forall i | 0 <= i < |want.items|
        ensures ContainsAny(NormalEvent(SaidEvent(v)).items, NormalGroup(want.items[i]))
      {
        EventSaysAt(v, want, i);
      }
    } else {
      SaidContains(NormalEvent(v), want);
    }
  }

  lemma EventSaysAt(v: Json, want: Json, i: nat)
    requires ValidEvent(v) && ValidEvent(want) && want.Arr? && NullEvent(NormalEvent(want)) && i < |want.items|
    requires Contains(NormalEvent(v), NormalEvent(want))
    ensures v.Arr? && ContainsAny(NormalEvent(SaidEvent(v)).items, NormalGroup(want.items[i]))
  {
    var w := NormalEvent(want).items;
    assert ContainsAny(NormalEvent(v).items, w[i]);
    var j :| 0 <= j < |v.items| && Contains(NormalEvent(v).items[j], w[i]);
    assert NullFree(NormalEvent(want)) ==> NullFree(w[i]);
    assert w[i].Obj? && NullGroup(w[i]);
    GroupSays(v.items[j], want.items[i]);
    assert Contains(NormalEvent(SaidEvent(v)).items[j], w[i]);
  }

  lemma ConfigSays(c: Json, want: Json)
    requires Accepts(c, want) && NullsOnlyAsMatchers(Normal(want))
    ensures Accepts(SaidConfig(c), want)
  {
    var nc, ns, nw := Normal(c).fields, Normal(SaidConfig(c)).fields, Normal(want).fields;
    forall k | k in nw
      ensures Contains(Field(ns, k), nw[k])
    {
      assert Contains(Field(nc, k), nw[k]);
      if k == HOOKS {
        TableSays(c, want);
      } else {
        SaidContains(Field(nc, k), nw[k]);
      }
    }
  }

  lemma TableSays(c: Json, want: Json)
    requires Accepts(c, want) && NullsOnlyAsMatchers(Normal(want))
    ensures Contains(Normal(SaidConfig(c)).fields[HOOKS], Normal(want).fields[HOOKS])
  {
    var t, w := c.fields[HOOKS].fields, want.fields[HOOKS].fields;
    var s := SaidConfig(c).fields[HOOKS].fields;
    assert Contains(Normal(c).fields[HOOKS], Normal(want).fields[HOOKS]);
    forall e | e in w
      ensures Contains(Field(NormalTable(s), e), NormalTable(w)[e])
    {
      assert Contains(Field(NormalTable(t), e), NormalTable(w)[e]) && NullEvent(NormalTable(w)[e]);
      assert e in t;
      EventSays(t[e], w[e]);
    }
  }

  // ----------------------------------------------------------- the theorem

  /** The nulls of a loaded configuration decide nothing. */
  lemma SaidDecides(got: Json, want: Json)
    requires ValidConfig(got) && ValidConfig(want) && NullsOnlyAsMatchers(Normal(want))
    ensures Accepts(got, want) <==> Accepts(SaidConfig(got), want)
  {
    if Accepts(got, want) {
      ConfigSays(got, want);
    }
    if Accepts(SaidConfig(got), want) {
      ConfigHeld(got);
      EnlargedStaysAccepted(SaidConfig(got), got, want);
    }
  }

  /** Everything accepted for one loaded configuration is accepted for another
      exactly when that one keeps what the first says, its nulls aside. */
  lemma StaysAcceptedIff(got: Json, more: Json)
    requires ValidConfig(got) && ValidConfig(more)
    ensures StaysAccepted(more, got) <==> Keeps(more, SaidConfig(got))
  {
    var s := SaidConfig(got);
    forall want | ValidConfig(want) && NullsOnlyAsMatchers(Normal(want))
      ensures Accepts(got, want) <==> Accepts(s, want)
    {
      SaidDecides(got, want);
    }
    ConfigHeld(got);
    NullFreeStaysAccepted(s, more);
    assert StaysAccepted(more, got) <==> StaysAccepted(more, s);
  }
}
