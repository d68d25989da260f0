/** The few text operations of Go's strings package the models share. */
module Text {

  /** No element twice. */
  predicate Distinct<T(==)>(s: seq<T>)
  {
    forall i, j :: 0 <= i < j < |s| ==> s[i] != s[j]
  }

  /** The first index of `c` in `s`, or |s| when there is none. */
  function Find<T(==)>(s: seq<T>, c: T): (i: nat)
    ensures i <= |s|
    ensures i < |s| ==> s[i] == c
    ensures forall j :: 0 <= j < i ==> s[j] != c
  {
    if s == [] || s[0] == c then 0 else 1 + Find(s[1..], c)
  }

  /** strings.Split(s, c): always at least one piece. */
  function Split(s: string, c: char): (r: seq<string>)
    ensures |r| > 0
    decreases |s|
  {
    var i := Find(s, c);
    if i == |s| then [s] else [s[..i]] + Split(s[i + 1..], c)
  }

  /** strings.Join(pieces, c). */
  function Join(pieces: seq<string>, c: char): string
  {
    if pieces == [] then "" else
    if |pieces| == 1 then pieces[0] else
    pieces[0] + [c] + Join(pieces[1..], c)
  }

  /** strings.TrimLeft, for one character. */
  function TrimLeft(s: string, c: char): (r: string)
    ensures r == "" || r[0] != c
  {
    if s != "" && s[0] == c then TrimLeft(s[1..], c) else s
  }

  /** strings.TrimRight, for one character. */
  function TrimRight(s: string, c: char): (r: string)
    ensures r <= s && (r == "" || r[|r| - 1] != c) && forall i :: |r| <= i < |s| ==> s[i] == c
  {
    if s != "" && s[|s| - 1] == c then TrimRight(s[..|s| - 1], c) else s
  }

  /** strings.Trim, for one character. */
  function Trim(s: string, c: char): string
  {
    TrimRight(TrimLeft(s, c), c)
  }

  lemma {:induction false} TrimLeftNothing(s: string, c: char)
    ensures TrimLeft(s, c) == "" <==> forall i :: 0 <= i < |s| ==> s[i] == c
  {
    if s != "" && s[0] == c {
      TrimLeftNothing(s[1..], c);
      assert forall i :: 0 < i < |s| ==> s[i] == s[1..][i - 1];
    }
  }

  lemma {:induction false} TrimRightKeeps(s: string, c: char)
    requires s == "" || s[0] != c
    ensures TrimRight(s, c) == "" <==> s == ""
  {
    if s != "" && s[|s| - 1] == c {
      TrimRightKeeps(s[..|s| - 1], c);
    }
  }

  /** Nothing is left exactly of a text of that one character. */
  lemma TrimNothing(s: string, c: char)
    ensures Trim(s, c) == "" <==> forall i :: 0 <= i < |s| ==> s[i] == c
  {
    TrimLeftNothing(s, c);
    TrimRightKeeps(TrimLeft(s, c), c);
  }

  /** strings.TrimPrefix. */
  function TrimPrefix(s: string, p: string): string
  {
    if p <= s then s[|p|..] else s
  }

  /** strings.Contains, as a search from the left. */
  predicate Contains(s: string, t: string)
    decreases |s|
  {
    t <= s || (|s| > 0 && Contains(s[1..], t))
  }

  /** What strings.Cut keeps in front of the first occurrence of `t`. */
  function Before(s: string, t: string): (r: string)
    ensures r <= s
    decreases |s|
  {
    if t <= s || s == [] then [] else [s[0]] + Before(s[1..], t)
  }

  lemma FindAppend<T>(l: seq<T>, rest: seq<T>, c: T)
    requires c !in l
    ensures Find(l + [c] + rest, c) == |l|
  {
    var s := l + [c] + rest;
    assert s[|l|] == c;
    assert forall j :: 0 <= j < |l| ==> s[j] == l[j];
  }

  lemma FindNone(l: string, c: char)
    requires c !in l
    ensures Find(l, c) == |l|
  {}

  lemma SplitNone(l: string, c: char)
    requires c !in l
    ensures Split(l, c) == [l]
  {
    FindNone(l, c);
  }

  lemma SplitCons(l: string, rest: string, c: char)
    requires c !in l
    ensures Split(l + [c] + rest, c) == [l] + Split(rest, c)
  {
    FindAppend(l, rest, c);
    var s := l + [c] + rest;
    assert s[..|l|] == l && s[|l| + 1..] == rest;
  }

  /** Every text is one piece without `c`, or such a piece, `c`, and the rest. */
  lemma SplitCases(s: string, c: char) returns (l: string, rest: string)
    requires c in s
    ensures c !in l && s == l + [c] + rest && Split(s, c) == [l] + Split(rest, c)
  {
    var i := Find(s, c);
    l, rest := s[..i], s[i + 1..];
    assert s == l + [c] + rest;
    SplitCons(l, rest, c);
  }

  lemma {:induction false} SplitPieces(s: string, c: char)
    ensures forall i :: 0 <= i < |Split(s, c)| ==> c !in Split(s, c)[i]
    decreases |s|
  {
    if c in s {
      var l, rest := SplitCases(s, c);
      SplitPieces(rest, c);
    } else {
      SplitNone(s, c);
    }
  }

  lemma {:induction false} SplitJoin(pieces: seq<string>, c: char)
    requires |pieces| > 0
    requires forall i :: 0 <= i < |pieces| ==> c !in pieces[i]
    ensures Split(Join(pieces, c), c) == pieces
  {
    if |pieces| == 1 {
      SplitNone(pieces[0], c);
    } else {
      SplitCons(pieces[0], Join(pieces[1..], c), c);
      SplitJoin(pieces[1..], c);
    }
  }

  lemma {:induction false} JoinSplit(s: string, c: char)
    ensures Join(Split(s, c), c) == s
    decreases |s|
  {
    if c in s {
      var l, rest := SplitCases(s, c);
      JoinSplit(rest, c);
      assert Split(s, c)[1..] == Split(rest, c);
    } else {
      SplitNone(s, c);
    }
  }

  lemma {:induction false} ContainsMiddle(a: string, t: string, b: string)
    ensures Contains(a + t + b, t)
  {
    if a == [] {
      assert a + t + b == t + b;
    } else {
      ContainsMiddle(a[1..], t, b);
      assert (a + t + b)[1..] == a[1..] + t + b;
    }
  }

  /** An occurrence lies whole in `s` at some offset, and the other way round. */
  lemma {:induction false} ContainsAt(s: string, t: string)
    ensures Contains(s, t) <==> exists k :: 0 <= k <= |s| && t <= s[k..]
  {
    assert s[0..] == s;
    if !(t <= s) && |s| > 0 {
      ContainsAt(s[1..], t);
      forall k | 0 < k <= |s|
        ensures s[1..][k - 1..] == s[k..]
      {}
      if k :| 0 <= k <= |s| && t <= s[k..] {
        assert t <= s[1..][k - 1..];
      }
      if k :| 0 <= k <= |s[1..]| && t <= s[1..][k..] {
        assert t <= s[k + 1..];
      }
    }
  }

  lemma {:induction false} SplitConcat(a: string, b: string, c: char)
    ensures Split(a + [c] + b, c) == Split(a, c) + Split(b, c)
    decreases |a|
  {
    if c in a {
      var l, rest := SplitCases(a, c);
      SplitConcat(rest, b, c);
      assert a + [c] + b == l + [c] + (rest + [c] + b);
      SplitCons(l, rest + [c] + b, c);
    } else {
      SplitNone(a, c);
      SplitCons(a, b, c);
    }
  }

  lemma {:induction false} JoinAvoids(pieces: seq<string>, c: char, d: char)
    requires c != d
    requires forall i :: 0 <= i < |pieces| ==> d !in pieces[i]
    ensures d !in Join(pieces, c)
  {
    if |pieces| > 1 {
      JoinAvoids(pieces[1..], c, d);
    }
  }

  lemma {:induction false} SplitAvoids(s: string, c: char, d: char)
    requires d !in s
    ensures forall i :: 0 <= i < |Split(s, c)| ==> d !in Split(s, c)[i]
    decreases |s|
  {
    if c in s {
      var l, rest := SplitCases(s, c);
      SplitAvoids(rest, c, d);
    } else {
      SplitNone(s, c);
    }
  }

  /** ASCII letters in lower case. */
  function Lower(s: string): (r: string)
    ensures |r| == |s|
  {
    seq(|s|, i requires 0 <= i < |s| => if 'A' <= s[i] <= 'Z' then s[i] - 'A' + 'a' else s[i])
  }

  /** The same letter, one of them perhaps a capital. */
  predicate SameLetter(a: char, b: char)
  {
    || a == b
    || ('a' <= a <= 'z' && b as int == a as int - 32)
    || ('a' <= b <= 'z' && a as int == b as int - 32)
  }

  /** Two texts are one in lower case exactly when they differ in letter case
      alone. */
  lemma LowerIff(a: string, b: string)
    ensures Lower(a) == Lower(b) <==> |a| == |b| && forall i :: 0 <= i < |a| ==> SameLetter(a[i], b[i])
  {
    if |a| == |b| {
      forall i | 0 <= i < |a|
        ensures Lower(a)[i] == Lower(b)[i] <==> SameLetter(a[i], b[i])
      {
      }
    }
  }

  // -------------------------------------------------------------- fields

  /** unicode.IsSpace: the characters with Unicode's White_Space property. */
  predicate IsSpace(c: char)
  {
    || '\t' <= c <= '\r' || c == ' ' || c == '\U{85}' || c == '\U{a0}' || c == '\U{1680}'
    || '\U{2000}' <= c <= '\U{200a}' || c == '\U{2028}' || c == '\U{2029}' || c == '\U{202f}'
    || c == '\U{205f}' || c == '\U{3000}'
  }

  /** The twenty-five of them. */
  lemma SpacesAre(c: char)
    ensures IsSpace(c) <==>
            c in {'\U{9}', '\U{a}', '\U{b}', '\U{c}', '\U{d}', '\U{20}', '\U{85}', '\U{a0}', '\U{1680}', '\U{2000}',
                  '\U{2001}', '\U{2002}', '\U{2003}', '\U{2004}', '\U{2005}', '\U{2006}', '\U{2007}', '\U{2008}',
                  '\U{2009}', '\U{200a}', '\U{2028}', '\U{2029}', '\U{202f}', '\U{205f}', '\U{3000}'}
  {
  }

  predicate Solid(s: string)
  {
    s != [] && forall i :: 0 <= i < |s| ==> !IsSpace(s[i])
  }

  function WordEnd(s: string): (k: nat)
    ensures k <= |s|
    ensures forall i :: 0 <= i < k ==> !IsSpace(s[i])
    ensures k < |s| ==> IsSpace(s[k])
  {
    if s == [] || IsSpace(s[0]) then 0 else 1 + WordEnd(s[1..])
  }

  /** strings.Fields: the runs of non-space characters. */
  function Fields(s: string): seq<string>
    decreases |s|
  {
    if s == [] then [] else
    if IsSpace(s[0]) then Fields(s[1..]) else
    var k := WordEnd(s);
    [s[..k]] + Fields(s[k..])
  }

  lemma {:induction false} FieldsSolid(s: string, i: nat)
    requires i < |Fields(s)|
    ensures Solid(Fields(s)[i])
    decreases |s|
  {
    if IsSpace(s[0]) {
      FieldsSolid(s[1..], i);
    } else if i > 0 {
      FieldsSolid(s[WordEnd(s)..], i - 1);
    }
  }

  lemma FieldsCons(w: string, rest: string)
    requires Solid(w)
    requires rest == [] || IsSpace(rest[0])
    ensures Fields(w + rest) == [w] + Fields(rest)
  {
    var s := w + rest;
    var k := WordEnd(s);
    assert forall i :: 0 <= i < |w| ==> s[i] == w[i];
    assert rest != [] ==> s[|w|] == rest[0];
    assert k == |w|;
    assert s[..k] == w && s[k..] == rest;
    assert s[0] == w[0];
  }

  lemma FieldsWord(w: string, rest: string)
    requires Solid(w)
    ensures Fields(w + " " + rest) == [w] + Fields(rest)
  {
    var tail := " " + rest;
    assert w + " " + rest == w + tail;
    FieldsCons(w, tail);
    assert tail[0] == ' ' && tail[1..] == rest;
  }

  lemma FieldsTwo(a: string, b: string, rest: string)
    requires Solid(a) && Solid(b)
    ensures Fields(a + " " + b + " " + rest) == [a, b] + Fields(rest)
  {
    var tail := b + " " + rest;
    assert a + " " + b + " " + rest == a + " " + tail;
    FieldsWord(a, tail);
    FieldsWord(b, rest);
  }

  lemma FieldsLast(w: string)
    requires Solid(w)
    ensures Fields(w) == [w]
  {
    FieldsCons(w, "");
    assert w + "" == w;
  }

  /** No space in front of another character. */
  predicate Unbroken(s: string)
  {
    forall i, j :: 0 <= i < j < |s| && IsSpace(s[i]) ==> IsSpace(s[j])
  }

  lemma {:induction false} NoFields(s: string)
    ensures Fields(s) == [] <==> forall i :: 0 <= i < |s| ==> IsSpace(s[i])
    decreases |s|
  {
    if s != [] && IsSpace(s[0]) {
      NoFields(s[1..]);
      assert forall i :: 0 < i < |s| ==> s[i] == s[1..][i - 1];
    }
  }

  lemma WordBegins(p: string, s: string)
    requires Solid(p) && p <= s
    ensures p <= s[..WordEnd(s)]
  {
    assert forall i :: 0 <= i < |p| ==> s[i] == p[i] && !IsSpace(p[i]);
  }

  /** A text that begins with a word is one field exactly when it is unbroken. */
  lemma OneField(s: string)
    requires s != [] && !IsSpace(s[0])
    ensures Fields(s) != [] && Fields(s)[0] == s[..WordEnd(s)]
    ensures |Fields(s)| == 1 <==> Unbroken(s)
  {
    var k := WordEnd(s);
    NoFields(s[k..]);
    assert |Fields(s)| == 1 <==> Fields(s[k..]) == [];
    SpacesBehind(s, k);
  }

  lemma SpacesBehind(s: string, k: nat)
    requires k <= |s| && (forall i :: 0 <= i < k ==> !IsSpace(s[i])) && (k < |s| ==> IsSpace(s[k]))
    ensures Unbroken(s) <==> forall i :: 0 <= i < |s[k..]| ==> IsSpace(s[k..][i])
  {
    assert forall i :: 0 <= i < |s[k..]| ==> s[k..][i] == s[k + i];
    assert forall i :: k <= i < |s| ==> s[i] == s[k..][i - k];
  }
}
