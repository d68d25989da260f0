/**
 The single-quoted words in innsegl's git hooks: the printer (shellQuoteSingle
 in link.go), the parser that reads one back (parseSingleQuoted in
 doctorrights.go), and what a POSIX shell makes of them (sections 2.2.1 and
 2.2.2 of the Shell Command Language, IEEE Std 1003.1, XCU chapter 2).
 */
module ShellQuoting {
  import opened Options
  import opened Text

  /** The close-escape-reopen form of a quote inside single quotes. */
  const REOPEN := "'\\''"
  /** What follows the closing quote when the word goes on. */
  const GOES_ON := "\\''"

  function EscapeChar(c: char): string
  {
    if c == '\'' then REOPEN else [c]
  }

  function Escape(s: string): string
  {
    if s == [] then [] else EscapeChar(s[0]) + Escape(s[1..])
  }

  /** shellQuoteSingle. */
  function ShellQuote(s: string): string
  {
    "'" + Escape(s) + "'"
  }

  // -------------------------------------------------------------- parsing

  /** A parsed word: its value, and how much text it took. */
  datatype Word = Word(value: string, length: nat)

  function Prepend(v: string, n: nat, w: Option<Word>): Option<Word>
  {
    match w
    case None => None
    case Some(Word(v', n')) => Some(Word(v + v', n + n'))
  }

  /** The rest of a word whose opening quote has been read. */
  function ParseRest(s: string): (r: Option<Word>)
    decreases |s|
  {
    if s == [] then None else
    if s[0] != '\'' then Prepend([s[0]], 1, ParseRest(s[1..])) else
    if GOES_ON <= s[1..] then Prepend("'", 4, ParseRest(s[4..])) else
    Some(Word("", 1))
  }

  function ParseQuoted(s: string): Option<Word>
  {
    if "'" <= s then Prepend("", 1, ParseRest(s[1..])) else None
  }

  lemma PrependTwice(a: string, m: nat, b: string, n: nat, w: Option<Word>)
    ensures Prepend(a, m, Prepend(b, n, w)) == Prepend(a + b, m + n, w)
  {
    if w.Some? {
      assert a + (b + w.value.value) == a + b + w.value.value;
    }
  }

  /** Up to the next quote every character is itself. */
  lemma {:induction false} ParseRun(a: string, s: string)
    requires '\'' !in a
    ensures ParseRest(a + s) == Prepend(a, |a|, ParseRest(s))
  {
    if a == [] {
      assert a + s == s;
      assert ParseRest(s).Some? ==> "" + ParseRest(s).value.value == ParseRest(s).value.value;
    } else {
      ParseRun(a[1..], s);
      assert (a + s)[0] == a[0] && (a + s)[1..] == a[1..] + s;
      PrependTwice([a[0]], 1, a[1..], |a| - 1, ParseRest(s));
      assert [a[0]] + a[1..] == a;
    }
  }

  lemma RestAt(s: string, i: nat)
    requires i <= |s|
    ensures var j := Find(s[i..], '\'');
            ParseRest(s[i..]) == Prepend(s[i..i + j], j, ParseRest(s[i + j..]))
  {
    var j := Find(s[i..], '\'');
    var a := s[i..i + j];
    assert s[i..] == a + s[i + j..];
    assert forall k :: 0 <= k < j ==> a[k] == s[i..][k];
    ParseRun(a, s[i + j..]);
  }

  /** One turn of the parser's loop, from `i` over the run of `j` characters up
      to the next quote. */
  lemma Turn(s: string, i: nat, b: string, j: nat)
    requires i <= |s| && j == Find(s[i..], '\'') && ParseQuoted(s) == Prepend(b, i, ParseRest(s[i..]))
    ensures j == |s| - i ==> ParseQuoted(s) == None
    ensures j < |s| - i ==> ParseQuoted(s) == Prepend(b + s[i..i + j], i + j, ParseRest(s[i + j..]))
  {
    RestAt(s, i);
    var run, rest := s[i..i + j], ParseRest(s[i + j..]);
    PrependTwice(b, i, run, j, rest);
    if j == |s| - i {
      assert s[i + j..] == [];
    }
  }

  lemma QuoteTurn(s: string, k: nat, b: string)
    requires k < |s| && s[k] == '\'' && ParseQuoted(s) == Prepend(b, k, ParseRest(s[k..]))
    ensures GOES_ON <= s[k + 1..] ==> ParseQuoted(s) == Prepend(b + "'", k + 4, ParseRest(s[k + 4..]))
    ensures !(GOES_ON <= s[k + 1..]) ==> ParseQuoted(s) == Some(Word(b, k + 1))
  {
    assert s[k..][1..] == s[k + 1..];
    if GOES_ON <= s[k + 1..] {
      assert s[k..][4..] == s[k + 4..];
      PrependTwice(b, k, "'", 4, ParseRest(s[k + 4..]));
    } else {
      assert b + "" == b;
    }
  }

  /** parseSingleQuoted: the loop that moves an index and fills a builder. */
  method ParseSingleQuoted(s: string) returns (r: Option<Word>)
    ensures r == ParseQuoted(s)
  {
    if !("'" <= s) {
      return None;
    }
    var b, i := "", 1;
    while true
      invariant 1 <= i <= |s|
      invariant ParseQuoted(s) == Prepend(b, i, ParseRest(s[i..]))
      decreases |s| - i
    {
      var j := Find(s[i..], '\'');
      Turn(s, i, b, j);
      if j == |s| - i {
        return None;
      }
      b := b + s[i..i + j];
      QuoteTurn(s, i + j, b);
      i := i + j + 1;
      if GOES_ON <= s[i..] {
        b := b + "'";
        i := i + 3;
        continue;
      }
      return Some(Word(b, i));
    }
  }

  lemma ParseReopen(s: string)
    ensures ParseRest(REOPEN + s) == Prepend("'", 4, ParseRest(s))
  {
    var t := REOPEN + s;
    assert t[0] == '\'' && t[1..] == GOES_ON + s && t[4..] == s;
  }

  lemma ParsePlain(c: char, s: string)
    requires c != '\''
    ensures ParseRest([c] + s) == Prepend([c], 1, ParseRest(s))
  {
    assert ([c] + s)[1..] == s;
  }

  lemma ParseClose(rest: string)
    requires !(GOES_ON <= rest)
    ensures ParseRest("'" + rest) == Some(Word("", 1))
  {
    assert ("'" + rest)[1..] == rest;
  }

  lemma ParseChar(c: char, s: string)
    ensures ParseRest(EscapeChar(c) + s) == Prepend([c], |EscapeChar(c)|, ParseRest(s))
  {
    if c == '\'' {
      ParseReopen(s);
    } else {
      ParsePlain(c, s);
    }
  }

  lemma Regroup(a: string, b: string, c: string)
    ensures a + b + c == a + (b + c)
  {
  }

  lemma EscapeCons(w: string, tail: string)
    requires w != []
    ensures Escape(w) + tail == EscapeChar(w[0]) + (Escape(w[1..]) + tail)
    ensures |Escape(w)| == |EscapeChar(w[0])| + |Escape(w[1..])|
  {
    Regroup(EscapeChar(w[0]), Escape(w[1..]), tail);
  }

  /** Reading back what was quoted, whatever quotes it holds. */
  lemma {:induction false} ParseEscaped(w: string, tail: string)
    requires ParseRest(tail) == Some(Word("", 1))
    ensures ParseRest(Escape(w) + tail) == Some(Word(w, |Escape(w)| + 1))
  {
    if w == [] {
      assert Escape(w) + tail == tail;
    } else {
      ParseEscaped(w[1..], tail);
      EscapeCons(w, tail);
      ParseChar(w[0], Escape(w[1..]) + tail);
      assert [w[0]] + w[1..] == w;
    }
  }

  lemma OpensWith(s: string, c: char, rest: string)
    requires s == [c] + rest
    ensures [c] <= s && s[0] == c && s[1..] == rest
  {
  }

  /** The round trip: a quoted word followed by anything that does not go on
      with it reads back as itself, and takes exactly its own length. */
  lemma QuoteRoundTrip(w: string, rest: string)
    requires !(GOES_ON <= rest)
    ensures ParseQuoted(ShellQuote(w) + rest) == Some(Word(w, |ShellQuote(w)|))
  {
    var tail := "'" + rest;
    OpensWith(ShellQuote(w) + rest, '\'', Escape(w) + tail);
    ParseClose(rest);
    ParseEscaped(w, tail);
    assert "" + w == w;
  }

  // ------------------------------------------------------ the shell's view

  /** A POSIX shell's word at the start of a line, up to an unquoted space:
      inside single quotes every character is itself; outside, a backslash
      keeps the next one. None is an unfinished word. */
  function ShellWord(s: string, quoted: bool): (r: Option<Word>)
    decreases |s|
  {
    if s == [] then (if quoted then None else Some(Word("", 0))) else
    if quoted then
      (if s[0] == '\'' then Prepend("", 1, ShellWord(s[1..], false)) else Prepend([s[0]], 1, ShellWord(s[1..], true)))
    else if s[0] == ' ' then Some(Word("", 0))
    else if s[0] == '\'' then Prepend("", 1, ShellWord(s[1..], true))
    else if s[0] == '\\' then (if |s| == 1 then None else Prepend([s[1]], 2, ShellWord(s[2..], false)))
    else Prepend([s[0]], 1, ShellWord(s[1..], false))
  }

  lemma ShellReopen(s: string)
    ensures ShellWord(REOPEN + s, true) == Prepend("'", 4, ShellWord(s, true))
  {
    var t0, t1, t2 := REOPEN + s, GOES_ON + s, "'" + s;
    assert t0[0] == '\'' && t0[1..] == t1;
    assert t1[0] == '\\' && t1[1] == '\'' && t1[2..] == t2;
    assert t2[0] == '\'' && t2[1..] == s;
    var w := ShellWord(s, true);
    assert ShellWord(t2, false) == Prepend("", 1, w);
    assert ShellWord(t1, false) == Prepend([t1[1]], 2, ShellWord(t2, false));
    assert ShellWord(t0, true) == Prepend("", 1, ShellWord(t1, false));
    PrependTwice("'", 2, "", 1, w);
    PrependTwice("", 1, "'", 3, w);
    assert "" + "'" == "'" && "'" + "" == "'";
  }

  lemma ShellChar(c: char, s: string)
    ensures ShellWord(EscapeChar(c) + s, true) == Prepend([c], |EscapeChar(c)|, ShellWord(s, true))
  {
    if c == '\'' {
      ShellReopen(s);
    } else {
      assert ([c] + s)[1..] == s;
    }
  }

  lemma ShellClose(rest: string)
    requires rest == "" || rest[0] == ' '
    ensures ShellWord("'" + rest, true) == Some(Word("", 1))
  {
    assert ("'" + rest)[1..] == rest;
    assert ShellWord(rest, false) == Some(Word("", 0));
    assert "" + "" == "";
  }

  lemma {:induction false} ShellReadsEscaped(w: string, tail: string)
    requires ShellWord(tail, true) == Some(Word("", 1))
    ensures ShellWord(Escape(w) + tail, true) == Some(Word(w, |Escape(w)| + 1))
  {
    if w == [] {
      assert Escape(w) + tail == tail;
    } else {
      ShellReadsEscaped(w[1..], tail);
      EscapeCons(w, tail);
      ShellChar(w[0], Escape(w[1..]) + tail);
      assert [w[0]] + w[1..] == w;
    }
  }

  /** What the shell runs is exactly the quoted path. */
  lemma ShellReadsQuoted(w: string, rest: string)
    requires rest == "" || rest[0] == ' '
    ensures ShellWord(ShellQuote(w) + rest, false) == Some(Word(w, |ShellQuote(w)|))
  {
    var tail := "'" + rest;
    OpensWith(ShellQuote(w) + rest, '\'', Escape(w) + tail);
    ShellClose(rest);
    ShellReadsEscaped(w, tail);
    assert "" + w == w;
  }

  // ------------------------------------------- searching across the quotes

  lemma AcrossLeft(a: string, q: char, b: string, t: string, k: nat)
    requires q !in t && k <= |a| && t <= (a + [q] + b)[k..]
    ensures t <= a[k..]
  {
    var s := a + [q] + b;
    assert s[k..] == a[k..] + [q] + b;
    assert s[k..][|a| - k] == q;
    assert forall m :: 0 <= m < |t| ==> t[m] == s[k..][m];
  }

  lemma AcrossHolds(a: string, q: char, b: string, t: string)
    requires Contains(a, t) || Contains(b, t)
    ensures Contains(a + [q] + b, t)
  {
    var s := a + [q] + b;
    ContainsAt(s, t);
    if Contains(a, t) {
      ContainsAt(a, t);
      var k :| 0 <= k <= |a| && t <= a[k..];
      assert s[k..] == a[k..] + [q] + b;
    } else {
      ContainsAt(b, t);
      var k :| 0 <= k <= |b| && t <= b[k..];
      assert s[|a| + 1 + k..] == b[k..];
    }
  }

  lemma ContainsAcross(a: string, q: char, b: string, t: string)
    requires q !in t && t != ""
    ensures Contains(a + [q] + b, t) <==> Contains(a, t) || Contains(b, t)
  {
    var s := a + [q] + b;
    if Contains(a, t) || Contains(b, t) {
      AcrossHolds(a, q, b, t);
    }
    if Contains(s, t) {
      ContainsAt(s, t);
      var k :| 0 <= k <= |s| && t <= s[k..];
      if k > |a| {
        assert s[k..] == b[k - |a| - 1..];
        ContainsAt(b, t);
      } else {
        AcrossLeft(a, q, b, t, k);
        ContainsAt(a, t);
      }
    }
  }

  lemma {:induction false} EscapePrefix(w: string, t: string)
    requires '\'' !in t && t <= Escape(w)
    ensures t <= w
  {
    if t != [] {
      assert t[0] == Escape(w)[0];
      assert w[0] != '\'';
      assert Escape(w)[1..] == Escape(w[1..]);
      EscapePrefix(w[1..], t[1..]);
      assert t == [t[0]] + t[1..];
    }
  }

  lemma {:induction false} EscapeContains(w: string, t: string)
    requires '\'' !in t && t != "" && t[0] != '\\'
    requires Contains(Escape(w), t)
    ensures Contains(w, t)
  {
    var e := Escape(w);
    if t <= e {
      EscapePrefix(w, t);
    } else {
      var e' := Escape(w[1..]);
      if w[0] == '\'' {
        var e1, e2, e3 := GOES_ON + e', "''" + e', "'" + e';
        assert e[1..] == e1 && e1[1..] == e2 && e2[1..] == e3 && e3[1..] == e';
        assert e1[0] == '\\' && e2[0] == '\'' && e3[0] == '\'';
        assert !(t <= e1) && !(t <= e2) && !(t <= e3);
        assert Contains(e1, t) && Contains(e2, t) && Contains(e3, t);
      } else {
        assert e[1..] == e';
      }
      EscapeContains(w[1..], t);
    }
  }
}
