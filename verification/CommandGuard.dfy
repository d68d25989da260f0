/**
 The PreToolUse guard's reading of a command (cmd/innsegl/hooknosign.go):
 quoted prose is dropped before the command is matched, so that a flag inside a
 commit message is not read as a flag. The regular expressions on the stripped
 text are inputs here.
 */
module CommandGuard {
  import opened Text

  predicate IsQuote(c: char) { c == '\'' || c == '"' }

  predicate HasBlank(s: string)
  {
    exists i :: 0 <= i < |s| && s[i] in {' ', '\t', '\n'}
  }

  /** What a quoted span is replaced by: prose by a space, a quoted argument by
      itself. */
  function Stripped(inner: string): string
  {
    if HasBlank(inner) then " " else inner
  }

  /** How long the span is that the first character opens; the length of the
      rest when it opens none. */
  function Span(s: string): (j: nat)
    requires s != []
    ensures j <= |s| - 1
  {
    if IsQuote(s[0]) then Find(s[1..], s[0]) else |s| - 1
  }

  /** unquotedForMatch: the leftmost quoted spans, each replaced. A quote with
      no partner stays. */
  function Unquoted(s: string): string
    decreases |s|
  {
    if s == [] then [] else
    if Span(s) < |s| - 1 then Stripped(s[1..Span(s) + 1]) + Unquoted(s[Span(s) + 2..]) else
    [s[0]] + Unquoted(s[1..])
  }

  /** No quote of `s` is left without its partner. */
  predicate Closed(s: string)
    decreases |s|
  {
    if s == [] then true else
    if Span(s) < |s| - 1 then Closed(s[Span(s) + 2..]) else
    !IsQuote(s[0]) && Closed(s[1..])
  }

  lemma SpanIs(q: char, inner: string, rest: string)
    requires IsQuote(q) && q !in inner
    ensures var s := [q] + inner + [q] + rest;
            Span(s) == |inner| < |s| - 1 && s[1..Span(s) + 1] == inner && s[Span(s) + 2..] == rest
  {
    var s := [q] + inner + [q] + rest;
    assert s[1..] == inner + [q] + rest;
    FindAppend(inner, rest, q);
  }

  /** A quoted span at the front. */
  lemma UnquotedSpan(q: char, inner: string, rest: string)
    requires IsQuote(q) && q !in inner
    ensures Unquoted([q] + inner + [q] + rest) == Stripped(inner) + Unquoted(rest)
  {
    SpanIs(q, inner, rest);
  }

  lemma UnquotedPlain(c: char, rest: string)
    requires !IsQuote(c)
    ensures Unquoted([c] + rest) == [c] + Unquoted(rest)
  {
    assert ([c] + rest)[1..] == rest;
  }

  /** The span a quote with a partner opens. */
  lemma SpanAt(s: string) returns (inner: string, after: string)
    requires s != [] && Span(s) < |s| - 1
    ensures s == [s[0]] + inner + [s[0]] + after && s[0] !in inner && |after| < |s|
    ensures IsQuote(s[0]) && (Closed(s) <==> Closed(after))
  {
    var t := s[1..];
    var j := Span(s);
    inner, after := s[1..j + 1], s[j + 2..];
    assert inner == t[..j];
    assert s[j + 1] == t[j] == s[0];
  }

  lemma Regroup(a: string, b: string, rest: string)
    ensures Unquoted(a + (b + rest)) == Unquoted(a + b + rest)
  {
    assert a + (b + rest) == a + b + rest;
  }

  lemma Behind(a: string, b: string, rest: string, shown: string)
    requires Unquoted(b + rest) == Unquoted(b) + Unquoted(rest)
    requires Unquoted(a + b) == shown + Unquoted(b) && Unquoted(a + (b + rest)) == shown + Unquoted(b + rest)
    ensures Unquoted(a + b + rest) == Unquoted(a + b) + Unquoted(rest)
  {
    Regroup(a, b, rest);
    Glue(shown, Unquoted(b), Unquoted(rest));
  }

  lemma SpanThenRest(q: char, inner: string, after: string, rest: string)
    requires IsQuote(q) && q !in inner
    requires Unquoted(after + rest) == Unquoted(after) + Unquoted(rest)
    ensures Unquoted([q] + inner + [q] + after + rest) == Unquoted([q] + inner + [q] + after) + Unquoted(rest)
  {
    UnquotedSpan(q, inner, after);
    UnquotedSpan(q, inner, after + rest);
    Behind([q] + inner + [q], after, rest, Stripped(inner));
  }

  lemma PlainThenRest(c: char, after: string, rest: string)
    requires !IsQuote(c)
    requires Unquoted(after + rest) == Unquoted(after) + Unquoted(rest)
    ensures Unquoted([c] + after + rest) == Unquoted([c] + after) + Unquoted(rest)
  {
    UnquotedPlain(c, after);
    UnquotedPlain(c, after + rest);
    Behind([c], after, rest, [c]);
  }

  /** A closed text and the rest are stripped apart. */
  lemma {:induction false} ClosedSplits(pre: string, rest: string)
    requires Closed(pre)
    ensures Unquoted(pre + rest) == Unquoted(pre) + Unquoted(rest)
    decreases |pre|
  {
    if pre == [] {
      assert pre + rest == rest;
    } else if Span(pre) < |pre| - 1 {
      var inner, after := SpanAt(pre);
      ClosedSplits(after, rest);
      SpanThenRest(pre[0], inner, after, rest);
    } else {
      ClosedSplits(pre[1..], rest);
      PlainThenRest(pre[0], pre[1..], rest);
      assert pre == [pre[0]] + pre[1..];
    }
  }

  /** Prose between quotes `q`. */
  predicate Prose(q: char, inner: string)
  {
    IsQuote(q) && q !in inner && HasBlank(inner)
  }

  function Command(pre: string, q: char, inner: string, post: string): string
  {
    pre + ([q] + inner + [q] + post)
  }

  /** Behind a closed text, a quoted span is worth one space when it holds a space,
      a tab or a newline, and itself when it holds none: the quotes do not hide an
      argument. */
  lemma QuotedSpan(pre: string, q: char, inner: string, post: string)
    requires Closed(pre) && (q == '\'' || q == '"') && q !in inner
    ensures ' ' in inner || '\t' in inner || '\n' in inner ==>
              Unquoted(pre + ([q] + inner + [q] + post)) == Unquoted(pre) + (" " + Unquoted(post))
    ensures ' ' !in inner && '\t' !in inner && '\n' !in inner ==>
              Unquoted(pre + ([q] + inner + [q] + post)) == Unquoted(pre) + (inner + Unquoted(post))
  {
    ClosedSplits(pre, [q] + inner + [q] + post);
    UnquotedSpan(q, inner, post);
  }

  /** Behind a closed text, prose is worth one space, whatever it says. */
  lemma ProseIsASpace(pre: string, q: char, inner: string, post: string)
    requires Closed(pre) && Prose(q, inner)
    ensures Unquoted(Command(pre, q, inner, post)) == Unquoted(pre) + (" " + Unquoted(post))
  {
    ClosedSplits(pre, [q] + inner + [q] + post);
    UnquotedSpan(q, inner, post);
  }

  // -------------------------------------------- exactly when wording is lost

  lemma ClosedSpan(q: char, inner: string, rest: string)
    requires IsQuote(q) && q !in inner && Closed(rest)
    ensures Closed([q] + inner + [q] + rest)
  {
    SpanIs(q, inner, rest);
  }

  lemma ClosedPlain(c: char, rest: string)
    requires !IsQuote(c) && Closed(rest)
    ensures Closed([c] + rest)
  {
    assert ([c] + rest)[1..] == rest;
  }

  lemma Glue(a: string, b: string, c: string)
    ensures a + (b + c) == a + b + c
  {}

  /** `s` up to its first quote without a partner, that quote, and the rest. */
  lemma {:induction false} FirstDangling(s: string) returns (front: string, c: char, tail: string)
    requires !Closed(s)
    ensures s == front + ([c] + tail) && Closed(front) && IsQuote(c) && c !in tail
    decreases |s|
  {
    if IsQuote(s[0]) && Span(s) == |s| - 1 {
      front, c, tail := "", s[0], s[1..];
    } else if IsQuote(s[0]) {
      var inner, after := SpanAt(s);
      var front';
      front', c, tail := FirstDangling(after);
      ClosedSpan(s[0], inner, front');
      Glue([s[0]] + inner + [s[0]], front', [c] + tail);
      front := [s[0]] + inner + [s[0]] + front';
    } else {
      var front';
      front', c, tail := FirstDangling(s[1..]);
      ClosedPlain(s[0], front');
      Glue([s[0]], front', [c] + tail);
      front := [s[0]] + front';
    }
  }

  ghost predicate WordingNeverCounts(pre: string)
  {
    forall q, inner, inner', post :: Prose(q, inner) && Prose(q, inner') ==>
      Unquoted(Command(pre, q, inner, post)) == Unquoted(Command(pre, q, inner', post))
  }

  lemma DanglingSplit(front: string, c: char, body: string, rest: string)
    requires Closed(front) && IsQuote(c) && c !in body
    ensures |Unquoted(front + ([c] + body + [c] + rest))| == |Unquoted(front)| + |Stripped(body)| + |Unquoted(rest)|
  {
    ClosedSplits(front, [c] + body + [c] + rest);
    UnquotedSpan(c, body, rest);
  }

  /** A text behind a span a dangling quote opened shows letter by letter. */
  lemma DanglingLonger(front: string, c: char, body: string, rest: string)
    requires Closed(front) && IsQuote(c) && c !in body
    ensures Unquoted(front + ([c] + body + [c] + rest)) != Unquoted(front + ([c] + body + [c] + (['x'] + rest)))
  {
    DanglingSplit(front, c, body, rest);
    DanglingSplit(front, c, body, ['x'] + rest);
    UnquotedPlain('x', rest);
  }

  lemma SingleShows(front: string, tail: string)
    requires Closed(front) && '\'' !in tail
    ensures !WordingNeverCounts(front + (['\''] + tail))
  {
    var q := '\'';
    var a, b := " ", "x ";
    assert a[0] == ' ' && b[1] == ' ';
    SameQuoteCommand(front, q, tail, a);
    SameQuoteCommand(front, q, tail, b);
    DanglingLonger(front, q, tail, a + [q]);
    assert b + [q] == ['x'] + (a + [q]);
    Differs(front + ([q] + tail), q, a, b);
  }

  lemma OtherShows(front: string, c: char, tail: string)
    requires Closed(front) && IsQuote(c) && c != '\'' && c !in tail
    ensures !WordingNeverCounts(front + ([c] + tail))
  {
    var q := '\'';
    var a, b := " " + [c] + "", " " + [c] + "x";
    assert a[0] == ' ' && b[0] == ' ';
    OtherQuoteCommand(front, c, tail, q, "");
    OtherQuoteCommand(front, c, tail, q, "x");
    DanglingLonger(front, c, tail + [q] + " ", "" + [q]);
    assert "x" + [q] == ['x'] + ("" + [q]);
    Differs(front + ([c] + tail), q, a, b);
  }

  lemma SameQuoteCommand(front: string, q: char, tail: string, inner: string)
    ensures Command(front + ([q] + tail), q, inner, "") == front + ([q] + tail + [q] + (inner + [q]))
  {}

  lemma OtherQuoteCommand(front: string, c: char, tail: string, q: char, rest: string)
    ensures Command(front + ([c] + tail), q, " " + [c] + rest, "") ==
            front + ([c] + (tail + [q] + " ") + [c] + (rest + [q]))
  {}

  lemma Differs(pre: string, q: char, a: string, b: string)
    requires Prose(q, a) && Prose(q, b)
    requires Unquoted(Command(pre, q, a, "")) != Unquoted(Command(pre, q, b, ""))
    ensures !WordingNeverCounts(pre)
  {}

  /** Two messages behind a dangling quote that do not strip to the same. */
  lemma DanglingShows(front: string, c: char, tail: string)
    requires Closed(front) && IsQuote(c) && c !in tail
    ensures !WordingNeverCounts(front + ([c] + tail))
  {
    if c == '\'' {
      SingleShows(front, tail);
    } else {
      OtherShows(front, c, tail);
    }
  }

  /** The wording of a quoted message never counts exactly when the text in
      front of it leaves no quote open. */
  lemma WordingNeverCountsIff(pre: string)
    ensures WordingNeverCounts(pre) <==> Closed(pre)
  {
    if Closed(pre) {
      forall q, inner, inner', post | Prose(q, inner) && Prose(q, inner')
        ensures Unquoted(Command(pre, q, inner, post)) == Unquoted(Command(pre, q, inner', post))
      {
        ProseIsASpace(pre, q, inner, post);
        ProseIsASpace(pre, q, inner', post);
      }
    } else {
      var front, c, tail := FirstDangling(pre);
      DanglingShows(front, c, tail);
    }
  }

  // ------------------------------------------------- git config, by argument

  predicate Reads(a: string)
  {
    a in {"--get", "--get-all", "--get-regexp", "--get-urlmatch", "--list", "-l", "get", "list"}
  }

  predicate Unsets(a: string)
  {
    a in {"--unset", "--unset-all", "unset"}
  }

  predicate GpgKey(a: string) { "gpg." <= Lower(a) && |a| > 4 }
  predicate SigningKey(a: string) { Lower(a) == "commit.gpgsign" || GpgKey(a) }
  predicate OffValue(a: string) { Lower(a) in {"false", "0", "no", "off"} }

  /** The first signing key named, with no read asked for up to it, is written:
      it is a gpg key, or it is unset, or it is set off. */
  ghost predicate WritesAt(args: seq<string>, i: nat)
    requires i < |args|
  {
    && SigningKey(args[i])
    && (forall j :: 0 <= j < i ==> !SigningKey(args[j]))
    && (forall j :: 0 <= j <= i ==> !Reads(args[j]))
    && (GpgKey(args[i]) || (exists j :: 0 <= j <= i && Unsets(args[j])) || (i + 1 < |args| && OffValue(args[i + 1])))
  }

  ghost predicate WritesSigning(args: seq<string>)
  {
    exists i :: 0 <= i < |args| && WritesAt(args, i)
  }

  lemma NotBoth(a: string)
    requires SigningKey(a)
    ensures "gpg." <= Lower(a) <==> GpgKey(a)
  {
    assert "commit.gpgsign"[0] == 'c' && "gpg."[0] == 'g';
  }

  /** configWritesSigning, with its `unset` flag. */
  method ConfigWritesSigning(args: seq<string>) returns (r: bool)
    ensures r <==> WritesSigning(args)
  {
    var unset := false;
    for i := 0 to |args|
      invariant forall j :: 0 <= j < i ==> !SigningKey(args[j]) && !Reads(args[j])
      invariant unset <==> exists j :: 0 <= j < i && Unsets(args[j])
    {
      var a := args[i];
      if Reads(a) {
        return false;
      } else if Unsets(a) {
        unset := true;
      }
      if !SigningKey(a) {
        continue;
      }
      NotBoth(a);
      if unset || "gpg." <= Lower(a) {
        assert WritesAt(args, i);
        return true;
      }
      r := i + 1 < |args| && OffValue(args[i + 1]);
      assert r <==> WritesAt(args, i);
      return;
    }
    return false;
  }

  /** Whatever follows, asking for a value changes nothing. */
  lemma ReadingChangesNothing(a: string, rest: seq<string>)
    requires a in {"--get", "--get-all", "--get-regexp", "--get-urlmatch", "--list", "-l", "get", "list"}
    ensures !WritesSigning([a] + rest)
  {
    var args := [a] + rest;
    assert args[0] == a && Reads(args[0]);
  }

  lemma UnsetCaught(unset: string, key: string)
    requires unset in {"--unset", "--unset-all", "unset"} && SigningKey(key) && !Reads(key)
    ensures WritesSigning([unset, key])
  {
    var args := [unset, key];
    assert args[0] == unset && args[1] == key && Unsets(args[0]) && !Reads(args[0]);
    FirstIsNeither(unset);
    assert WritesAt(args, 1);
  }

  /** A gpg key written, in any letter case, whatever the value; commit.gpgsign
      unset; and commit.gpgsign set exactly when the value is one of the four. */
  lemma WritesCaught(key: string, value: string, unset: string)
    requires Lower(key) == "commit.gpgsign" || ("gpg." <= Lower(key) && |key| > 4)
    requires unset in {"--unset", "--unset-all", "unset"} && !Reads(key)
    ensures "gpg." <= Lower(key) ==> WritesSigning([key, value])
    ensures WritesSigning([unset, key])
    ensures Lower(key) == "commit.gpgsign" && !Unsets(key) ==>
              (WritesSigning([key, value]) <==> Lower(value) in {"false", "0", "no", "off"})
  {
    NotBoth(key);
    UnsetCaught(unset, key);
    var args := [key, value];
    assert args[0] == key && args[1] == value;
    if "gpg." <= Lower(key) || Lower(value) in {"false", "0", "no", "off"} {
      assert WritesAt(args, 0);
    }
    if i :| 0 <= i < |args| && WritesAt(args, i) {
      assert i == 0 && !Unsets(key) ==> GpgKey(key) || OffValue(value);
    }
    assert Lower(key) == "commit.gpgsign" ==> Lower(key)[0] == 'c' && "gpg."[0] == 'g';
  }

  lemma FirstIsNeither(a: string)
    requires a != "" && (a[0] == '-' || a[0] == 'u')
    ensures !SigningKey(a)
  {
    assert Lower(a)[0] == a[0];
    assert "commit.gpgsign"[0] == 'c' && "gpg."[0] == 'g';
  }

  // ------------------------------------------------------------ the verdict

  /** What the regular expressions find in a stripped command. */
  datatype Patterns = Patterns(
    direct: string -> bool,
    commitTrees: string -> seq<string>,
    signs: string -> bool,
    configs: string -> seq<seq<string>>)

  ghost predicate TurnsOff(p: Patterns, command: string)
  {
    var c := Unquoted(command);
    || p.direct(c)
    || (exists i :: 0 <= i < |p.commitTrees(c)| && !p.signs(p.commitTrees(c)[i]))
    || (exists i :: 0 <= i < |p.configs(c)| && WritesSigning(p.configs(c)[i]))
  }

  method TurnsSigningOff(p: Patterns, command: string) returns (r: bool)
    ensures r <==> TurnsOff(p, command)
  {
    var c := Unquoted(command);
    if p.direct(c) {
      return true;
    }
    var trees, configs := p.commitTrees(c), p.configs(c);
    for i := 0 to |trees|
      invariant forall j :: 0 <= j < i ==> p.signs(trees[j])
    {
      if !p.signs(trees[i]) {
        return true;
      }
    }
    for i := 0 to |configs|
      invariant forall j :: 0 <= j < i ==> !WritesSigning(configs[j])
    {
      var w := ConfigWritesSigning(configs[i]);
      if w {
        return true;
      }
    }
    return false;
  }

  /** The verdict never depends on the wording of a quoted message, nor on
      which quotes it stands in, whatever the patterns are. */
  lemma VerdictIgnoresProse(p: Patterns, pre: string, q: char, inner: string, q': char, inner': string, post: string)
    requires Closed(pre) && Prose(q, inner) && Prose(q', inner')
    ensures TurnsOff(p, Command(pre, q, inner, post)) <==> TurnsOff(p, Command(pre, q', inner', post))
  {
    ProseIsASpace(pre, q, inner, post);
    ProseIsASpace(pre, q', inner', post);
  }
}

