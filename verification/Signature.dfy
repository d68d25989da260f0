/**
 The three places that decide whether a commit object carries a signature:
 the ref backstop reads git's indented rendering (hookreftx.go), resign reads
 the raw object (resign.go), and the post-commit hook looks for one substring
 (mirrorpush.go). They are compared here on every text.
 */
module Signature {
  import opened Text

  const INDENT := "    "

  predicate SignatureLine(l: string)
  {
    "gpgsig " <= l || "gpgsig-sha256 " <= l
  }

  /** Line `i` is a signature line with no blank line up to it. */
  predicate SignedAt(ls: seq<string>, i: nat)
  {
    i < |ls| && SignatureLine(ls[i]) && forall j :: 0 <= j <= i ==> ls[j] != ""
  }

  /** A signature line stands before the first blank line. */
  ghost predicate SignedLines(ls: seq<string>)
  {
    exists i: nat :: SignedAt(ls, i)
  }

  /** What it means for a raw commit text to be signed. */
  ghost predicate Signed(text: string)
  {
    SignedLines(Split(text, '\n'))
  }

  ghost predicate AnySignatureLine(ls: seq<string>)
  {
    exists i :: 0 <= i < |ls| && SignatureLine(ls[i])
  }

  function Outdented(ls: seq<string>): (r: seq<string>)
  {
    seq(|ls|, i requires 0 <= i < |ls| => TrimPrefix(ls[i], INDENT))
  }

  /** git's rendering with every line of the commit indented by four spaces. */
  function Indented(text: string): string
  {
    var ls := Split(text, '\n');
    Join(seq(|ls|, i requires 0 <= i < |ls| => INDENT + ls[i]), '\n')
  }

  /** hasSignatureHeader: the answer for a record, whatever its indentation. */
  ghost predicate HeaderSigned(raw: string)
  {
    SignedLines(Outdented(Split(raw, '\n')))
  }

  method HasSignatureHeader(raw: string) returns (r: bool)
    ensures r <==> HeaderSigned(raw)
  {
    var ls := Split(raw, '\n');
    ghost var out := Outdented(ls);
    for k := 0 to |ls|
      invariant forall j :: 0 <= j < k ==> out[j] != "" && !SignatureLine(out[j])
    {
      var line := TrimPrefix(ls[k], INDENT);
      assert line == out[k];
      if line == "" {
        return false;
      }
      if SignatureLine(line) {
        assert SignedAt(out, k);
        return true;
      }
    }
    return false;
  }

  /** What commitIsSigned answers: a signature line before the first "\n\n". */
  ghost predicate RawSigned(body: string)
  {
    AnySignatureLine(Split(Before(body, "\n\n"), '\n'))
  }

  method CommitIsSigned(body: string) returns (r: bool)
    ensures r <==> RawSigned(body)
  {
    var ls := Split(Before(body, "\n\n"), '\n');
    for k := 0 to |ls|
      invariant forall j :: 0 <= j < k ==> !SignatureLine(ls[j])
    {
      if SignatureLine(ls[k]) {
        return true;
      }
    }
    return false;
  }

  /** The post-commit hook's test: one substring of the header. */
  predicate PostCommitSigned(body: string)
  {
    Contains(Before(body, "\n\n"), "\ngpgsig ")
  }

  /** Line `i` begins with the one or the other, with no blank line up to it. */
  predicate BeginsAt(ls: seq<string>, i: nat, a: string, b: string)
  {
    i < |ls| && (a <= ls[i] || b <= ls[i]) && forall j :: 0 <= j <= i ==> ls[j] != ""
  }

  lemma SignedWhereHeader(ls: seq<string>, i: nat)
    ensures SignedAt(ls, i) <==> BeginsAt(ls, i, "gpgsig ", "gpgsig-sha256 ")
  {
  }

  /** The two headers git writes a signature under: with `ls` the lines of a
      commit's text, this is what Signed says of it. */
  lemma SignedByHeader(ls: seq<string>)
    ensures SignedLines(ls) <==> exists i: nat :: BeginsAt(ls, i, "gpgsig ", "gpgsig-sha256 ")
  {
    if SignedLines(ls) {
      var i: nat :| SignedAt(ls, i);
      SignedWhereHeader(ls, i);
    }
    if exists i: nat :: BeginsAt(ls, i, "gpgsig ", "gpgsig-sha256 ") {
      var i: nat :| BeginsAt(ls, i, "gpgsig ", "gpgsig-sha256 ");
      SignedWhereHeader(ls, i);
    }
  }

  // ---------------------------------------------------------------- lines

  lemma SignedAtCons(l: string, rest: seq<string>, i: nat)
    requires l != ""
    ensures SignedAt([l] + rest, i + 1) <==> SignedAt(rest, i)
  {
    var ls := [l] + rest;
    assert forall k :: 0 <= k < |rest| ==> rest[k] == ls[k + 1];
    if SignedAt(ls, i + 1) {
      assert SignatureLine(ls[i + 1]);
    }
  }

  lemma SignedCons(l: string, rest: seq<string>)
    ensures SignedLines([l] + rest) <==> l != "" && (SignatureLine(l) || SignedLines(rest))
  {
    var ls := [l] + rest;
    assert ls[0] == l;
    if l != "" && SignatureLine(l) {
      assert SignedAt(ls, 0);
    }
    if l != "" {
      forall i: nat
        ensures SignedAt(ls, i + 1) <==> SignedAt(rest, i)
      {
        SignedAtCons(l, rest, i);
      }
      assert forall i: nat :: i > 0 && SignedAt(ls, i) ==> SignedAt(rest, i - 1);
    }
  }

  lemma AnyCons(l: string, rest: seq<string>)
    ensures AnySignatureLine([l] + rest) <==> SignatureLine(l) || AnySignatureLine(rest)
  {
    var ls := [l] + rest;
    assert ls[0] == l;
    assert forall i :: 0 <= i < |rest| ==> ls[i + 1] == rest[i];
    if AnySignatureLine(rest) {
      var i :| 0 <= i < |rest| && SignatureLine(rest[i]);
      assert SignatureLine(ls[i + 1]);
    }
  }

  /** Cutting at a blank line, one line at a time. */
  lemma {:induction false} BeforeCons(l: string, rest: string)
    requires '\n' !in l
    ensures "\n" <= rest ==> Before(l + "\n" + rest, "\n\n") == l
    ensures !("\n" <= rest) ==> Before(l + "\n" + rest, "\n\n") == l + "\n" + Before(rest, "\n\n")
  {
    var s := l + "\n" + rest;
    if l == [] {
      assert s[1..] == rest;
      assert "\n\n" <= s <==> "\n" <= rest;
    } else {
      assert s[1..] == l[1..] + "\n" + rest;
      assert s[0] == l[0] != '\n';
      BeforeCons(l[1..], rest);
    }
  }

  lemma {:induction false} BeforeNone(l: string)
    requires '\n' !in l
    ensures Before(l, "\n\n") == l
  {
    if l != [] {
      assert "\n\n"[0] == '\n' != l[0];
      BeforeNone(l[1..]);
      assert [l[0]] + l[1..] == l;
    }
  }

  lemma FirstLine(s: string)
    ensures Split(s, '\n')[0] == "" <==> s == "" || "\n" <= s
  {
    if '\n' in s {
      var l, rest := SplitCases(s, '\n');
    } else {
      SplitNone(s, '\n');
    }
  }

  // ------------------------------------------------------- the comparisons

  /** On a text whose first line is not blank, the raw test is the meaning of
      signed: reading up to the first "\n\n" is reading up to a blank line. */
  lemma {:induction false} RawIsSigned(body: string)
    requires Split(body, '\n')[0] != ""
    ensures RawSigned(body) <==> Signed(body)
    decreases |body|
  {
    if '\n' !in body {
      SplitNone(body, '\n');
      BeforeNone(body);
      AnyCons(body, []);
      SignedCons(body, []);
      assert [body] + [] == [body];
    } else {
      var l, rest := SplitCases(body, '\n');
      BeforeCons(l, rest);
      SignedCons(l, Split(rest, '\n'));
      FirstLine(rest);
      if "\n" <= rest {
        SplitNone(l, '\n');
        AnyCons(l, []);
        assert [l] + [] == [l];
      } else {
        SplitCons(l, Before(rest, "\n\n"), '\n');
        AnyCons(l, Split(Before(rest, "\n\n"), '\n'));
        if rest != "" {
          RawIsSigned(rest);
        }
      }
    }
  }

  /** Behind a leading newline the raw test reads the rest as a header. */
  lemma RawBehindNewline(rest: string)
    ensures RawSigned("\n" + rest) <==> Signed(rest)
  {
    var body := "\n" + rest;
    BeforeCons("", rest);
    assert "" + "\n" + rest == body;
    FirstLine(rest);
    if "\n" <= rest {
      SplitNone("", '\n');
      assert Before(body, "\n\n") == "";
    } else {
      var h := Before(rest, "\n\n");
      assert Before(body, "\n\n") == "" + ['\n'] + h;
      SplitCons("", h, '\n');
      AnyCons("", Split(h, '\n'));
      if rest == "" {
        SplitNone("", '\n');
        assert h == "";
      } else {
        RawIsSigned(rest);
      }
    }
  }

  /** The exact texts on which the raw test and the meaning differ: a newline
      first, and behind it a text that would be signed. */
  lemma RawAgreesIff(body: string)
    ensures (RawSigned(body) <==> Signed(body)) <==> !("\n" <= body && Signed(body[1..]))
  {
    FirstLine(body);
    if "\n" <= body {
      assert body == "\n" + body[1..];
      RawBehindNewline(body[1..]);
      assert !SignedLines(Split(body, '\n'));
    } else if body == "" {
      SplitNone("", '\n');
      assert Before(body, "\n\n") == "";
    } else {
      RawIsSigned(body);
    }
  }

  /** The indented rendering is read exactly: the backstop's test on it is the
      meaning of signed for the text itself. */
  lemma IndentedIsSigned(text: string)
    ensures HeaderSigned(Indented(text)) <==> Signed(text)
  {
    var ls := Split(text, '\n');
    var ind := seq(|ls|, i requires 0 <= i < |ls| => INDENT + ls[i]);
    SplitPieces(text, '\n');
    forall i | 0 <= i < |ind|
      ensures '\n' !in ind[i]
    {
      assert ind[i] == INDENT + ls[i];
    }
    SplitJoin(ind, '\n');
    forall i | 0 <= i < |ind|
      ensures TrimPrefix(ind[i], INDENT) == ls[i]
    {
      assert INDENT <= ind[i];
    }
    assert Outdented(ind) == ls;
  }

  /** So on that rendering the backstop and resign agree on every commit whose
      first line is not blank, as every commit object's is ("tree ..."). */
  lemma BackstopAgreesWithResign(body: string)
    requires Split(body, '\n')[0] != ""
    ensures HeaderSigned(Indented(body)) <==> RawSigned(body)
  {
    IndentedIsSigned(body);
    RawIsSigned(body);
  }

  // ------------------------------------------------- the post-commit test

  /** A line other than the first starts with `t`. */
  ghost predicate LaterLine(ls: seq<string>, t: string)
  {
    exists i :: 1 <= i < |ls| && t <= ls[i]
  }

  lemma PrefixOfFirstLine(s: string, t: string)
    requires '\n' !in t
    ensures t <= s <==> t <= Split(s, '\n')[0]
  {
    var first := Split(s, '\n')[0];
    if '\n' in s {
      var l, rest := SplitCases(s, '\n');
      assert first == l && s[|l|] == '\n';
      assert t <= s ==> forall k :: 0 <= k < |t| ==> s[k] == t[k] && t[k] in t;
    } else {
      SplitNone(s, '\n');
    }
  }

  /** Searching for "\n" + t skips a line at a time. */
  lemma {:induction false} ContainsCons(l: string, rest: string, t: string)
    requires '\n' !in l
    ensures Contains(l + "\n" + rest, "\n" + t) <==> t <= rest || Contains(rest, "\n" + t)
  {
    var s := l + "\n" + rest;
    if l == [] {
      assert s[1..] == rest && s == "\n" + rest;
      assert "\n" + t <= s <==> t <= rest by {
        if "\n" + t <= s { assert t == ("\n" + t)[1..] <= s[1..]; }
      }
    } else {
      assert s[1..] == l[1..] + "\n" + rest;
      assert s[0] == l[0] != '\n';
      ContainsCons(l[1..], rest, t);
    }
  }

  lemma {:induction false} ContainsNone(l: string, t: string)
    requires '\n' !in l
    ensures !Contains(l, "\n" + t)
  {
    if l != [] {
      assert ("\n" + t)[0] == '\n' != l[0];
      ContainsNone(l[1..], t);
    }
  }

  lemma LaterCons(l: string, tail: seq<string>, t: string)
    requires |tail| > 0
    ensures LaterLine([l] + tail, t) <==> t <= tail[0] || LaterLine(tail, t)
  {
    var ls := [l] + tail;
    assert forall i :: 1 <= i < |ls| ==> ls[i] == tail[i - 1];
    if t <= tail[0] {
      assert t <= ls[1];
    }
    if LaterLine(tail, t) {
      var i :| 1 <= i < |tail| && t <= tail[i];
      assert t <= ls[i + 1];
    }
  }

  lemma {:induction false} SubstringIsLaterLine(h: string, t: string)
    requires '\n' !in t
    ensures Contains(h, "\n" + t) <==> LaterLine(Split(h, '\n'), t)
    decreases |h|
  {
    if '\n' !in h {
      SplitNone(h, '\n');
      ContainsNone(h, t);
    } else {
      var l, rest := SplitCases(h, '\n');
      ContainsCons(l, rest, t);
      PrefixOfFirstLine(rest, t);
      LaterCons(l, Split(rest, '\n'), t);
      SubstringIsLaterLine(rest, t);
    }
  }

  /** A line git or the backstop counts and the post-commit test does not: the
      first line, or one that is gpgsig-sha256. */
  ghost predicate OnlyUncountedSignatures(ls: seq<string>)
  {
    forall i :: 0 <= i < |ls| && SignatureLine(ls[i]) ==> i == 0 || "gpgsig-sha256 " <= ls[i]
  }

  lemma DistinctHeaders(l: string)
    ensures !("gpgsig " <= l && "gpgsig-sha256 " <= l)
  {
    assert "gpgsig "[6] == ' ' && "gpgsig-sha256 "[6] == '-';
  }

  /** On any header lines: a later "gpgsig " line is exactly what is missing
      when every signature line is uncounted. */
  lemma LaterOrUncounted(ls: seq<string>)
    ensures LaterLine(ls, "gpgsig ") <==> !OnlyUncountedSignatures(ls)
    ensures LaterLine(ls, "gpgsig ") ==> AnySignatureLine(ls)
  {
    if LaterLine(ls, "gpgsig ") {
      var i :| 1 <= i < |ls| && "gpgsig " <= ls[i];
      DistinctHeaders(ls[i]);
      assert SignatureLine(ls[i]);
    }
  }

  /** The post-commit test implies resign's, and the two differ exactly on
      commits whose every signature line is gpgsig-sha256 or the first line. */
  lemma PostCommitVersusRaw(body: string)
    ensures PostCommitSigned(body) ==> RawSigned(body)
    ensures RawSigned(body) && !PostCommitSigned(body) <==>
            RawSigned(body) && OnlyUncountedSignatures(Split(Before(body, "\n\n"), '\n'))
  {
    var h := Before(body, "\n\n");
    SubstringIsLaterLine(h, "gpgsig ");
    assert "\n" + "gpgsig " == "\ngpgsig ";
    LaterOrUncounted(Split(h, '\n'));
  }

  // ------------------------------------------------------------ cut-off texts

  /** A text and one it begins share their first line. */
  lemma SharedLine(q: string, full: string) returns (l: string, rest: string, more: string)
    requires q <= full && '\n' in q
    ensures '\n' !in l && q == l + ['\n'] + rest && full == l + ['\n'] + more && rest <= more
  {
    l, rest := SplitCases(q, '\n');
    var tail := full[|q|..];
    more := rest + tail;
    assert q + tail == l + ['\n'] + more;
  }
}
