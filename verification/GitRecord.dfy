/**
 What `git rev-list --header` prints for a commit, and what the ref backstop
 (cmd/innsegl/hookreftx.go) makes of it. git prints the header lines as they
 are, a blank line, and the message indented by four spaces; the backstop
 strips four spaces from header lines too.
 */
module GitRecord {
  import opened Text
  import opened Signature

  // --------------------------------------------------------- git's printing

  /** git reads a commit up to its first NUL. */
  function Cut(text: string): string
  {
    text[..Find(text, '\0')]
  }

  /** The lines in front of the first blank one. */
  function Header(ls: seq<string>): seq<string>
  {
    if ls == [] || ls[0] == "" then [] else [ls[0]] + Header(ls[1..])
  }

  /** git's isspace. */
  predicate Blank(c: char)
  {
    c in {' ', '\t', '\n', '\r'}
  }

  function TrimEnd(l: string): (r: string)
    ensures r <= l
  {
    if l != "" && Blank(l[|l| - 1]) then TrimEnd(l[..|l| - 1]) else l
  }

  /** The lines with every blank at their end taken off. */
  function DropEnd(ls: seq<string>): seq<string>
  {
    if ls == [] then [] else
    var n := |ls| - 1;
    if TrimEnd(ls[n]) == "" then DropEnd(ls[..n]) else ls[..n] + [TrimEnd(ls[n])]
  }

  predicate NoMessage(ls: seq<string>)
  {
    forall i :: |Header(ls)| <= i < |ls| ==> TrimEnd(ls[i]) == ""
  }

  /** The header lines git prints. With no message behind them, the blanks at
      their end are gone. */
  function Printed(text: string): seq<string>
  {
    var ls := Split(Cut(text), '\n');
    if NoMessage(ls) then DropEnd(Header(ls)) else Header(ls)
  }

  /** One printed commit: the header lines, a blank line, anything behind it. */
  ghost predicate Shows(shown: string, text: string)
  {
    '\0' !in shown && exists behind: seq<string> :: Split(shown, '\n') == Printed(text) + [""] + behind
  }

  /** The backstop's answer for a commit. */
  ghost predicate TakenAsSigned(text: string)
  {
    SignedLines(Outdented(Printed(text)))
  }

  // ------------------------------------------------------ the lines printed

  lemma {:induction false} HeaderLines(ls: seq<string>)
    ensures |Header(ls)| <= |ls| && forall i :: 0 <= i < |Header(ls)| ==> Header(ls)[i] == ls[i] != ""
    ensures |Header(ls)| < |ls| ==> ls[|Header(ls)|] == ""
  {
    if ls != [] && ls[0] != "" {
      HeaderLines(ls[1..]);
    }
  }

  /** A commit is signed when a header line is a signature line. */
  lemma SignedIsHeader(ls: seq<string>)
    ensures SignedLines(ls) <==> AnySignatureLine(Header(ls))
  {
    HeaderLines(ls);
    var h := Header(ls);
    if i: nat :| SignedAt(ls, i) {
      assert i < |h|;
      assert SignatureLine(h[i]);
    }
    if i :| 0 <= i < |h| && SignatureLine(h[i]) {
      assert SignedAt(ls, i);
    }
  }

  lemma {:induction false} DropEndLines(ls: seq<string>)
    requires forall i :: 0 <= i < |ls| ==> ls[i] != ""
    ensures |DropEnd(ls)| <= |ls|
    ensures forall i :: 0 <= i < |DropEnd(ls)| ==> DropEnd(ls)[i] <= ls[i] && DropEnd(ls)[i] != ""
  {
    if ls != [] {
      DropEndLines(ls[..|ls| - 1]);
    }
  }

  /** Line by line, a text cut short is cut short. */
  lemma {:induction false} SplitPrefix(q: string, full: string)
    requires q <= full
    ensures |Split(q, '\n')| <= |Split(full, '\n')|
    ensures forall i :: 0 <= i < |Split(q, '\n')| ==> Split(q, '\n')[i] <= Split(full, '\n')[i]
    decreases |q|
  {
    if '\n' in q {
      var l, rest, more := SharedLine(q, full);
      SplitCons(l, rest, '\n');
      SplitCons(l, more, '\n');
      SplitPrefix(rest, more);
    } else {
      SplitNone(q, '\n');
      PrefixOfFirstLine(full, q);
    }
  }

  lemma HeaderPrefix(a: seq<string>, b: seq<string>)
    requires |a| <= |b| && forall i :: 0 <= i < |a| ==> a[i] <= b[i]
    ensures |Header(a)| <= |Header(b)|
    ensures forall i :: 0 <= i < |Header(a)| ==> Header(a)[i] <= Header(b)[i]
  {
    HeaderLines(a);
    HeaderLines(b);
    forall i | 0 <= i < |Header(a)|
      ensures b[i] != ""
    {
      assert a[i] <= b[i];
    }
  }

  /** What is printed is the commit's own header, line by line, or a cut of it;
      no line of it is blank. */
  lemma PrintedLines(text: string)
    ensures |Printed(text)| <= |Header(Split(text, '\n'))|
    ensures forall i :: 0 <= i < |Printed(text)| ==>
              Printed(text)[i] <= Header(Split(text, '\n'))[i] && Printed(text)[i] != ""
  {
    var ls := Split(Cut(text), '\n');
    SplitPrefix(Cut(text), text);
    HeaderPrefix(ls, Split(text, '\n'));
    HeaderLines(ls);
    DropEndLines(Header(ls));
  }

  // ------------------------------------------------------ the backstop's test

  /** The blank line ends the scan: what is behind it does not count. */
  lemma BlankLineEnds(p: seq<string>, behind: seq<string>)
    ensures SignedLines(Outdented(p + [""] + behind)) <==> SignedLines(Outdented(p))
  {
    var all, out := Outdented(p + [""] + behind), Outdented(p);
    assert forall i :: 0 <= i < |p| ==> all[i] == out[i];
    assert all[|p|] == "";
    if i: nat :| SignedAt(all, i) {
      assert i < |p|;
      assert SignedAt(out, i);
    }
    if i: nat :| SignedAt(out, i) {
      assert SignedAt(all, i);
    }
  }

  /** Whatever git prints behind the header, the test answers the same. */
  lemma ShownIsTaken(shown: string, text: string)
    requires Shows(shown, text)
    ensures HeaderSigned(shown) <==> TakenAsSigned(text)
  {
    var behind: seq<string> :| Split(shown, '\n') == Printed(text) + [""] + behind;
    BlankLineEnds(Printed(text), behind);
  }

  /** A signature line behind four spaces. */
  predicate IndentedSignature(l: string)
  {
    INDENT <= l && SignatureLine(l[|INDENT|..])
  }

  lemma StrippedLine(l: string)
    requires l != ""
    ensures SignatureLine(TrimPrefix(l, INDENT)) <==> SignatureLine(l) || IndentedSignature(l)
    ensures TrimPrefix(l, INDENT) == "" <==> l == INDENT
  {
    assert INDENT <= l ==> l[0] == ' ';
    assert SignatureLine(l) ==> l[0] == 'g';
    assert INDENT <= l && l[|INDENT|..] == "" ==> l == INDENT;
  }

  /** A printed line that counts: a signature line, indented or not, with no line
      of four spaces alone before it. */
  predicate CountsAt(p: seq<string>, i: nat)
  {
    i < |p| && (SignatureLine(p[i]) || IndentedSignature(p[i])) && INDENT !in p[..i]
  }

  lemma CountsIsSigned(p: seq<string>, i: nat)
    requires forall j :: 0 <= j < |p| ==> p[j] != ""
    ensures CountsAt(p, i) <==> SignedAt(Outdented(p), i)
  {
    var out := Outdented(p);
    forall j | 0 <= j < |p|
      ensures out[j] == TrimPrefix(p[j], INDENT)
      ensures SignatureLine(out[j]) <==> SignatureLine(p[j]) || IndentedSignature(p[j])
      ensures out[j] == "" <==> p[j] == INDENT
    {
      StrippedLine(p[j]);
    }
    if i < |p| {
      assert INDENT !in p[..i] <==> forall j :: 0 <= j < i ==> p[j] != INDENT;
      assert SignatureLine(out[i]) ==> out[i] != "";
    }
  }

  lemma TakenIsCounted(text: string)
    ensures TakenAsSigned(text) <==> exists i: nat :: CountsAt(Printed(text), i)
  {
    PrintedLines(text);
    forall i: nat
      ensures CountsAt(Printed(text), i) <==> SignedAt(Outdented(Printed(text)), i)
    {
      CountsIsSigned(Printed(text), i);
    }
  }

  /** No header line is a signature line, and an indented one counts. */
  ghost predicate Misread(text: string)
  {
    !AnySignatureLine(Header(Split(text, '\n')))
    && exists i: nat :: i < |Printed(text)| && IndentedSignature(Printed(text)[i]) && INDENT !in Printed(text)[..i]
  }

  /** A header line is a signature line, and every one git prints, indented or
      not, stands behind a line of four spaces alone. */
  ghost predicate Missed(text: string)
  {
    AnySignatureLine(Header(Split(text, '\n')))
    && forall i: nat :: i < |Printed(text)| && (SignatureLine(Printed(text)[i]) || IndentedSignature(Printed(text)[i]))
         ==> INDENT in Printed(text)[..i]
  }

  lemma PrintedSignature(text: string, i: nat)
    requires i < |Printed(text)| && SignatureLine(Printed(text)[i])
    ensures AnySignatureLine(Header(Split(text, '\n')))
  {
    PrintedLines(text);
    assert Printed(text)[i] <= Header(Split(text, '\n'))[i];
    assert SignatureLine(Header(Split(text, '\n'))[i]);
  }

  /** The backstop takes an unsigned commit as signed, or a signed one as
      unsigned, exactly for these headers; for every other text its answer is
      the meaning of signed. */
  lemma TakenAsSignedIff(text: string)
    ensures TakenAsSigned(text) && !Signed(text) <==> Misread(text)
    ensures Signed(text) && !TakenAsSigned(text) <==> Missed(text)
    ensures (TakenAsSigned(text) <==> Signed(text)) <==> !Misread(text) && !Missed(text)
  {
    var p := Printed(text);
    TakenIsCounted(text);
    SignedIsHeader(Split(text, '\n'));
    if i: nat :| CountsAt(p, i) {
      if SignatureLine(p[i]) {
        PrintedSignature(text, i);
      }
    }
    if i: nat :| i < |p| && IndentedSignature(p[i]) && INDENT !in p[..i] {
      assert CountsAt(p, i);
    }
    if !(exists i: nat :: CountsAt(p, i)) {
      forall i: nat | i < |p| && (SignatureLine(p[i]) || IndentedSignature(p[i]))
        ensures INDENT in p[..i]
      {
        assert !CountsAt(p, i);
      }
    }
  }

  /** On what git prints, the backstop and resign agree on every commit but
      these. */
  lemma BackstopVersusResign(text: string)
    requires Split(text, '\n')[0] != ""
    ensures (TakenAsSigned(text) <==> RawSigned(text)) <==> !Misread(text) && !Missed(text)
  {
    TakenAsSignedIff(text);
    RawIsSigned(text);
  }

  /** A commit without a NUL, no header line of which starts with four spaces,
      and whose header does not end in blanks. */
  predicate PlainHeader(text: string)
  {
    var h := Header(Split(text, '\n'));
    && '\0' !in text
    && (forall i :: 0 <= i < |h| ==> !(INDENT <= h[i]))
    && (h != [] ==> TrimEnd(h[|h| - 1]) == h[|h| - 1])
  }

  lemma PlainIsPrinted(text: string)
    requires PlainHeader(text)
    ensures Printed(text) == Header(Split(text, '\n'))
  {
    FindNone(text, '\0');
    assert Cut(text) == text;
    var h := Header(Split(text, '\n'));
    HeaderLines(Split(text, '\n'));
    if h != [] {
      assert h[..|h| - 1] + [h[|h| - 1]] == h;
    }
  }

  /** Such a commit is read exactly. */
  lemma PlainIsExact(text: string)
    requires PlainHeader(text)
    ensures TakenAsSigned(text) <==> Signed(text)
  {
    var p := Printed(text);
    PlainIsPrinted(text);
    TakenAsSignedIff(text);
    if AnySignatureLine(p) {
      var i: nat :| i < |p| && SignatureLine(p[i]);
      assert INDENT !in p[..i];
    }
  }

  predicate OneLine(s: string)
  {
    '\n' !in s && '\0' !in s
  }

  lemma {:induction false} HeaderOf(h: seq<string>, m: seq<string>)
    requires forall k :: 0 <= k < |h| ==> h[k] != ""
    ensures Header(h + [""] + m) == h
  {
    var ls := h + [""] + m;
    if h != [] {
      assert ls[1..] == h[1..] + [""] + m;
      HeaderOf(h[1..], m);
    }
  }

  predicate OneLines(ls: seq<string>)
  {
    forall k :: 0 <= k < |ls| ==> OneLine(ls[k])
  }

  lemma ComposedLines(h: seq<string>, m: seq<string>)
    requires OneLines(h) && OneLines(m)
    ensures OneLines(h + [""] + m)
  {
    var ls := h + [""] + m;
    forall i | 0 <= i < |ls|
      ensures OneLine(ls[i])
    {
      assert i < |h| ==> ls[i] == h[i];
      assert i > |h| ==> ls[i] == m[i - |h| - 1];
    }
  }

  lemma HeaderShown(text: string, h: seq<string>, m: seq<string>)
    requires '\0' !in text && Split(text, '\n') == h + [""] + m && Header(h + [""] + m) == h
    requires m != [] && TrimEnd(m[0]) != ""
    ensures Printed(text) == h
  {
    FindNone(text, '\0');
    assert Cut(text) == text;
    var ls := h + [""] + m;
    assert ls[|h| + 1] == m[0] && !NoMessage(ls);
  }

  /** A commit put together from its header lines and the lines of its message
      is printed with that header. */
  lemma Composed(h: seq<string>, m: seq<string>)
    requires OneLines(h) && OneLines(m) && (forall k :: 0 <= k < |h| ==> h[k] != "") && m != [] && TrimEnd(m[0]) != ""
    ensures var text := Join(h + [""] + m, '\n'); Header(Split(text, '\n')) == h == Printed(text)
  {
    var ls := h + [""] + m;
    ComposedLines(h, m);
    SplitJoin(ls, '\n');
    JoinAvoids(ls, '\n', '\0');
    HeaderOf(h, m);
    HeaderShown(Join(ls, '\n'), h, m);
  }

  /** An unsigned commit is misread when one of its header lines is a signature
      line behind four spaces, and none before it is four spaces alone. */
  lemma MisreadHeader(h: seq<string>, i: nat, m: seq<string>)
    requires OneLines(h) && OneLines(m) && (forall k :: 0 <= k < |h| ==> h[k] != "") && m != [] && TrimEnd(m[0]) != ""
    requires !AnySignatureLine(h) && i < |h| && IndentedSignature(h[i]) && INDENT !in h[..i]
    ensures var text := Join(h + [""] + m, '\n'); Misread(text) && TakenAsSigned(text) && !Signed(text)
  {
    var text := Join(h + [""] + m, '\n');
    Composed(h, m);
    assert Printed(text)[..i] == h[..i];
    TakenAsSignedIff(text);
  }

  /** The commit that shows it, with any tree, author and committer: the header
      git wants, and one more line, indented by four spaces. */
  function IndentedCommit(tree: string, author: string, committer: string): string
  {
    var h := ["tree " + tree, "author " + author, "committer " + committer];
    Join(h + ["    gpgsig x"] + [""] + ["message"], '\n')
  }

  lemma FirstTells(l: string)
    requires l != "" && l[0] != 'g'
    ensures !SignatureLine(l) && (l[0] != ' ' ==> l != INDENT)
  {
    assert "gpgsig "[0] == 'g' && "gpgsig-sha256 "[0] == 'g' && INDENT[0] == ' ';
  }

  lemma MisreadBehind(h: seq<string>, g: string, m: string)
    requires OneLines(h) && OneLine(g) && OneLine(m) && TrimEnd(m) != ""
    requires forall k :: 0 <= k < |h| ==> h[k] != "" && h[k][0] != 'g' && h[k][0] != ' '
    requires IndentedSignature(g) && g[0] != 'g'
    ensures var text := Join(h + [g] + [""] + [m], '\n'); Misread(text) && TakenAsSigned(text) && !Signed(text)
  {
    var ls := h + [g];
    forall k | 0 <= k < |ls|
      ensures OneLine(ls[k]) && ls[k] != "" && !SignatureLine(ls[k]) && (k < |h| ==> ls[k] != INDENT)
    {
      FirstTells(if k < |h| then h[k] else g);
    }
    assert ls[..|h|] == h;
    MisreadHeader(ls, |h|, [m]);
  }

  lemma MisreadText(tree: string, author: string, committer: string)
    requires OneLine(tree) && OneLine(author) && OneLine(committer)
    ensures var text := IndentedCommit(tree, author, committer);
            Misread(text) && TakenAsSigned(text) && !Signed(text)
  {
    var t, a, c := "tree " + tree, "author " + author, "committer " + committer;
    var g, m := "    gpgsig x", "message";
    assert t[0] == 't' && a[0] == 'a' && c[0] == 'c' && g[0] == ' ';
    assert g[4..] == "gpgsig x" && IndentedSignature(g);
    assert m[6] == 'e' && TrimEnd(m) == m;
    MisreadBehind([t, a, c], g, m);
  }

  /** Spaces, tabs and carriage returns at a line's end are blanks. */
  lemma BlanksGone(l: string)
    ensures TrimEnd(l + " ") == TrimEnd(l + "\t") == TrimEnd(l + "\r") == TrimEnd(l)
  {
    assert (l + " ")[..|l|] == (l + "\t")[..|l|] == (l + "\r")[..|l|] == l;
  }

  lemma BareEnd(h: seq<string>, g: string) returns (w: string)
    requires g == "gpgsig "
    ensures DropEnd(h + [g]) == h + [w] && !SignatureLine(w) && !IndentedSignature(w)
    ensures OneLine(g) && SignatureLine(g)
  {
    w := "gpgsig";
    assert (h + [g])[..|h|] == h && (h + [g])[|h|] == g;
    assert w[5] == 'g' && TrimEnd(w) == w;
    BlanksGone(w);
    assert g == w + " ";
  }

  lemma EmptyMessage(text: string, h: seq<string>)
    requires OneLines(h) && (forall k :: 0 <= k < |h| ==> h[k] != "") && text == Join(h + [""] + [""], '\n')
    ensures Header(Split(text, '\n')) == h && Printed(text) == DropEnd(h)
  {
    var ls := h + [""] + [""];
    ComposedLines(h, [""]);
    SplitJoin(ls, '\n');
    JoinAvoids(ls, '\n', '\0');
    HeaderOf(h, [""]);
    FindNone(text, '\0');
    assert Cut(text) == text && NoMessage(ls);
  }

  lemma NoneSigned(h: seq<string>, w: string)
    requires !SignatureLine(w) && !IndentedSignature(w)
    requires forall k :: 0 <= k < |h| ==> !SignatureLine(h[k]) && !IndentedSignature(h[k])
    ensures forall i :: 0 <= i < |h + [w]| ==> !SignatureLine((h + [w])[i]) && !IndentedSignature((h + [w])[i])
  {
  }

  lemma EndMissed(h: seq<string>, g: string, w: string)
    requires OneLines(h) && OneLine(g) && SignatureLine(g) && !SignatureLine(w) && !IndentedSignature(w)
    requires forall k :: 0 <= k < |h| ==> h[k] != "" && !SignatureLine(h[k]) && !IndentedSignature(h[k])
    requires DropEnd(h + [g]) == h + [w]
    ensures var text := Join(h + [g] + [""] + [""], '\n'); Missed(text) && Signed(text) && !TakenAsSigned(text)
  {
    var text := Join(h + [g] + [""] + [""], '\n');
    EmptyMessage(text, h + [g]);
    assert AnySignatureLine(h + [g]) by {
      assert SignatureLine((h + [g])[|h|]);
    }
    NoneSigned(h, w);
    assert Missed(text);
    TakenAsSignedIff(text);
  }

  /** The other way round: with no message, git takes the blanks off the end of
      the header, so a signed commit whose last header line is the bare keyword
      is one the test takes as unsigned. */
  lemma BareSignatureMissed(h: seq<string>)
    requires OneLines(h)
    requires forall k :: 0 <= k < |h| ==> h[k] != "" && !SignatureLine(h[k]) && !IndentedSignature(h[k])
    ensures var text := Join(h + ["gpgsig "] + [""] + [""], '\n');
            Missed(text) && Signed(text) && !TakenAsSigned(text)
  {
    var w := BareEnd(h, "gpgsig ");
    EndMissed(h, "gpgsig ", w);
  }

  /** git can print every commit. */
  lemma PrintedBack(text: string) returns (shown: string)
    ensures Shows(shown, text)
  {
    var lines := Printed(text) + [""];
    PrintedLines(text);
    SplitPieces(text, '\n');
    HeaderLines(Split(text, '\n'));
    forall i | 0 <= i < |lines|
      ensures '\n' !in lines[i] && '\0' !in lines[i]
    {
      if i < |Printed(text)| {
        PrintedAvoids(text, i);
      }
    }
    shown := Join(lines, '\n');
    SplitJoin(lines, '\n');
    JoinAvoids(lines, '\n', '\0');
    assert lines == lines + [];
  }

  lemma PrintedAvoids(text: string, i: nat)
    requires i < |Printed(text)|
    ensures '\n' !in Printed(text)[i] && '\0' !in Printed(text)[i]
  {
    var ls := Split(Cut(text), '\n');
    SplitPieces(Cut(text), '\n');
    SplitAvoids(Cut(text), '\n', '\0');
    HeaderLines(ls);
    DropEndLines(Header(ls));
    assert '\n' !in ls[i] && '\0' !in ls[i];
    assert Printed(text)[i] <= ls[i];
  }
}
