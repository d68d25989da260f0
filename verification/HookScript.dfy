/**
 The three git hooks `innsegl link` writes (link.go, mirrorpush.go,
 hookreftx.go), and how the binary they run is read back out of them
 (hookScriptBin in doctorrights.go).
 */
module HookScript {
  import opened Options
  import opened Text
  import opened ShellQuoting

  /** What follows the binary in every hook. */
  const TOKEN := " git-hook "

  datatype Hook = PrepareCommitMsg | PostCommit | ReferenceTransaction

  function Name(h: Hook): string
  {
    match h
    case PrepareCommitMsg => "prepare-commit-msg"
    case PostCommit => "post-commit"
    case ReferenceTransaction => "reference-transaction"
  }

  /** Embedded in the hook; how innsegl tells its own hook from another's. */
  function Marker(h: Hook): string
  {
    "innsegl link managed " + Name(h) + " hook"
  }

  function Lines(ls: seq<string>): string
  {
    if ls == [] then "" else ls[0] + "\n" + Lines(ls[1..])
  }

  function MarkerLine(h: Hook): string
  {
    "# " + Marker(h) + " \U{2014} do not edit by hand."
  }

  const SEE := "# See `innsegl link -remove <repo>` " + "to remove it and restore what was here"
  const ANYTHING := "# before, if anything."
  const GUARD := "if [ \"${1:-}\" = prepared ] && { " + "[ -n \"${CLAUDECODE:-}\" ] || " +
                 "[ -n \"${INNSEGL_TOOL_USE_ID:-}\" ]; }; " + "then"

  /** The lines in front of the one that runs the binary. */
  function Preamble(h: Hook): seq<string>
  {
    ["#!/bin/sh", MarkerLine(h), SEE, ANYTHING] +
    match h
    case PrepareCommitMsg => ["set -eu"]
    case PostCommit => []
    case ReferenceTransaction => ["set -eu", "input=$(cat)", GUARD]
  }

  const PRINTF := "\tprintf "
  const FORMAT := "%s\\n"
  const INPUT := " \"$input\" | "

  /** The text in front of the binary on its line. */
  function Lead(h: Hook): string
  {
    if h == ReferenceTransaction then PRINTF + "'" + FORMAT + "'" + INPUT else ""
  }

  function Arguments(h: Hook): string
  {
    Name(h) + " \"$@\"" + if h == PostCommit then " || :" else ""
  }

  function BinLine(h: Hook, bin: string): string
  {
    Lead(h) + ShellQuote(bin) + TOKEN + Arguments(h)
  }

  /** Running what was there before, if anything. */
  function Epilogue(h: Hook, previous: string): seq<string>
  {
    var test := "if [ -x " + ShellQuote(previous) + " ]; then";
    if h == ReferenceTransaction then
      ["fi", test, Lead(h) + ShellQuote(previous) + " \"$@\"", "fi"]
    else
      [test, "\texec " + ShellQuote(previous) + " \"$@\"", "fi"]
  }

  function ScriptLines(h: Hook, bin: string, previous: string): seq<string>
  {
    Preamble(h) + [BinLine(h, bin)] + Epilogue(h, previous)
  }

  /** linkHookScript, linkPostCommitScript and linkRefTxScript. */
  function Script(h: Hook, bin: string, previous: string): string
  {
    Lines(ScriptLines(h, bin, previous))
  }

  // ------------------------------------------------------------- reading

  /** strings.Index. */
  function IndexOf(s: string, t: string): (r: Option<nat>)
    decreases |s|
  {
    if t <= s then Some(0) else
    if s == [] then None else
    match IndexOf(s[1..], t)
    case None => None
    case Some(k) => Some(k + 1)
  }

  /** A quoted word that starts at `i` and stops right at `end`. */
  function WordTo(line: string, i: nat, end: nat): Option<string>
  {
    if i < end && i < |line| && line[i] == '\'' then
      match ParseQuoted(line[i..])
      case None => None
      case Some(Word(v, n)) => if i + n == end then Some(v) else None
    else None
  }

  /** The first such word from `i` on. */
  function WordFrom(line: string, i: nat, end: nat): Option<string>
    decreases end - i
  {
    if i >= end then None else
    match WordTo(line, i, end)
    case Some(v) => Some(v)
    case None => WordFrom(line, i + 1, end)
  }

  function LineBin(line: string): Option<string>
  {
    match IndexOf(line, TOKEN)
    case None => None
    case Some(end) => WordFrom(line, 0, end)
  }

  function LinesBin(ls: seq<string>): string
  {
    if ls == [] then "" else
    match LineBin(ls[0])
    case Some(v) => v
    case None => LinesBin(ls[1..])
  }

  function ScriptBin(script: string): string
  {
    LinesBin(Split(script, '\n'))
  }

  method LineScan(line: string, end: nat) returns (r: Option<string>)
    requires end <= |line|
    ensures r == WordFrom(line, 0, end)
  {
    for i := 0 to end
      invariant WordFrom(line, 0, end) == WordFrom(line, i, end)
    {
      if line[i] != '\'' {
        continue;
      }
      var w := ParseSingleQuoted(line[i..]);
      if w.Some? && i + w.value.length == end {
        return Some(w.value.value);
      }
    }
    return None;
  }

  /** hookScriptBin. */
  method HookScriptBin(script: string) returns (bin: string)
    ensures bin == ScriptBin(script)
  {
    var ls := Split(script, '\n');
    for k := 0 to |ls|
      invariant LinesBin(ls) == LinesBin(ls[k..])
    {
      var end := IndexOf(ls[k], TOKEN);
      if end.None? {
        continue;
      }
      IndexFound(ls[k], TOKEN);
      var r := LineScan(ls[k], end.value);
      if r.Some? {
        return r.value;
      }
    }
    return "";
  }

  // ------------------------------------------------------ facts on Index

  lemma {:induction false} IndexFound(s: string, t: string)
    ensures IndexOf(s, t).Some? ==> IndexOf(s, t).value + |t| <= |s| && t <= s[IndexOf(s, t).value..]
    ensures IndexOf(s, t).Some? <==> Contains(s, t)
    ensures IndexOf(s, t).Some? ==> forall k :: 0 <= k < IndexOf(s, t).value ==> !(t <= s[k..])
  {
    assert s[0..] == s;
    if !(t <= s) && s != [] {
      IndexFound(s[1..], t);
      assert forall k :: 0 < k <= |s| ==> s[1..][k - 1..] == s[k..];
    }
  }

  lemma {:induction false} IndexAfter(x: string, t: string, rest: string)
    requires t != "" && (x != [] ==> x[|x| - 1] !in t) && !Contains(x, t)
    ensures IndexOf(x + t + rest, t) == Some(|x|)
  {
    var s := x + t + rest;
    if x == [] {
      assert s == t + rest;
    } else {
      assert !(t <= s) by {
        assert |t| <= |x| && t <= s ==> t <= x;
        assert s[|x| - 1] == x[|x| - 1];
      }
      assert s[1..] == x[1..] + t + rest;
      IndexAfter(x[1..], t, rest);
    }
  }

  // ------------------------------------------------------- quiet lines

  /** One line, with no "-h" in it and so no TOKEN. */
  predicate Quiet(s: string)
  {
    forall i :: 0 <= i < |s| ==> s[i] != '\n' && !(i + 1 < |s| && s[i] == '-' && s[i + 1] == 'h')
  }

  lemma QuietConcat(a: string, b: string)
    requires Quiet(a) && Quiet(b)
    requires a == "" || b == "" || a[|a| - 1] != '-' || b[0] != 'h'
    ensures Quiet(a + b)
  {
    var s := a + b;
    forall i | 0 <= i < |s|
      ensures s[i] != '\n' && !(i + 1 < |s| && s[i] == '-' && s[i + 1] == 'h')
    {
      if i >= |a| {
        assert s[i] == b[i - |a|];
        assert i + 1 < |s| ==> s[i + 1] == b[i + 1 - |a|];
      } else {
        assert s[i] == a[i];
        assert i + 1 < |a| ==> s[i + 1] == a[i + 1];
      }
    }
  }

  lemma TokenHyphen(s: string, k: nat)
    requires k <= |s| && TOKEN <= s[k..]
    ensures k + 5 < |s| && s[k + 4] == '-' && s[k + 5] == 'h'
  {
    assert TOKEN[4] == s[k..][4] && TOKEN[5] == s[k..][5];
  }

  lemma QuietNoToken(s: string)
    requires Quiet(s)
    ensures !Contains(s, TOKEN) && '\n' !in s
  {
    ContainsAt(s, TOKEN);
    forall k | 0 <= k <= |s| && TOKEN <= s[k..]
      ensures false
    {
      TokenHyphen(s, k);
    }
  }

  lemma QuietName(h: Hook)
    ensures Quiet(Name(h)) && Name(h) != "" && Name(h)[0] != 'h' && Name(h)[|Name(h)| - 1] != '-'
  {}

  lemma QuietMarkerLine(h: Hook)
    ensures Quiet(MarkerLine(h))
  {
    QuietName(h);
    var a := "innsegl link managed ";
    assert Quiet(a) && Quiet("# ") && Quiet(" hook") && Quiet(" \U{2014} do not edit by hand.");
    QuietConcat(a, Name(h));
    QuietConcat(a + Name(h), " hook");
    QuietConcat("# ", Marker(h));
    QuietConcat("# " + Marker(h), " \U{2014} do not edit by hand.");
  }

  lemma QuietSee()
    ensures Quiet(SEE)
  {
    var a, b := "# See `innsegl link -remove <repo>` ", "to remove it and restore what was here";
    assert Quiet(a);
    assert Quiet(b);
    QuietConcat(a, b);
  }

  lemma QuietGuard()
    ensures Quiet(GUARD)
  {
    var a, b := "if [ \"${1:-}\" = prepared ] && { ", "[ -n \"${CLAUDECODE:-}\" ] || ";
    var c, d := "[ -n \"${INNSEGL_TOOL_USE_ID:-}\" ]; }; ", "then";
    assert Quiet(a);
    assert Quiet(b);
    assert Quiet(c);
    assert Quiet(d);
    QuietConcat(a, b);
    QuietConcat(a + b, c);
    QuietConcat(a + b + c, d);
  }

  lemma QuietPlain()
    ensures Quiet("#!/bin/sh") && Quiet(ANYTHING) && Quiet("set -eu") && Quiet("input=$(cat)")
  {
  }

  lemma QuietPreamble(h: Hook, i: nat)
    requires i < |Preamble(h)|
    ensures Quiet(Preamble(h)[i])
  {
    QuietMarkerLine(h);
    QuietSee();
    QuietGuard();
    QuietPlain();
  }

  lemma {:induction false} SkipQuiet(ls: seq<string>, tail: string)
    requires forall i :: 0 <= i < |ls| ==> Quiet(ls[i])
    ensures ScriptBin(Lines(ls) + tail) == ScriptBin(tail)
  {
    if ls == [] {
      assert Lines(ls) + tail == tail;
    } else {
      SkipQuiet(ls[1..], tail);
      QuietNoToken(ls[0]);
      IndexFound(ls[0], TOKEN);
      var rest := Lines(ls[1..]) + tail;
      assert Lines(ls) + tail == ls[0] + ['\n'] + rest;
      SplitCons(ls[0], rest, '\n');
      assert Split(Lines(ls) + tail, '\n')[1..] == Split(rest, '\n');
    }
  }

  lemma {:induction false} LinesConcat(a: seq<string>, b: seq<string>)
    ensures Lines(a + b) == Lines(a) + Lines(b)
  {
    if a == [] {
      assert a + b == b;
    } else {
      assert (a + b)[1..] == a[1..] + b;
      LinesConcat(a[1..], b);
    }
  }

  // ------------------------------------------------ the binary's own line

  lemma NoQuoteInToken()
    ensures '\'' !in TOKEN && TOKEN != "" && TOKEN[0] == ' '
  {}

  /** The quoted binary holds no TOKEN unless the binary does. */
  lemma QuoteNoToken(lead: string, bin: string)
    requires !Contains(lead, TOKEN) && !Contains(bin, TOKEN)
    ensures !Contains(lead + ShellQuote(bin), TOKEN)
  {
    NoQuoteInToken();
    var e := Escape(bin);
    if Contains(e, TOKEN) {
      EscapeContains(bin, TOKEN);
    }
    ContainsAcross(e, '\'', "", TOKEN);
    assert e + ['\''] + "" == e + "'";
    ContainsAcross(lead, '\'', e + "'", TOKEN);
    assert lead + ['\''] + (e + "'") == lead + ShellQuote(bin);
  }

  lemma TokenIndex(lead: string, bin: string, args: string)
    requires !Contains(lead, TOKEN) && !Contains(bin, TOKEN)
    ensures IndexOf(lead + ShellQuote(bin) + TOKEN + args, TOKEN) == Some(|lead| + |ShellQuote(bin)|)
  {
    NoQuoteInToken();
    QuoteNoToken(lead, bin);
    var x := lead + ShellQuote(bin);
    assert x[|x| - 1] == '\'';
    IndexAfter(x, TOKEN, args);
  }

  /** At the binary's opening quote the word stops right at the TOKEN. */
  lemma WordAtBin(lead: string, bin: string, args: string)
    ensures WordTo(lead + ShellQuote(bin) + TOKEN + args, |lead|, |lead| + |ShellQuote(bin)|) == Some(bin)
  {
    var line := lead + ShellQuote(bin) + TOKEN + args;
    var tail := TOKEN + args;
    assert line[|lead|..] == ShellQuote(bin) + tail;
    assert line[|lead|] == '\'';
    assert tail[0] == ' ';
    assert GOES_ON[0] == '\\';
    QuoteRoundTrip(bin, tail);
  }

  lemma {:induction false} WordFirst(line: string, i: nat, j: nat, end: nat)
    requires i <= j < end && WordTo(line, j, end).Some?
    requires forall k :: i <= k < j ==> WordTo(line, k, end).None?
    ensures WordFrom(line, i, end) == WordTo(line, j, end)
    decreases j - i
  {
    if i < j {
      WordFirst(line, i + 1, j, end);
    }
  }

  /** What follows the opening quote of a quoted binary never goes on with a
      word that a quote there would close. */
  lemma BinDoesNotGoOn(bin: string, tail: string)
    requires tail != "" && tail[0] != '\''
    ensures !(GOES_ON <= Escape(bin) + "'" + tail)
  {
    var s := Escape(bin) + "'" + tail;
    assert GOES_ON[0] == '\\' && GOES_ON[1] == '\'' && GOES_ON[2] == '\'';
    if bin != "" && bin[0] == '\\' {
      var e := Escape(bin[1..]);
      assert Escape(bin) == ['\\'] + e;
      if bin[1..] == "" {
        assert s[2] == tail[0];
      } else if bin[1] == '\'' {
        assert e == REOPEN + Escape(bin[1..][1..]);
        assert s[2] == REOPEN[1] == '\\';
      } else {
        assert e[0] == bin[1];
        assert s[1] == e[0];
      }
    } else if bin == "" {
      assert s[0] == '\'';
    } else {
      assert s[0] == Escape(bin)[0] == EscapeChar(bin[0])[0];
    }
  }

  /** A quoted word in plain text: up to the next quote, when it stops there. */
  lemma PlainWord(b: string, rest: string)
    requires '\'' !in b && !(GOES_ON <= rest)
    ensures ParseQuoted("'" + b + "'" + rest) == Some(Word(b, |b| + 2))
  {
    var s := "'" + b + "'" + rest;
    var t := "'" + rest;
    assert s[1..] == b + t;
    ParseRun(b, t);
    ParseClose(rest);
    assert b + "" == b && "" + b == b;
  }

  /** In the reference-transaction hook the line has a quoted format in front
      of the binary; neither of its quotes starts a word that ends at TOKEN. */
  lemma FormatWord(bin: string, tail: string)
    ensures WordTo(Lead(ReferenceTransaction) + ShellQuote(bin) + tail, |PRINTF|,
                   |Lead(ReferenceTransaction)| + |ShellQuote(bin)|).None?
  {
    var a, b, c := PRINTF, FORMAT, INPUT;
    var line := Lead(ReferenceTransaction) + ShellQuote(bin) + tail;
    var rest := c + ShellQuote(bin) + tail;
    assert line[|a|..] == "'" + b + "'" + rest;
    assert rest[0] == ' ' && GOES_ON[0] == '\\';
    PlainWord(b, rest);
  }

  lemma BetweenWords(bin: string, tail: string)
    requires tail != "" && tail[0] == ' '
    ensures WordTo(Lead(ReferenceTransaction) + ShellQuote(bin) + tail, |PRINTF| + 1 + |FORMAT|,
                   |Lead(ReferenceTransaction)| + |ShellQuote(bin)|).None?
  {
    var a, b, c := PRINTF, FORMAT, INPUT;
    var line := Lead(ReferenceTransaction) + ShellQuote(bin) + tail;
    var rest := Escape(bin) + "'" + tail;
    assert line[|a| + 1 + |b|..] == "'" + c + "'" + rest;
    BinDoesNotGoOn(bin, tail);
    PlainWord(c, rest);
  }

  lemma LeadHasNoWord(bin: string, tail: string, k: nat)
    requires tail != "" && tail[0] == ' '
    requires k < |Lead(ReferenceTransaction)|
    ensures WordTo(Lead(ReferenceTransaction) + ShellQuote(bin) + tail, k,
                   |Lead(ReferenceTransaction)| + |ShellQuote(bin)|).None?
  {
    var lead := Lead(ReferenceTransaction);
    var line := lead + ShellQuote(bin) + tail;
    assert line[k] == lead[k];
    if k == |PRINTF| {
      FormatWord(bin, tail);
    } else if k == |PRINTF| + 1 + |FORMAT| {
      BetweenWords(bin, tail);
    } else {
      NoOtherQuote(k);
    }
  }

  lemma NoOtherQuote(k: nat)
    requires k < |Lead(ReferenceTransaction)| && k != |PRINTF| && k != |PRINTF| + 1 + |FORMAT|
    ensures Lead(ReferenceTransaction)[k] != '\''
  {
    var lead := Lead(ReferenceTransaction);
    if k < |PRINTF| {
      assert lead[k] == PRINTF[k];
    } else if k < |PRINTF| + 1 + |FORMAT| {
      assert lead[k] == FORMAT[k - |PRINTF| - 1];
    } else {
      assert lead[k] == INPUT[k - |PRINTF| - |FORMAT| - 2];
    }
  }

  lemma QuietLead(h: Hook)
    ensures Quiet(Lead(h))
  {
    if h == ReferenceTransaction {
      assert Quiet(PRINTF) && Quiet("'") && Quiet(FORMAT) && Quiet(INPUT);
      QuietConcat(PRINTF, "'");
      QuietConcat(PRINTF + "'", FORMAT);
      QuietConcat(PRINTF + "'" + FORMAT, "'");
      QuietConcat(PRINTF + "'" + FORMAT + "'", INPUT);
    }
  }

  lemma NoWordBefore(h: Hook, bin: string, k: nat)
    requires k < |Lead(h)|
    ensures WordTo(BinLine(h, bin), k, |Lead(h)| + |ShellQuote(bin)|).None?
  {
    var tail := TOKEN + Arguments(h);
    assert tail[0] == ' ';
    assert BinLine(h, bin) == Lead(h) + ShellQuote(bin) + tail;
    LeadHasNoWord(bin, tail, k);
  }

  lemma WordIsBin(line: string, lead: nat, end: nat, bin: string)
    requires IndexOf(line, TOKEN) == Some(end) && lead < end && WordTo(line, lead, end) == Some(bin)
    requires forall k :: 0 <= k < lead ==> WordTo(line, k, end).None?
    ensures LineBin(line) == Some(bin)
  {
    WordFirst(line, 0, lead, end);
  }

  lemma BinLineRead(h: Hook, bin: string)
    requires !Contains(bin, TOKEN)
    ensures LineBin(BinLine(h, bin)) == Some(bin)
  {
    QuietLead(h);
    QuietNoToken(Lead(h));
    TokenIndex(Lead(h), bin, Arguments(h));
    WordAtBin(Lead(h), bin, Arguments(h));
    var line, end := BinLine(h, bin), |Lead(h)| + |ShellQuote(bin)|;
    forall k | 0 <= k < |Lead(h)|
      ensures WordTo(line, k, end).None?
    {
      NoWordBefore(h, bin, k);
    }
    WordIsBin(line, |Lead(h)|, end, bin);
  }

  lemma {:induction false} EscapeAvoids(w: string, c: char)
    requires c !in w && c != '\'' && c != '\\'
    ensures c !in Escape(w)
  {
    if w != [] {
      EscapeAvoids(w[1..], c);
    }
  }

  lemma BinLineIsOneLine(h: Hook, bin: string)
    requires '\n' !in bin
    ensures '\n' !in BinLine(h, bin)
  {
    QuietLead(h);
    QuietNoToken(Lead(h));
    EscapeAvoids(bin, '\n');
    QuietName(h);
    QuietNoToken(Name(h));
    assert '\n' !in TOKEN;
  }

  lemma LinesMiddle(pre: seq<string>, line: string, post: seq<string>)
    ensures Lines(pre + [line] + post) == Lines(pre) + (line + ['\n'] + Lines(post))
  {
    LinesConcat(pre + [line], post);
    LinesConcat(pre, [line]);
    assert Lines([line]) == line + "\n" + Lines([]);
  }

  lemma ScriptParts(h: Hook, bin: string, previous: string)
    ensures Script(h, bin, previous) ==
            Lines(Preamble(h)) + (BinLine(h, bin) + ['\n'] + Lines(Epilogue(h, previous)))
  {
    LinesMiddle(Preamble(h), BinLine(h, bin), Epilogue(h, previous));
  }

  lemma FirstLineBin(line: string, rest: string)
    requires '\n' !in line && LineBin(line).Some?
    ensures ScriptBin(line + ['\n'] + rest) == LineBin(line).value
  {
    SplitCons(line, rest, '\n');
  }

  /** The forward half: whatever quotes the binary's path or the saved path
      hold, the binary is read back. */
  lemma ReadsBack(h: Hook, bin: string, previous: string)
    requires '\n' !in bin && !Contains(bin, TOKEN)
    ensures ScriptBin(Script(h, bin, previous)) == bin
  {
    ScriptParts(h, bin, previous);
    var pre := Preamble(h);
    forall i | 0 <= i < |pre|
      ensures Quiet(pre[i])
    {
      QuietPreamble(h, i);
    }
    BinLineIsOneLine(h, bin);
    BinLineRead(h, bin);
    var line, rest := BinLine(h, bin), Lines(Epilogue(h, previous));
    SkipQuiet(pre, line + ['\n'] + rest);
    FirstLineBin(line, rest);
  }

  // ----------------------------------------------------- what is ever read

  lemma {:induction false} ParsedAvoids(s: string, c: char)
    requires c !in s && c != '\''
    ensures ParseRest(s).Some? ==> c !in ParseRest(s).value.value
    decreases |s|
  {
    if s != [] {
      if s[0] != '\'' {
        ParsedAvoids(s[1..], c);
      } else if GOES_ON <= s[1..] {
        ParsedAvoids(s[4..], c);
      }
    }
  }

  lemma AtQuote(r: string)
    requires r != [] && r[0] == '\''
    ensures GOES_ON <= r[1..] ==> r == REOPEN + r[4..] && ParseRest(r) == Prepend("'", 4, ParseRest(r[4..]))
    ensures !(GOES_ON <= r[1..]) ==> ParseRest(r) == Some(Word("", 1))
  {
    if GOES_ON <= r[1..] {
      assert r[1..] == GOES_ON + r[4..];
      assert r == ['\''] + r[1..];
    }
  }

  lemma ShapeAt(a: string, r: string)
    requires '\'' !in a && r != [] && r[0] == '\''
    ensures !(GOES_ON <= r[1..]) ==> ParseRest(a + r) == Some(Word(a, |a| + 1))
    ensures GOES_ON <= r[1..] ==> r == REOPEN + r[4..] &&
                                  ParseRest(a + r) == Prepend(a + ['\''], |a| + 4, ParseRest(r[4..]))
  {
    AtQuote(r);
    ParseRun(a, r);
    assert a + "" == a;
    if GOES_ON <= r[1..] {
      PrependTwice(a, |a|, "'", 4, ParseRest(r[4..]));
    }
  }

  /** A text with a quote: what is before its first one, and the rest. */
  lemma AtFirstQuote(s: string) returns (a: string, r: string)
    requires '\'' in s
    ensures '\'' !in a && s == a + r && r != [] && r[0] == '\''
  {
    var j := Find(s, '\'');
    a, r := s[..j], s[j..];
  }

  /** A word is a run up to a quote, and stops there or goes on behind it. */
  lemma ParsedShape(s: string) returns (a: string, rest: string)
    requires ParseRest(s).Some?
    ensures '\'' !in a
    ensures || (ParseRest(s) == Some(Word(a, |a| + 1)) && a <= s)
            || (|rest| < |s| && ParseRest(rest).Some? && s == a + REOPEN + rest &&
                ParseRest(s) == Prepend(a + ['\''], |a| + 4, ParseRest(rest)))
  {
    ParsedLength(s);
    var r;
    a, r := AtFirstQuote(s);
    rest := s;
    ShapeAt(a, r);
    if GOES_ON <= r[1..] {
      rest := r[4..];
      Regroup(a, REOPEN, rest);
    }
  }

  lemma ContainsEither(a: string, b: string, c: string, t: string)
    requires Contains(a, t) || Contains(c, t)
    ensures Contains(a + b + c, t)
  {
    if Contains(a, t) {
      ContainsWider("", a, b + c, t);
      assert "" + a + (b + c) == a + b + c;
    } else {
      ContainsWider(a + b, c, "", t);
      assert a + b + c + "" == a + b + c;
    }
  }

  /** A TOKEN in a parsed value was in the text the value was parsed from. */
  lemma {:induction false} ParsedToken(s: string, t: string)
    requires '\'' !in t && t != ""
    requires ParseRest(s).Some? && Contains(ParseRest(s).value.value, t)
    ensures 0 < ParseRest(s).value.length <= |s| && Contains(s[..ParseRest(s).value.length - 1], t)
    decreases |s|
  {
    var n := ParseRest(s).value.length;
    ParsedLength(s);
    var a, rest := ParsedShape(s);
    if ParseRest(s) == Some(Word(a, |a| + 1)) && a <= s {
      assert s[..n - 1] == a;
    } else {
      var v, m := ParseRest(rest).value.value, ParseRest(rest).value.length;
      ParsedLength(rest);
      ContainsAcross(a, '\'', v, t);
      var inner := rest[..m - 1];
      assert s[..n - 1] == a + REOPEN + inner;
      if Contains(v, t) {
        ParsedToken(rest, t);
      }
      ContainsEither(a, REOPEN, inner, t);
    }
  }

  lemma {:induction false} ParsedLength(s: string)
    ensures ParseRest(s).Some? ==> 0 < ParseRest(s).value.length <= |s| && '\'' in s
    decreases |s|
  {
    if s != [] {
      if s[0] != '\'' {
        ParsedLength(s[1..]);
      } else if GOES_ON <= s[1..] {
        ParsedLength(s[4..]);
      }
    }
  }

  lemma ContainsWider(a: string, b: string, c: string, t: string)
    requires Contains(b, t)
    ensures Contains(a + b + c, t)
  {
    ContainsAt(b, t);
    var k :| 0 <= k <= |b| && t <= b[k..];
    var s := a + b + c;
    ContainsAt(s, t);
    assert s[|a| + k..] == b[k..] + c;
  }

  lemma WordToAvoids(line: string, i: nat, end: nat)
    requires '\n' !in line && IndexOf(line, TOKEN) == Some(end) && WordTo(line, i, end).Some?
    ensures '\n' !in WordTo(line, i, end).value && !Contains(WordTo(line, i, end).value, TOKEN)
  {
    NoQuoteInToken();
    IndexFound(line, TOKEN);
    var s := line[i + 1..];
    assert line[i..][1..] == s;
    var w := ParseRest(s).value;
    assert WordTo(line, i, end).value == "" + w.value == w.value;
    assert i + 1 + w.length == end;
    ParsedAvoids(s, '\n');
    if Contains(w.value, TOKEN) {
      ParsedToken(s, TOKEN);
      EarlierToken(line, i + 1, w.length - 1);
    }
  }

  lemma EarlierToken(line: string, i: nat, n: nat)
    requires i + n <= |line| && Contains(line[i..][..n], TOKEN)
    ensures exists k :: i <= k < i + n && TOKEN <= line[k..]
  {
    var inner := line[i..][..n];
    ContainsAt(inner, TOKEN);
    var k :| 0 <= k <= |inner| && TOKEN <= inner[k..];
    var rest := line[i + n..];
    assert line[i..] == inner + rest;
    assert line[i + k..] == line[i..][k..] == inner[k..] + rest;
  }

  lemma {:induction false} WordFromAvoids(line: string, i: nat, end: nat)
    requires '\n' !in line && IndexOf(line, TOKEN) == Some(end) && WordFrom(line, i, end).Some?
    ensures '\n' !in WordFrom(line, i, end).value && !Contains(WordFrom(line, i, end).value, TOKEN)
    decreases end - i
  {
    if WordTo(line, i, end).Some? {
      WordToAvoids(line, i, end);
    } else {
      WordFromAvoids(line, i + 1, end);
    }
  }

  /** Whatever text is read, no binary read from it holds a newline or the
      TOKEN. */
  lemma {:induction false} LinesBinAvoids(ls: seq<string>)
    requires forall i :: 0 <= i < |ls| ==> '\n' !in ls[i]
    ensures '\n' !in LinesBin(ls) && !Contains(LinesBin(ls), TOKEN)
  {
    if ls != [] {
      if LineBin(ls[0]).Some? {
        WordFromAvoids(ls[0], 0, IndexOf(ls[0], TOKEN).value);
      } else {
        LinesBinAvoids(ls[1..]);
      }
    }
  }

  /** The exact condition under which a hook names its binary again: the path
      holds no newline and no TOKEN. It does not depend on the saved path. */
  lemma ReadsBackIff(h: Hook, bin: string, previous: string)
    ensures ScriptBin(Script(h, bin, previous)) == bin <==> '\n' !in bin && !Contains(bin, TOKEN)
  {
    if '\n' !in bin && !Contains(bin, TOKEN) {
      ReadsBack(h, bin, previous);
    } else {
      var script := Script(h, bin, previous);
      SplitPieces(script, '\n');
      LinesBinAvoids(Split(script, '\n'));
    }
  }

  lemma {:induction false} LineContained(ls: seq<string>, i: nat, t: string)
    requires i < |ls| && Contains(ls[i], t)
    ensures Contains(Lines(ls), t)
  {
    var rest := Lines(ls[1..]);
    if i == 0 {
      ContainsWider("", ls[0], "\n" + rest, t);
      assert "" + ls[0] + ("\n" + rest) == Lines(ls);
    } else {
      LineContained(ls[1..], i - 1, t);
      ContainsWider(ls[0] + "\n", rest, "", t);
      assert ls[0] + "\n" + rest + "" == Lines(ls);
    }
  }

  /** Every hook carries its own marker. */
  lemma ScriptHasMarker(h: Hook, bin: string, previous: string)
    ensures Contains(Script(h, bin, previous), Marker(h))
  {
    ContainsMiddle("# ", Marker(h), " \U{2014} do not edit by hand.");
    LineContained(Preamble(h) + [BinLine(h, bin)] + Epilogue(h, previous), 1, Marker(h));
  }
}
