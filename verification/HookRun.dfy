/**
 What the three hook scripts do when git runs them: the part of the POSIX Shell
 Command Language they are written in, read line by line, where a newline inside
 quotes does not end a line.
 */
module HookRun {
  import opened Options
  import opened Text
  import opened ShellQuoting
  import opened HookScript

  // ------------------------------------------------------- reading a line

  datatype Cmd =
    | Comment
    | Strict
    | ReadInput
    | IfPrepared
    | IfExecutable(path: string)
    | EndIf
    | Call(path: string, words: seq<string>, piped: bool, tolerant: bool)
    | Exec(path: string)
    | Unknown

  const ARGUMENTS := " \"$@\""
  const TOLERANT := " \"$@\" || :"
  const IF_EXECUTABLE := "if [ -x "
  const THEN := " ]; then"
  const EXEC := "\texec "
  const PIPE := "\tprintf " + "'" + "%s\\n" + "'" + " \"$input\" | "
  const GIT_HOOK := " git-hook "

  /** A command word, what follows it, and git's own arguments. */
  function ParseCall(s: string, piped: bool): Cmd
  {
    match ShellWord(s, false)
    case None => Unknown
    case Some(Word(path, n)) =>
      if n > |s| then Unknown else
      var rest := s[n..];
      if rest == ARGUMENTS then Call(path, [], piped, false) else
      if !(GIT_HOOK <= rest) then Unknown else
      var tail := rest[|GIT_HOOK|..];
      var k := Find(tail, ' ');
      if tail[k..] == ARGUMENTS then Call(path, ["git-hook", tail[..k]], piped, false) else
      if tail[k..] == TOLERANT then Call(path, ["git-hook", tail[..k]], piped, true) else Unknown
  }

  /** A word and then exactly this. */
  function ParseWord(s: string, end: string): Option<string>
  {
    match ShellWord(s, false)
    case None => None
    case Some(Word(path, n)) => if n <= |s| && s[n..] == end then Some(path) else None
  }

  function ParseIf(line: string): Cmd
  {
    if line == "input=$(cat)" then ReadInput else
    if line == "if [ \"${1:-}\" = prepared ] && { " + "[ -n \"${CLAUDECODE:-}\" ] || " +
               "[ -n \"${INNSEGL_TOOL_USE_ID:-}\" ]; }; " + "then" then IfPrepared else
    if !(IF_EXECUTABLE <= line) then Unknown else
    match ParseWord(line[|IF_EXECUTABLE|..], THEN)
    case None => Unknown
    case Some(path) => IfExecutable(path)
  }

  function ParseIndented(line: string): Cmd
  {
    if PIPE <= line then ParseCall(line[|PIPE|..], true) else
    if !(EXEC <= line) then Unknown else
    match ParseWord(line[|EXEC|..], ARGUMENTS)
    case None => Unknown
    case Some(path) => Exec(path)
  }

  function Parse(line: string): Cmd
  {
    if line == "" then Unknown else
    if line[0] == '#' then Comment else
    if line[0] == 's' then (if line == "set -eu" then Strict else Unknown) else
    if line[0] == 'f' then (if line == "fi" then EndIf else Unknown) else
    if line[0] == 'i' then ParseIf(line) else
    if line[0] == '\t' then ParseIndented(line) else ParseCall(line, false)
  }

  function ParseAll(ls: seq<string>): (cs: seq<Cmd>)
    ensures |cs| == |ls| && forall i :: 0 <= i < |ls| ==> cs[i] == Parse(ls[i])
  {
    seq(|ls|, i requires 0 <= i < |ls| => Parse(ls[i]))
  }

  // ---------------------------------------------------------- running them

  /** A program that was run, with its arguments and what it could read. */
  datatype Ran = Ran(path: string, args: seq<string>, stdin: Option<string>)

  /** What git gives the script, which paths are executable files, and how each
      program ends. */
  datatype Shell = Shell(
    args: seq<string>,
    env: map<string, string>,
    input: string,
    executable: string -> bool,
    status: Ran -> int)

  predicate NonEmpty(env: map<string, string>, name: string)
  {
    name in env && env[name] != ""
  }

  predicate Prepared(sh: Shell)
  {
    |sh.args| > 0 && sh.args[0] == "prepared" &&
    (NonEmpty(sh.env, "CLAUDECODE") || NonEmpty(sh.env, "INNSEGL_TOOL_USE_ID"))
  }

  /** A command substitution loses the newlines at its end; printf adds one. */
  function Piped(sh: Shell): string
  {
    TrimRight(sh.input, '\n') + "\n"
  }

  datatype Result = Result(ran: seq<Ran>, code: int)

  function Then(r: Ran, rest: Result): Result
  {
    Result([r] + rest.ran, rest.code)
  }

  /** The programs run and the exit status. `strict` is set -e, `skip` that the
      condition of the `if` was false, `last` the status of the last command. */
  function Go(cs: seq<Cmd>, sh: Shell, strict: bool, skip: bool, last: int): Result
  {
    if cs == [] then Result([], last) else
    var rest := cs[1..];
    if cs[0].EndIf? then Go(rest, sh, strict, false, if skip then 0 else last) else
    if skip then Go(rest, sh, strict, true, last) else
    match cs[0]
    case Comment => Go(rest, sh, strict, false, last)
    case Strict => Go(rest, sh, true, false, 0)
    case ReadInput => Go(rest, sh, strict, false, 0)
    case IfPrepared => Go(rest, sh, strict, !Prepared(sh), last)
    case IfExecutable(path) => Go(rest, sh, strict, !sh.executable(path), last)
    case Exec(path) => var r := Ran(path, sh.args, None); Result([r], sh.status(r))
    case Call(path, words, piped, tolerant) =>
      var r := Ran(path, words + sh.args, if piped then Some(Piped(sh)) else None);
      var s := sh.status(r);
      if s != 0 && strict && !tolerant then Result([r], s) else
      Then(r, Go(rest, sh, strict, false, if tolerant then 0 else s))
    case _ => Result([], 2)
  }

  /** A hook script, run by git. */
  function Run(h: Hook, bin: string, previous: string, sh: Shell): Result
  {
    Go(ParseAll(ScriptLines(h, bin, previous)), sh, false, false, 0)
  }

  // ---------------------------------------------------- what the lines say

  lemma QuotedOpens(p: string, rest: string)
    ensures ShellQuote(p) + rest != "" && (ShellQuote(p) + rest)[0] == '\''
  {
  }

  lemma WordThen(p: string, end: string)
    requires end != "" && end[0] == ' '
    ensures ParseWord(ShellQuote(p) + end, end) == Some(p)
  {
    ShellReadsQuoted(p, end);
    assert (ShellQuote(p) + end)[|ShellQuote(p)|..] == end;
  }

  /** A line that begins so is neither of the two other lines with an i. */
  lemma NotTheOthers(line: string)
    requires IF_EXECUTABLE <= line
    ensures line != "input=$(cat)"
    ensures line != "if [ \"${1:-}\" = prepared ] && { " + "[ -n \"${CLAUDECODE:-}\" ] || " +
                    "[ -n \"${INNSEGL_TOOL_USE_ID:-}\" ]; }; " + "then"
  {
    assert line[1] == 'f' && "input=$(cat)"[1] == 'n';
    assert line[5] == '-';
    assert ("if [ \"${1:-}\" = prepared ] && { " + "[ -n \"${CLAUDECODE:-}\" ] || " +
            "[ -n \"${INNSEGL_TOOL_USE_ID:-}\" ]; }; " + "then")[5] == '"';
  }

  lemma ReadsIfExecutable(p: string)
    ensures Parse("if [ -x " + ShellQuote(p) + " ]; then") == IfExecutable(p)
  {
    var word := ShellQuote(p) + THEN;
    var line := IF_EXECUTABLE + word;
    assert "if [ -x " + ShellQuote(p) + " ]; then" == line;
    assert line[0] == 'i' && line[|IF_EXECUTABLE|..] == word;
    NotTheOthers(line);
    WordThen(p, THEN);
  }

  lemma ReadsExec(p: string)
    ensures Parse("\texec " + ShellQuote(p) + " \"$@\"") == Exec(p)
  {
    var word := ShellQuote(p) + ARGUMENTS;
    var line := EXEC + word;
    assert "\texec " + ShellQuote(p) + " \"$@\"" == line;
    assert line[0] == '\t' && line[1] == 'e' && PIPE[1] == 'p' && line[|EXEC|..] == word;
    WordThen(p, ARGUMENTS);
  }

  lemma ReadsPrevious(p: string, piped: bool)
    ensures ParseCall(ShellQuote(p) + ARGUMENTS, piped) == Call(p, [], piped, false)
  {
    ShellReadsQuoted(p, ARGUMENTS);
    assert (ShellQuote(p) + ARGUMENTS)[|ShellQuote(p)|..] == ARGUMENTS;
  }

  lemma ReadsPipe(word: string)
    ensures Parse(PIPE + word) == ParseCall(word, true)
  {
    var line := PIPE + word;
    assert line[0] == '\t' && line[|PIPE|..] == word;
  }

  lemma ReadsSubcommand(p: string, name: string, end: string, piped: bool)
    requires ' ' !in name && (end == ARGUMENTS || end == TOLERANT)
    ensures ParseCall(ShellQuote(p) + (GIT_HOOK + (name + end)), piped) ==
            Call(p, ["git-hook", name], piped, end == TOLERANT)
  {
    var rest := GIT_HOOK + (name + end);
    var s := ShellQuote(p) + rest;
    ShellReadsQuoted(p, rest);
    assert s[|ShellQuote(p)|..] == rest;
    var tail := name + end;
    assert rest[|GIT_HOOK|..] == tail;
    assert rest[1] == 'g' && ARGUMENTS[1] == '"';
    FindFirst(name, end);
    assert tail[..|name|] == name && tail[|name|..] == end;
    assert |ARGUMENTS| != |TOLERANT|;
  }

  lemma FindFirst(name: string, end: string)
    requires ' ' !in name && end != "" && end[0] == ' '
    ensures Find(name + end, ' ') == |name|
  {
    var s := name + end;
    assert s[|name|] == ' ' && forall i :: 0 <= i < |name| ==> s[i] == name[i];
  }

  // --------------------------------------------------- the scripts, as read

  function Opening(): seq<Cmd>
  {
    [Comment, Comment, Comment, Comment]
  }

  /** The commands in front of the one that runs the binary, and behind it. */
  function Front(h: Hook): seq<Cmd>
  {
    match h
    case PrepareCommitMsg => Opening() + [Strict]
    case PostCommit => Opening()
    case ReferenceTransaction => Opening() + [Strict, ReadInput, IfPrepared]
  }

  function Back(h: Hook, previous: string): seq<Cmd>
  {
    if h == ReferenceTransaction then [EndIf, IfExecutable(previous), Call(previous, [], true, false), EndIf] else
    [IfExecutable(previous), Exec(previous), EndIf]
  }

  function RunsBinary(h: Hook, bin: string): Cmd
  {
    match h
    case PrepareCommitMsg => Call(bin, ["git-hook", "prepare-commit-msg"], false, false)
    case PostCommit => Call(bin, ["git-hook", "post-commit"], false, true)
    case ReferenceTransaction => Call(bin, ["git-hook", "reference-transaction"], true, false)
  }

  /** The commands of a script. */
  function Commands(h: Hook, bin: string, previous: string): seq<Cmd>
  {
    Front(h) + [RunsBinary(h, bin)] + Back(h, previous)
  }

  lemma ReadsComments(h: Hook)
    ensures forall i :: 0 <= i < 4 ==> Parse(Preamble(h)[i]) == Comment
  {
    var p := Preamble(h);
    assert p[0] == "#!/bin/sh" && p[1] == MarkerLine(h) && p[2] == SEE && p[3] == ANYTHING;
    assert p[0][0] == '#' && p[1][0] == '#' && p[2][0] == '#' && p[3][0] == '#';
  }

  lemma ReadsFixed()
    ensures Parse("set -eu") == Strict && Parse("fi") == EndIf && Parse("input=$(cat)") == ReadInput
  {
    assert "set -eu"[0] == 's' && "fi"[0] == 'f' && "input=$(cat)"[0] == 'i';
  }

  lemma ReadsGuard()
    ensures Parse(GUARD) == IfPrepared
  {
    assert GUARD[0] == 'i' && GUARD[1] == 'f' && "input=$(cat)"[1] == 'n';
  }

  /** The line that runs the binary, with its subcommand. */
  lemma ReadsBinLine(h: Hook, bin: string)
    ensures Parse(BinLine(h, bin)) == Call(bin, ["git-hook", Name(h)], h == ReferenceTransaction, h == PostCommit)
  {
    var end := if h == PostCommit then TOLERANT else ARGUMENTS;
    var word := ShellQuote(bin) + (GIT_HOOK + (Name(h) + end));
    BinLineIs(h, bin, end, word);
    NameIsOneWord(h);
    ReadsSubcommand(bin, Name(h), end, h == ReferenceTransaction);
    if h == ReferenceTransaction {
      ReadsPipe(word);
    } else {
      QuotedOpens(bin, GIT_HOOK + (Name(h) + end));
    }
  }

  lemma Regroup(a: string, b: string, c: string, d: string)
    ensures a + b + c + d == a + (b + (c + d))
  {
  }

  lemma ArgumentsAre(name: string, end: string)
    ensures name + " \"$@\"" + end == name + (" \"$@\"" + end)
    ensures " \"$@\"" + " || :" == TOLERANT && " \"$@\"" + "" == ARGUMENTS
  {
  }

  lemma BinLineIs(h: Hook, bin: string, end: string, word: string)
    requires end == if h == PostCommit then TOLERANT else ARGUMENTS
    requires word == ShellQuote(bin) + (GIT_HOOK + (Name(h) + end))
    ensures BinLine(h, bin) == if h == ReferenceTransaction then PIPE + word else word
  {
    assert Arguments(h) == Name(h) + end by {
      ArgumentsAre(Name(h), if h == PostCommit then " || :" else "");
    }
    Regroup(Lead(h), ShellQuote(bin), TOKEN, Arguments(h));
    assert Lead(PostCommit) + word == word;
  }

  lemma NameIsOneWord(h: Hook)
    ensures ' ' !in Name(h)
  {
  }

  lemma ReadsPipedPrevious(p: string)
    ensures Parse(Lead(ReferenceTransaction) + ShellQuote(p) + " \"$@\"") == Call(p, [], true, false)
  {
    var word := ShellQuote(p) + ARGUMENTS;
    assert Lead(ReferenceTransaction) + ShellQuote(p) + " \"$@\"" == PIPE + word;
    ReadsPipe(word);
    ReadsPrevious(p, true);
  }

  lemma ReadsFront(h: Hook)
    ensures ParseAll(Preamble(h)) == Front(h)
  {
    var p := Preamble(h);
    ReadsComments(h);
    ReadsFixed();
    ReadsGuard();
    match h
    case PrepareCommitMsg => assert |p| == 5 && p[4] == "set -eu";
    case PostCommit => assert |p| == 4;
    case ReferenceTransaction =>
      assert |p| == 7 && p[4] == "set -eu" && p[5] == "input=$(cat)" && p[6] == GUARD;
  }

  lemma ReadsBack(h: Hook, previous: string)
    ensures ParseAll(Epilogue(h, previous)) == Back(h, previous)
  {
    ReadsFixed();
    ReadsIfExecutable(previous);
    ReadsExec(previous);
    ReadsPipedPrevious(previous);
  }

  lemma ParsesApart(a: seq<string>, b: seq<string>)
    ensures ParseAll(a + b) == ParseAll(a) + ParseAll(b)
  {
  }

  /** Each script is read as its commands. */
  lemma ReadsScript(h: Hook, bin: string, previous: string)
    ensures ParseAll(ScriptLines(h, bin, previous)) == Commands(h, bin, previous)
  {
    ReadsFront(h);
    ReadsBinLine(h, bin);
    ReadsBack(h, previous);
    ParsesApart(Preamble(h), [BinLine(h, bin)]);
    ParsesApart(Preamble(h) + [BinLine(h, bin)], Epilogue(h, previous));
    assert ParseAll([BinLine(h, bin)]) == [RunsBinary(h, bin)];
  }

  // ------------------------------------------------------ what they run

  lemma GoStep(c: Cmd, rest: seq<Cmd>, sh: Shell, strict: bool, skip: bool, last: int)
    ensures var all := Go([c] + rest, sh, strict, skip, last);
            && (c.EndIf? ==> all == Go(rest, sh, strict, false, if skip then 0 else last))
            && (skip && !c.EndIf? ==> all == Go(rest, sh, strict, true, last))
            && (!skip && c.Comment? ==> all == Go(rest, sh, strict, false, last))
            && (!skip && c.Strict? ==> all == Go(rest, sh, true, false, 0))
            && (!skip && c.ReadInput? ==> all == Go(rest, sh, strict, false, 0))
            && (!skip && c.IfPrepared? ==> all == Go(rest, sh, strict, !Prepared(sh), last))
            && (!skip && c.IfExecutable? ==> all == Go(rest, sh, strict, !sh.executable(c.path), last))
  {
    assert ([c] + rest)[0] == c && ([c] + rest)[1..] == rest;
  }

  /** A program run as a command. */
  lemma GoCall(path: string, words: seq<string>, piped: bool, tolerant: bool, rest: seq<Cmd>, sh: Shell,
               strict: bool, last: int)
    ensures var r := Ran(path, words + sh.args, if piped then Some(Piped(sh)) else None);
            Go([Call(path, words, piped, tolerant)] + rest, sh, strict, false, last) ==
            if sh.status(r) != 0 && strict && !tolerant then Result([r], sh.status(r))
            else Then(r, Go(rest, sh, strict, false, if tolerant then 0 else sh.status(r)))
  {
    var cs := [Call(path, words, piped, tolerant)] + rest;
    assert cs[0] == Call(path, words, piped, tolerant) && cs[1..] == rest;
  }

  lemma GoOpening(rest: seq<Cmd>, sh: Shell)
    ensures Go(Opening() + rest, sh, false, false, 0) == Go(rest, sh, false, false, 0)
  {
    var r1 := [Comment] + rest;
    var r2 := [Comment] + r1;
    var r3 := [Comment] + r2;
    assert Opening() + rest == [Comment] + r3;
    GoStep(Comment, r3, sh, false, false, 0);
    GoStep(Comment, r2, sh, false, false, 0);
    GoStep(Comment, r1, sh, false, false, 0);
    GoStep(Comment, rest, sh, false, false, 0);
  }

  /** What was there before, if it can be run, ends the script. */
  function Previously(previous: string, stdin: Option<string>, sh: Shell): Result
  {
    var r := Ran(previous, sh.args, stdin);
    if sh.executable(previous) then Result([r], sh.status(r)) else Result([], 0)
  }

  lemma GoEnd(sh: Shell, strict: bool, skip: bool, last: int)
    ensures Go([EndIf], sh, strict, skip, last) == Result([], if skip then 0 else last)
  {
    GoStep(EndIf, [], sh, strict, skip, last);
    assert [EndIf] + [] == [EndIf];
  }

  lemma GoExec(previous: string, sh: Shell, strict: bool, last: int)
    ensures Go([IfExecutable(previous), Exec(previous), EndIf], sh, strict, false, last) ==
            Previously(previous, None, sh)
  {
    var e, skip := Exec(previous), !sh.executable(previous);
    assert [IfExecutable(previous), e, EndIf] == [IfExecutable(previous)] + ([e] + [EndIf]);
    GoStep(IfExecutable(previous), [e] + [EndIf], sh, strict, false, last);
    GoStep(e, [EndIf], sh, strict, skip, last);
    GoEnd(sh, strict, skip, last);
    assert ([e] + [EndIf])[0] == e;
  }

  lemma GoPiped(previous: string, sh: Shell, last: int)
    ensures Go([IfExecutable(previous), Call(previous, [], true, false), EndIf], sh, true, false, last) ==
            Previously(previous, Some(Piped(sh)), sh)
  {
    var call, skip := Call(previous, [], true, false), !sh.executable(previous);
    var r := Ran(previous, sh.args, Some(Piped(sh)));
    assert [IfExecutable(previous), call, EndIf] == [IfExecutable(previous)] + ([call] + [EndIf]);
    assert [] + sh.args == sh.args;
    GoStep(IfExecutable(previous), [call] + [EndIf], sh, true, false, last);
    GoStep(call, [EndIf], sh, true, skip, last);
    GoCall(previous, [], true, false, [EndIf], sh, true, last);
    GoEnd(sh, true, skip, last);
    GoEnd(sh, true, false, sh.status(r));
  }

  /** prepare-commit-msg: innsegl's check, and behind it, when it succeeds, the
      hook that was there before. A refusal is the script's, and that hook is
      not run. */
  lemma RunsPrepare(bin: string, previous: string, sh: Shell)
    ensures var check := Ran(bin, ["git-hook", "prepare-commit-msg"] + sh.args, None);
            Run(PrepareCommitMsg, bin, previous, sh) ==
            if sh.status(check) != 0 then Result([check], sh.status(check))
            else Then(check, Previously(previous, None, sh))
  {
    var words, back := ["git-hook", "prepare-commit-msg"], Back(PrepareCommitMsg, previous);
    var call := [Call(bin, words, false, false)] + back;
    ReadsScript(PrepareCommitMsg, bin, previous);
    assert Commands(PrepareCommitMsg, bin, previous) == Opening() + ([Strict] + call);
    GoOpening([Strict] + call, sh);
    GoStep(Strict, call, sh, false, false, 0);
    GoCall(bin, words, false, false, back, sh, true, 0);
    GoExec(previous, sh, true, 0);
  }

  /** post-commit: innsegl's step, however it ends, and then the hook that was
      there before. */
  lemma RunsPostCommit(bin: string, previous: string, sh: Shell)
    ensures Run(PostCommit, bin, previous, sh) ==
            Then(Ran(bin, ["git-hook", "post-commit"] + sh.args, None), Previously(previous, None, sh))
  {
    var words, back := ["git-hook", "post-commit"], Back(PostCommit, previous);
    ReadsScript(PostCommit, bin, previous);
    assert Commands(PostCommit, bin, previous) == Opening() + ([Call(bin, words, false, true)] + back);
    GoOpening([Call(bin, words, false, true)] + back, sh);
    GoCall(bin, words, false, true, back, sh, false, 0);
    GoExec(previous, sh, false, 0);
  }

  /** reference-transaction: innsegl's check, for an agent's prepared transaction
      alone, and behind it, when it succeeds, the hook that was there before. Both
      read what git wrote, and a refusal is the script's. */
  lemma RunsTransaction(bin: string, previous: string, sh: Shell)
    ensures var stdin := Some(TrimRight(sh.input, '\n') + "\n");
            var check := Ran(bin, ["git-hook", "reference-transaction"] + sh.args, stdin);
            var before := Previously(previous, stdin, sh);
            Run(ReferenceTransaction, bin, previous, sh) ==
            if !Prepared(sh) then before else
            if sh.status(check) != 0 then Result([check], sh.status(check)) else Then(check, before)
  {
    var words, back := ["git-hook", "reference-transaction"], Back(ReferenceTransaction, previous);
    var last := [IfExecutable(previous), Call(previous, [], true, false), EndIf];
    var check := Ran(bin, words + sh.args, Some(Piped(sh)));
    var c := Call(bin, words, true, false);
    var call := [c] + ([EndIf] + last);
    ReadsScript(ReferenceTransaction, bin, previous);
    assert Commands(ReferenceTransaction, bin, previous) ==
           Opening() + ([Strict] + ([ReadInput] + ([IfPrepared] + call)));
    GoOpening([Strict] + ([ReadInput] + ([IfPrepared] + call)), sh);
    GoStep(Strict, [ReadInput] + ([IfPrepared] + call), sh, false, false, 0);
    GoStep(ReadInput, [IfPrepared] + call, sh, true, false, 0);
    GoStep(IfPrepared, call, sh, true, false, 0);
    GoStep(c, [EndIf] + last, sh, true, !Prepared(sh), 0);
    GoStep(EndIf, last, sh, true, true, 0);
    GoCall(bin, words, true, false, [EndIf] + last, sh, true, 0);
    GoStep(EndIf, last, sh, true, false, sh.status(check));
    GoPiped(previous, sh, 0);
  }
}

