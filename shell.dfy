/** The executor bookkeeping of myshell.c: wildcard slots, the argument vectors handed to
    execvp, the descriptor plan of a pipeline, the arity checks of redirections and of the
    prompt built-in, the built-in test and the file-name lookup. System calls are not
    modelled: a pipeline is described by a plan of stages, and glob results are inputs. */
module Shell {
  import opened Opt
  import opened Commands
  import opened Token

  const ExitName := "exit"

  // ---------------------------------------------------------------------------------------
  // Argument vectors of a record

  /** argv[0] of the record can be read (it is NULL when the record starts with a redirection). */
  predicate HasName(cp: Command) {
    cp.argv.Some? && |cp.argv.value| > 0 && cp.argv.value[0].Some?
  }

  function Name(cp: Command): string
    requires HasName(cp)
  {
    cp.argv.value[0].value
  }

  /** The first hi slots hold strings, so scanning them never reads a NULL. */
  predicate ReadableUpTo(slots: seq<Option<string>>, hi: int) {
    hi <= |slots| && forall i :: 0 <= i < hi ==> slots[i].Some?
  }

  // ---------------------------------------------------------------------------------------
  // Wildcard slots

  /** An argument that glob would expand: it contains '*' or '?'. */
  predicate IsWildcardArg(s: string) {
    '*' in s || '?' in s
  }

  /** The largest index below hi holding a wildcard argument, or -1 when there is none. */
  function LastWildcard(slots: seq<Option<string>>, hi: int): (r: int)
    requires ReadableUpTo(slots, hi)
    ensures r == -1 || (0 <= r < hi && IsWildcardArg(slots[r].value))
    ensures forall i :: r < i < hi && 0 <= i ==> !IsWildcardArg(slots[i].value)
    decreases hi
  {
    if hi <= 0 then -1
    else if IsWildcardArg(slots[hi - 1].value) then hi - 1
    else LastWildcard(slots, hi - 1)
  }

  /** The scan shared by isWildCard and isWildCardForStdinStdout over argv[0..hi-1]. */
  method ScanWildcards(argv: seq<Option<string>>, hi: int) returns (flag: int)
    requires ReadableUpTo(argv, hi)
    ensures flag == LastWildcard(argv, hi)
  {
    flag := -1;
    var i := 0;
    while i < hi
      invariant 0 <= i && (i <= hi || i == 0)
      invariant flag == LastWildcard(argv, i)
    {
      if '*' in argv[i].value || '?' in argv[i].value {
        flag := i;
      }
      i := i + 1;
    }
  }

  /** isWildCard: the wildcard slot among argv[0..last-first]. */
  method IsWildCard(command: array<Command>, index: int) returns (flag: int)
    requires 0 <= index < command.Length && command[index].argv.Some?
    requires ReadableUpTo(command[index].argv.value, command[index].last - command[index].first + 1)
    ensures flag == LastWildcard(command[index].argv.value, command[index].last - command[index].first + 1)
  {
    var cp := command[index];
    flag := ScanWildcards(cp.argv.value, cp.last - cp.first + 1);
  }

  /** isWildCardForStdinStdout: the wildcard slot among argv[0..last-first-2], the words
      before a final "< file" or "> file". */
  method IsWildCardForStdinStdout(command: array<Command>, index: int) returns (flag: int)
    requires 0 <= index < command.Length && command[index].argv.Some?
    requires ReadableUpTo(command[index].argv.value, command[index].last - command[index].first - 1)
    ensures flag == LastWildcard(command[index].argv.value, command[index].last - command[index].first - 1)
  {
    var cp := command[index];
    flag := ScanWildcards(cp.argv.value, cp.last - cp.first - 1);
  }

  // ---------------------------------------------------------------------------------------
  // Plain argument vectors

  /** The vector execvp receives from getArgvForExecuteCommand: argv[0..last-first], then NULL. */
  function ExecArgv(cp: Command): (a: seq<Option<string>>)
    requires cp.argv.Some? && 0 <= cp.last - cp.first + 1 <= |cp.argv.value|
    ensures |a| == cp.last - cp.first + 2 && a[|a| - 1] == None
    ensures a[..|a| - 1] == cp.argv.value[..cp.last - cp.first + 1]
  {
    cp.argv.value[..cp.last - cp.first + 1] + [None]
  }

  /** The vector execvp receives from getArgvForStdinStdout: argv[0..last-first-2], then NULL. */
  function RedirectArgv(cp: Command): (a: seq<Option<string>>)
    requires cp.argv.Some? && 0 <= cp.last - cp.first - 1 <= |cp.argv.value|
    ensures |a| == cp.last - cp.first && a[|a| - 1] == None
    ensures a[..|a| - 1] == cp.argv.value[..cp.last - cp.first - 1]
  {
    cp.argv.value[..cp.last - cp.first - 1] + [None]
  }

  /** Copies slots[0..n-1] into argv[0..n-1] and puts NULL at argv[n]. */
  method CopyArgv(slots: seq<Option<string>>, n: int, argv: array<Option<string>>)
    requires 0 <= n <= |slots| && n < argv.Length
    modifies argv
    ensures argv[..n + 1] == slots[..n] + [None]
    ensures argv[n + 1..] == old(argv[n + 1..])
  {
    ghost var before := argv[..];
    var i := 0;
    while i < n
      invariant 0 <= i <= n
      invariant forall j :: 0 <= j < argv.Length ==> argv[j] == if j < i then slots[j] else before[j]
    {
      argv[i] := slots[i];
      i := i + 1;
    }
    argv[n] := None;
    assert argv[..n + 1] == slots[..n] + [None];
    assert argv[n + 1..] == before[n + 1..];
  }

  /** getArgvForExecuteCommand. */
  method GetArgvForExecuteCommand(command: array<Command>, index: int, argv: array<Option<string>>)
    requires 0 <= index < command.Length && command[index].argv.Some?
    requires 0 <= command[index].last - command[index].first + 1 <= |command[index].argv.value|
    requires command[index].last - command[index].first + 2 <= argv.Length
    modifies argv
    ensures argv[..command[index].last - command[index].first + 2] == ExecArgv(command[index])
    ensures argv[command[index].last - command[index].first + 2..]
            == old(argv[command[index].last - command[index].first + 2..])
  {
    var cp := command[index];
    CopyArgv(cp.argv.value, cp.last - cp.first + 1, argv);
  }

  /** getArgvForStdinStdout. */
  method GetArgvForStdinStdout(command: array<Command>, index: int, argv: array<Option<string>>)
    requires 0 <= index < command.Length && command[index].argv.Some?
    requires 0 <= command[index].last - command[index].first - 1 <= |command[index].argv.value|
    requires command[index].last - command[index].first <= argv.Length
    modifies argv
    ensures argv[..command[index].last - command[index].first] == RedirectArgv(command[index])
    ensures argv[command[index].last - command[index].first..]
            == old(argv[command[index].last - command[index].first..])
  {
    var cp := command[index];
    CopyArgv(cp.argv.value, cp.last - cp.first - 1, argv);
  }

  /** A span with one redirection, at its next-to-last token, strips to the words before it. */
  lemma {:induction false} StripTrailingRedirection(buf: seq<Option<string>>, lo: int, hi: int)
    requires 0 <= lo <= hi - 2 && hi <= |buf| && IsRedirection(buf[hi - 2])
    requires forall j :: lo <= j < hi - 2 ==> !IsRedirection(buf[j])
    ensures StripSpan(buf, lo, hi) == buf[lo..hi - 2]
    decreases hi - lo
  {
    if lo < hi - 2 {
      StripTrailingRedirection(buf, lo + 1, hi);
    }
  }

  /** For a record built by buildCommandArgumentArray over a span without redirections,
      execvp receives exactly the words of the span. */
  lemma ExecArgvOfRecord(buf: seq<Option<string>>, cp: Command)
    requires 0 <= cp.first <= cp.last + 1 <= |buf|
    requires forall j :: cp.first <= j <= cp.last ==> !IsRedirection(buf[j])
    requires cp.argv == Some(ArgvSlots(buf, cp.first, cp.last))
    ensures ExecArgv(cp) == buf[cp.first..cp.last + 1] + [None]
  {
    StripWithoutOperators(buf, cp.first, cp.last + 1);
    assert ArgvSlots(buf, cp.first, cp.last)[..cp.last - cp.first + 1] == buf[cp.first..cp.last + 1];
  }

  /** For a record "words... < file" (or "> file") with no other redirection, execvp receives
      exactly the words before the operator. */
  lemma RedirectArgvOfRecord(buf: seq<Option<string>>, cp: Command)
    requires 0 <= cp.first <= cp.last - 1 && cp.last < |buf| && IsRedirection(buf[cp.last - 1])
    requires forall j :: cp.first <= j < cp.last - 1 ==> !IsRedirection(buf[j])
    requires cp.argv == Some(ArgvSlots(buf, cp.first, cp.last))
    ensures RedirectArgv(cp) == buf[cp.first..cp.last - 1] + [None]
  {
    StripTrailingRedirection(buf, cp.first, cp.last + 1);
    assert ArgvSlots(buf, cp.first, cp.last)[..cp.last - cp.first - 1] == buf[cp.first..cp.last - 1];
  }

  // ---------------------------------------------------------------------------------------
  // Wildcard argument vectors

  /** The strings of exp as argument slots. */
  function Slots(exp: seq<string>): (s: seq<Option<string>>)
    ensures |s| == |exp| && forall k :: 0 <= k < |exp| ==> s[k] == Some(exp[k])
  {
    seq(|exp|, k requires 0 <= k < |exp| => Some(exp[k]))
  }

  /** The caller's array `before` after getArgvForWildCard (or its stdin/stdout variant) with
      wildcard slot w, expansion exp and NULL position top: argv[0..w-1] copied, the expansion
      at w.., NULL at top, and every other entry left as it was. */
  function WildcardArgvAsWritten(before: seq<Option<string>>, slots: seq<Option<string>>, w: int, exp: seq<string>, top: int)
    : (a: seq<Option<string>>)
    requires 0 <= w <= |slots| && w + |exp| <= top < |before|
    ensures |a| == |before|
    ensures a[..w] == slots[..w] && a[w..w + |exp|] == Slots(exp) && a[top] == None
    ensures forall j :: w + |exp| <= j < |a| && j != top ==> a[j] == before[j]
  {
    slots[..w] + Slots(exp) + before[w + |exp|..top] + [None] + before[top + 1..]
  }

  /** The vector the wildcard builders are meant to produce: the n+1 arguments with the one
      at w replaced by its expansion, then NULL. */
  function WildcardArgvIntended(slots: seq<Option<string>>, w: int, exp: seq<string>, n: int): (a: seq<Option<string>>)
    requires 0 <= w <= n < |slots|
    ensures |a| == n + 1 + |exp| && a[|a| - 1] == None
  {
    slots[..w] + Slots(exp) + slots[w + 1..n + 1] + [None]
  }

  /** The intended vector is the argument list with the wildcard argument replaced by its
      expansion, in glob order. */
  lemma WildcardIntendedExpands(args: seq<string>, w: int, exp: seq<string>)
    requires 0 <= w < |args|
    ensures Live(WildcardArgvIntended(Slots(args) + [None], w, exp, |args| - 1)) == args[..w] + exp + args[w + 1..]
  {
    var a := WildcardArgvIntended(Slots(args) + [None], w, exp, |args| - 1);
    var e := args[..w] + exp + args[w + 1..];
    assert forall j :: 0 <= j < |e| ==> a[j] == Some(e[j]);
    LiveExact(a, e);
  }

  /** Copies the wildcard vector into argv as getArgvForWildCard writes it: slots before w,
      then the expansion, then NULL at top. */
  method FillWildcardArgv(slots: seq<Option<string>>, w: int, exp: seq<string>, top: int, argv: array<Option<string>>)
    requires 0 <= w <= |slots| && w + |exp| <= top < argv.Length
    modifies argv
    ensures argv[..] == WildcardArgvAsWritten(old(argv[..]), slots, w, exp, top)
  {
    ghost var before := argv[..];
    var j := 0;
    while j < w
      invariant 0 <= j <= w
      invariant forall i :: 0 <= i < argv.Length ==> argv[i] == if i < j then slots[i] else before[i]
    {
      argv[j] := slots[j];
      j := j + 1;
    }
    var k := 0;
    while k < |exp|
      invariant 0 <= k <= |exp|
      invariant forall i :: 0 <= i < argv.Length ==>
                  argv[i] == if i < w then slots[i] else if i < w + k then Some(exp[i - w]) else before[i]
    {
      argv[w + k] := Some(exp[k]);
      k := k + 1;
    }
    argv[top] := None;
    assert argv[..] == WildcardArgvAsWritten(before, slots, w, exp, top);
  }

  /** Copies the wildcard vector into argv as intended: also the arguments after w. */
  method FillWildcardArgvFixed(slots: seq<Option<string>>, w: int, exp: seq<string>, n: int, argv: array<Option<string>>)
    requires 0 <= w <= n < |slots| && n + |exp| < argv.Length
    modifies argv
    ensures argv[..n + |exp| + 1] == WildcardArgvIntended(slots, w, exp, n)
    ensures argv[n + |exp| + 1..] == old(argv[n + |exp| + 1..])
  {
    ghost var before := argv[..];
    var j := 0;
    while j < w
      invariant 0 <= j <= w
      invariant forall i :: 0 <= i < argv.Length ==> argv[i] == if i < j then slots[i] else before[i]
    {
      argv[j] := slots[j];
      j := j + 1;
    }
    var k := 0;
    while k < |exp|
      invariant 0 <= k <= |exp|
      invariant forall i :: 0 <= i < argv.Length ==>
                  argv[i] == if i < w then slots[i] else if i < w + k then Some(exp[i - w]) else before[i]
    {
      argv[w + k] := Some(exp[k]);
      k := k + 1;
    }
    var m := w + 1;
    while m <= n
      invariant w + 1 <= m <= n + 1
      invariant forall i {:trigger argv[i]} :: 0 <= i < argv.Length ==>
                  argv[i] == if i < w then slots[i] else if i < w + |exp| then Some(exp[i - w])
                             else if i < m - 1 + |exp| then slots[i - |exp| + 1] else before[i]
    {
      argv[m - 1 + |exp|] := slots[m];
      m := m + 1;
    }
    argv[n + |exp|] := None;
    ghost var want := WildcardArgvIntended(slots, w, exp, n);
    assert forall i :: 0 <= i < w ==> want[i] == slots[i];
    assert forall i :: w <= i < w + |exp| ==> want[i] == Some(exp[i - w]);
    assert forall i :: w + |exp| <= i < n + |exp| ==> want[i] == slots[i - |exp| + 1];
    assert argv[..n + |exp| + 1] == want;
    assert argv[n + |exp| + 1..] == before[n + |exp| + 1..];
  }

  /** getArgvForWildCard, as written: exp is the glob expansion of the wildcard argument. */
  method GetArgvForWildCard(command: array<Command>, index: int, exp: seq<string>, argv: array<Option<string>>)
    requires 0 <= index < command.Length && command[index].argv.Some?
    requires ReadableUpTo(command[index].argv.value, command[index].last - command[index].first + 1)
    requires LastWildcard(command[index].argv.value, command[index].last - command[index].first + 1) != -1
    requires |exp| <= MaxNumTokens
    requires command[index].last - command[index].first + 1 + |exp| <= argv.Length
    modifies argv
    ensures argv[..] == WildcardArgvAsWritten(old(argv[..]), command[index].argv.value,
                          LastWildcard(command[index].argv.value, command[index].last - command[index].first + 1),
                          exp, command[index].last - command[index].first + |exp|)
  {
    var w := IsWildCard(command, index);
    var cp := command[index];
    FillWildcardArgv(cp.argv.value, w, exp, cp.last - cp.first + |exp|, argv);
  }

  /** getArgvForWildCardStdinStdout, as written, over the words before "< file" or "> file". */
  method GetArgvForWildCardStdinStdout(command: array<Command>, index: int, exp: seq<string>, argv: array<Option<string>>)
    requires 0 <= index < command.Length && command[index].argv.Some?
    requires ReadableUpTo(command[index].argv.value, command[index].last - command[index].first - 1)
    requires LastWildcard(command[index].argv.value, command[index].last - command[index].first - 1) != -1
    requires |exp| <= MaxNumTokens
    requires command[index].last - command[index].first - 1 + |exp| <= argv.Length
    modifies argv
    ensures argv[..] == WildcardArgvAsWritten(old(argv[..]), command[index].argv.value,
                          LastWildcard(command[index].argv.value, command[index].last - command[index].first - 1),
                          exp, command[index].last - command[index].first - 2 + |exp|)
  {
    var w := IsWildCardForStdinStdout(command, index);
    var cp := command[index];
    FillWildcardArgv(cp.argv.value, w, exp, cp.last - cp.first - 2 + |exp|, argv);
  }

  /** getArgvForWildCard with the arguments after the wildcard slot copied. */
  method GetArgvForWildCardFixed(command: array<Command>, index: int, exp: seq<string>, argv: array<Option<string>>)
    requires 0 <= index < command.Length && command[index].argv.Some?
    requires ReadableUpTo(command[index].argv.value, command[index].last - command[index].first + 1)
    requires LastWildcard(command[index].argv.value, command[index].last - command[index].first + 1) != -1
    requires |exp| <= MaxNumTokens
    requires command[index].last - command[index].first + 1 + |exp| <= argv.Length
    modifies argv
    ensures argv[..command[index].last - command[index].first + 1 + |exp|]
            == WildcardArgvIntended(command[index].argv.value,
                 LastWildcard(command[index].argv.value, command[index].last - command[index].first + 1),
                 exp, command[index].last - command[index].first)
    ensures argv[command[index].last - command[index].first + 1 + |exp|..]
            == old(argv[command[index].last - command[index].first + 1 + |exp|..])
  {
    var w := IsWildCard(command, index);
    var cp := command[index];
    FillWildcardArgvFixed(cp.argv.value, w, exp, cp.last - cp.first, argv);
  }

  /** getArgvForWildCardStdinStdout with the arguments after the wildcard slot copied. */
  method GetArgvForWildCardStdinStdoutFixed(command: array<Command>, index: int, exp: seq<string>, argv: array<Option<string>>)
    requires 0 <= index < command.Length && command[index].argv.Some?
    requires ReadableUpTo(command[index].argv.value, command[index].last - command[index].first - 1)
    requires LastWildcard(command[index].argv.value, command[index].last - command[index].first - 1) != -1
    requires |exp| <= MaxNumTokens
    requires command[index].last - command[index].first - 1 + |exp| <= argv.Length
    modifies argv
    ensures argv[..command[index].last - command[index].first - 1 + |exp|]
            == WildcardArgvIntended(command[index].argv.value,
                 LastWildcard(command[index].argv.value, command[index].last - command[index].first - 1),
                 exp, command[index].last - command[index].first - 2)
    ensures argv[command[index].last - command[index].first - 1 + |exp|..]
            == old(argv[command[index].last - command[index].first - 1 + |exp|..])
  {
    var w := IsWildCardForStdinStdout(command, index);
    var cp := command[index];
    FillWildcardArgvFixed(cp.argv.value, w, exp, cp.last - cp.first - 2, argv);
  }

  /** Whatever the caller's array held, the as-written vector keeps it in the position where
      the argument after the wildcard belongs: that argument never reaches execvp. */
  lemma WildcardDropsLaterArguments(before: seq<Option<string>>, slots: seq<Option<string>>, w: int, exp: seq<string>, n: int)
    requires 0 <= w < n < |slots| && n + |exp| < |before|
    ensures WildcardArgvAsWritten(before, slots, w, exp, n + |exp|)[w + |exp|] == before[w + |exp|]
    ensures WildcardArgvIntended(slots, w, exp, n)[w + |exp|] == slots[w + 1]
  {
    assert WildcardArgvIntended(slots, w, exp, n)[w + |exp|] == slots[w + 1..n + 1][0];
  }

  /** "cp *.c dest" with *.c matching a.c and b.c, in a NULL-filled array: execvp is given
      "cp a.c b.c" and "dest" is lost. */
  lemma WildcardCounterexample()
    ensures Live(WildcardArgvAsWritten(seq(5, _ => None), [Some("cp"), Some("*.c"), Some("dest"), None], 1, ["a.c", "b.c"], 4))
            == ["cp", "a.c", "b.c"]
    ensures Live(WildcardArgvIntended([Some("cp"), Some("*.c"), Some("dest"), None], 1, ["a.c", "b.c"], 2))
            == ["cp", "a.c", "b.c", "dest"]
  {
    var a := WildcardArgvAsWritten(seq(5, _ => None), [Some("cp"), Some("*.c"), Some("dest"), None], 1, ["a.c", "b.c"], 4);
    assert a == [Some("cp"), Some("a.c"), Some("b.c"), None, None];
    LiveExact(a, ["cp", "a.c", "b.c"]);
    var b := WildcardArgvIntended([Some("cp"), Some("*.c"), Some("dest"), None], 1, ["a.c", "b.c"], 2);
    assert b == [Some("cp"), Some("a.c"), Some("b.c"), Some("dest"), None];
    LiveExact(b, ["cp", "a.c", "b.c", "dest"]);
  }

  // ---------------------------------------------------------------------------------------
  // Pipelines

  /** From record i on the separators can be read, and the run of "|" separators ends at a
      record whose separator is not "|". */
  predicate PipeRunEnds(cmds: seq<Command>, i: int)
    decreases |cmds| - i
  {
    0 <= i < |cmds| && cmds[i].sep.Some? && (cmds[i].sep.value == PipeSep ==> PipeRunEnds(cmds, i + 1))
  }

  /** The number of consecutive records from i whose separator is "|": the pipes of the pipeline. */
  function RunLength(cmds: seq<Command>, i: int): (n: nat)
    requires PipeRunEnds(cmds, i)
    ensures i + n < |cmds| && cmds[i + n].sep.Some? && cmds[i + n].sep.value != PipeSep
    ensures forall k :: i <= k < i + n ==> cmds[k].sep == Some(PipeSep)
    decreases |cmds| - i
  {
    if cmds[i].sep.value == PipeSep then 1 + RunLength(cmds, i + 1) else 0
  }

  /** processPipe runs a pipeline when argv[0] is not "exit" and the separator is "|". */
  predicate IsPipeHead(cp: Command)
    requires HasName(cp) && cp.sep.Some?
  {
    Name(cp) != ExitName && cp.sep.value == PipeSep
  }

  /** One forked child of a pipeline: the record it executes, the descriptor slot of p[] it
      dup2s onto stdin and onto stdout, and whether it looks for a wildcard first. */
  datatype Stage = Stage(command: int, stdinPipe: Option<int>, stdoutPipe: Option<int>, checksWildcard: bool)

  /** What processPipe does for a pipeline: the size of p[], the children in fork order, the
      slots every child and then the parent close, and the number of waits. */
  datatype PipePlan = PipePlan(descriptors: int, stages: seq<Stage>, closes: seq<int>, waits: int)

  /** Stage k of a pipeline of n pipes starting at record index. */
  function StageOf(index: int, n: nat, k: int): Stage {
    Stage(index + k, if k > 0 then Some(2 * (k - 1)) else None, if k < n then Some(2 * k + 1) else None, k == 0)
  }

  /** The uniform plan: stage k reads p[2(k-1)] and writes p[2k+1]. Pipe j (read end p[2j],
      write end p[2j+1]) is written by stage j alone and read by stage j+1 alone. */
  function UniformPlan(index: int, n: nat): (plan: PipePlan)
    ensures plan.descriptors == 2 * n && |plan.stages| == n + 1 && plan.waits == n + 1
    ensures plan.closes == seq(2 * n, j => j)
    ensures forall k :: 0 <= k <= n ==> plan.stages[k].command == index + k
    ensures forall k, j :: 0 <= k <= n && 0 <= j < n ==>
              (plan.stages[k].stdoutPipe == Some(2 * j + 1) <==> k == j) &&
              (plan.stages[k].stdinPipe == Some(2 * j) <==> k == j + 1)
    ensures forall k :: 0 <= k <= n ==>
              (plan.stages[k].stdinPipe == None <==> k == 0) && (plan.stages[k].stdoutPipe == None <==> k == n)
    ensures forall k :: 0 <= k <= n ==> (plan.stages[k].checksWildcard <==> k == 0)
  {
    PipePlan(2 * n, seq(n + 1, k => StageOf(index, n, k)), seq(2 * n, j => j), n + 1)
  }

  /** processPipe: counts the run of "|" records from index and forks one child per record of
      the pipeline; returns the number of pipes, or 0 when the record does not start a pipeline. */
  method ProcessPipe(command: array<Command>, index: int) returns (flag: int, plan: Option<PipePlan>)
    requires 0 <= index < command.Length && HasName(command[index]) && command[index].sep.Some?
    requires IsPipeHead(command[index]) ==> PipeRunEnds(command[..], index)
    ensures !IsPipeHead(command[index]) ==> flag == 0 && plan == None
    ensures IsPipeHead(command[index]) ==>
              flag == RunLength(command[..], index) && flag >= 1 && plan == Some(UniformPlan(index, flag))
  {
    flag := 0;
    plan := None;
    var cp := command[index];
    if Name(cp) != ExitName && cp.sep.value == PipeSep {
      // the number of pipes
      ghost var run := RunLength(command[..], index);
      var temp := index;
      while command[temp].sep.value == PipeSep
        invariant index <= temp <= index + run
        decreases index + run - temp
      {
        temp := temp + 1;
      }
      var nPipes := temp - index;

      // the first child writes p[1]; child i+1 reads p[2i] and writes p[2i+3]; the last reads p[2n-2]
      var stages := [Stage(index, None, Some(1), true)];
      var i := 0;
      while i < nPipes - 1
        invariant 0 <= i <= nPipes - 1
        invariant stages == seq(i + 1, k => StageOf(index, nPipes, k))
      {
        stages := stages + [Stage(index + i + 1, Some(i * 2), Some(i * 2 + 3), false)];
        i := i + 1;
      }
      stages := stages + [Stage(index + nPipes, Some(nPipes * 2 - 2), None, false)];
      assert stages == seq(nPipes + 1, k => StageOf(index, nPipes, k));

      var closes := [];
      var j := 0;
      while j < nPipes * 2
        invariant 0 <= j <= nPipes * 2
        invariant closes == seq(j, x => x)
      {
        closes := closes + [j];
        j := j + 1;
      }
      var waits := 0;
      j := 0;
      while j < nPipes + 1
        invariant 0 <= j <= nPipes + 1 && waits == j
      {
        waits := waits + 1;
        j := j + 1;
      }
      flag := nPipes;
      plan := Some(PipePlan(nPipes * 2, stages, closes, waits));
    }
  }

  /** Over the records separateCommands builds, every run of "|" ends inside the line, because
      a final "|" is rejected: processPipe's counting loop stops on a filled record. */
  lemma {:induction false} SegmentedRunsEnd(ts: seq<string>, cmds: seq<Command>, i: int)
    requires SegmentResult(ts) > 0 && |SepIndices(Padded(ts))| <= |cmds|
    requires forall c :: 0 <= c < |SepIndices(Padded(ts))| ==> cmds[c].sep == Some(Padded(ts)[SepIndices(Padded(ts))[c]])
    requires 0 <= i < |SepIndices(Padded(ts))|
    ensures PipeRunEnds(cmds, i)
    ensures i + RunLength(cmds, i) < |SepIndices(Padded(ts))|
    decreases |SepIndices(Padded(ts))| - i
  {
    var ps := SepIndices(Padded(ts));
    if i == |ps| - 1 {
      SegmentedRecords(ts, i);
    } else if cmds[i].sep.value == PipeSep {
      SegmentedRunsEnd(ts, cmds, i + 1);
    }
  }

  // ---------------------------------------------------------------------------------------
  // Arity checks

  /** Exactly one token, none, or more than one after "<", ">" or the prompt command name. */
  datatype Arity = Exact | Missing | TooMany

  function ArityOf(after: int): Arity {
    if after == 1 then Exact else if after == 0 then Missing else TooMany
  }

  /** The span first..last of the token array can be compared with strcmp. */
  predicate SpanReadable(buf: seq<Option<string>>, cp: Command) {
    0 <= cp.first <= cp.last + 1 <= |buf| && forall i :: cp.first <= i <= cp.last ==> buf[i].Some?
  }

  /** processStdin/processStdout act when argv[0] is not "exit" and a target was recorded. */
  predicate Applies(cp: Command, file: Option<string>)
    requires HasName(cp)
  {
    Name(cp) != ExitName && file.Some?
  }

  /** The index of the last occurrence of op among the tokens first..last. */
  method RedirectionIndex(commandToken: array<Option<string>>, first: int, last: int, op: string) returns (idx: int)
    requires 0 <= first <= last + 1 <= commandToken.Length
    requires forall i :: first <= i <= last ==> commandToken[i].Some?
    requires LastOp(commandToken[..], first, last + 1, op) != -1
    ensures idx == LastOp(commandToken[..], first, last + 1, op)
    ensures first <= idx <= last && commandToken[idx] == Some(op)
  {
    idx := -1;
    var i := first;
    while i <= last
      invariant first <= i <= last + 1
      invariant idx == LastOp(commandToken[..], first, i, op)
    {
      if commandToken[i].value == op {
        idx := i;
      }
      i := i + 1;
    }
  }

  /** The arity verdict of processStdin (op "<") or processStdout (op ">"): None when the
      check does not apply, Exact when one token follows the last operator (the command
      runs), Missing when the operator ends the command, TooMany otherwise. */
  function RedirectArity(buf: seq<Option<string>>, cp: Command, op: string, file: Option<string>): (a: Option<Arity>)
    requires HasName(cp)
    requires Applies(cp, file) ==> SpanReadable(buf, cp) && LastOp(buf, cp.first, cp.last + 1, op) != -1
    ensures a == None <==> !Applies(cp, file)
    ensures a == Some(Exact) <==> Applies(cp, file) && LastOp(buf, cp.first, cp.last + 1, op) == cp.last - 1
    ensures a == Some(Missing) <==> Applies(cp, file) && LastOp(buf, cp.first, cp.last + 1, op) == cp.last
    ensures a == Some(TooMany) <==> Applies(cp, file) && LastOp(buf, cp.first, cp.last + 1, op) < cp.last - 1
  {
    if !Applies(cp, file) then None else Some(ArityOf(cp.last - LastOp(buf, cp.first, cp.last + 1, op)))
  }

  /** The arity logic of processStdin. */
  method ProcessStdin(commandToken: array<Option<string>>, command: array<Command>, index: int) returns (a: Option<Arity>)
    requires 0 <= index < command.Length && HasName(command[index])
    requires Applies(command[index], command[index].stdinFile) ==>
               SpanReadable(commandToken[..], command[index]) &&
               LastOp(commandToken[..], command[index].first, command[index].last + 1, StdinOp) != -1
    ensures a == RedirectArity(commandToken[..], command[index], StdinOp, command[index].stdinFile)
  {
    a := None;
    var cp := command[index];
    if Name(cp) != ExitName && cp.stdinFile != None {
      var stdinIndex := RedirectionIndex(commandToken, cp.first, cp.last, StdinOp);
      if cp.last - stdinIndex == 1 {
        a := Some(Exact);
      } else if cp.last - stdinIndex == 0 {
        a := Some(Missing);
      } else {
        a := Some(TooMany);
      }
    }
  }

  /** The arity logic of processStdout. */
  method ProcessStdout(commandToken: array<Option<string>>, command: array<Command>, index: int) returns (a: Option<Arity>)
    requires 0 <= index < command.Length && HasName(command[index])
    requires Applies(command[index], command[index].stdoutFile) ==>
               SpanReadable(commandToken[..], command[index]) &&
               LastOp(commandToken[..], command[index].first, command[index].last + 1, StdoutOp) != -1
    ensures a == RedirectArity(commandToken[..], command[index], StdoutOp, command[index].stdoutFile)
  {
    a := None;
    var cp := command[index];
    if Name(cp) != ExitName && cp.stdoutFile != None {
      var stdoutIndex := RedirectionIndex(commandToken, cp.first, cp.last, StdoutOp);
      if cp.last - stdoutIndex == 1 {
        a := Some(Exact);
      } else if cp.last - stdoutIndex == 0 {
        a := Some(Missing);
      } else {
        a := Some(TooMany);
      }
    }
  }

  /** How the arity verdict relates to the target searchRedirection recorded: with exactly one
      token after the last operator that token is the file; with none, the recorded target is
      the separator closing the command; with more, it is a word before the command's last. */
  lemma ArityMatchesTarget(buf: seq<Option<string>>, cp: Command, op: string, prior: Option<string>)
    requires 0 <= cp.first <= cp.last + 1 < |buf| && HasName(cp)
    requires buf[cp.last + 1].Some? && IsSeparator(buf[cp.last + 1].value)
    requires forall i :: cp.first <= i <= cp.last ==> buf[i].Some? && !IsSeparator(buf[i].value)
    requires LastOp(buf, cp.first, cp.last + 1, op) != -1
    ensures var file := RedirectTarget(buf, cp.first, cp.last, op, prior);
            var a := RedirectArity(buf, cp, op, file);
            (a == Some(Exact) ==> file == buf[cp.last]) &&
            (a == Some(Missing) ==> IsSeparator(file.value)) &&
            (a == Some(TooMany) ==> file == buf[LastOp(buf, cp.first, cp.last + 1, op) + 1] &&
                                    LastOp(buf, cp.first, cp.last + 1, op) + 1 < cp.last) &&
            (Name(cp) != ExitName ==> a != None)
  {
  }

  // ---------------------------------------------------------------------------------------
  // Built-ins

  const PromptName := "prompt"

  /** The characters of a NUL-terminated buffer up to its first NUL. */
  function CString(s: seq<char>): (r: string)
    requires '\0' in s
    ensures |r| < |s| && r == s[..|r|] && s[|r|] == '\0' && '\0' !in r
  {
    if s[0] == '\0' then [] else [s[0]] + CString(s[1..])
  }

  /** processPrompt: with exactly one argument after "prompt" the argument is copied into
      newPrompt (strcpy) and becomes the prompt; with none or several the prompt is kept. */
  method ProcessPrompt(prompt: string, newPrompt: array<char>, command: array<Command>, index: int)
      returns (p: string, a: Option<Arity>)
    requires 0 <= index < command.Length && HasName(command[index])
    requires Name(command[index]) == PromptName && command[index].last == command[index].first + 1 ==>
               |command[index].argv.value| > 1 && command[index].argv.value[1].Some? &&
               |command[index].argv.value[1].value| < newPrompt.Length && '\0' !in command[index].argv.value[1].value
    modifies newPrompt
    ensures a == None <==> Name(command[index]) != PromptName
    ensures a == Some(Exact) <==> Name(command[index]) == PromptName && command[index].last == command[index].first + 1
    ensures a == Some(Missing) <==> Name(command[index]) == PromptName && command[index].last == command[index].first
    ensures a == Some(TooMany) <==> Name(command[index]) == PromptName &&
                                    command[index].last != command[index].first + 1 && command[index].last != command[index].first
    ensures a == Some(Exact) ==>
              p == command[index].argv.value[1].value && '\0' in newPrompt[..] && CString(newPrompt[..]) == p &&
              newPrompt[|p| + 1..] == old(newPrompt[|p| + 1..])
    ensures a != Some(Exact) ==> p == prompt && newPrompt[..] == old(newPrompt[..])
  {
    p := prompt;
    a := None;
    var cp := command[index];
    if Name(cp) == PromptName {
      if cp.last == cp.first + 1 {
        var arg := cp.argv.value[1].value;
        ghost var before := newPrompt[..];
        var i := 0;
        while i < |arg|
          invariant 0 <= i <= |arg|
          invariant forall j :: 0 <= j < newPrompt.Length ==> newPrompt[j] == if j < i then arg[j] else before[j]
        {
          newPrompt[i] := arg[i];
          i := i + 1;
        }
        newPrompt[|arg|] := '\0';
        assert newPrompt[..|arg| + 1] == arg + ['\0'];
        CStringOf(arg, newPrompt[..]);
        assert newPrompt[|arg| + 1..] == before[|arg| + 1..];
        p := arg;
        a := Some(Exact);
      } else if cp.last == cp.first {
        a := Some(Missing);
      } else {
        a := Some(TooMany);
      }
    }
  }

  /** A buffer starting with a NUL-free string and a NUL reads back as that string. */
  lemma {:induction false} CStringOf(arg: string, s: seq<char>)
    requires '\0' !in arg && |arg| < |s| && s[..|arg| + 1] == arg + ['\0']
    ensures '\0' in s && CString(s) == arg
  {
    assert s[|arg|] == '\0';
    if arg != [] {
      assert s[1..][..|arg| - 1 + 1] == arg[1..] + ['\0'];
      CStringOf(arg[1..], s[1..]);
    }
  }

  /** builtInCommand: 1 exactly for "prompt", "pwd" and "cd". */
  function BuiltInCommand(cp: Command): (flag: int)
    requires HasName(cp)
    ensures flag == 0 || flag == 1
    ensures flag == 1 <==> Name(cp) in {"prompt", "pwd", "cd"}
  {
    if Name(cp) != ExitName && (Name(cp) == PromptName || Name(cp) == "pwd" || Name(cp) == "cd") then 1 else 0
  }

  /** isFileName: 1 exactly when input equals an entry before the NULL sentinel. */
  method IsFileName(input: string, filename: array<Option<string>>) returns (exist: int)
    requires None in filename[..]
    ensures exist == 0 || exist == 1
    ensures exist == 1 <==> input in Live(filename[..])
  {
    LiveIsNullIndex(filename[..]);
    ghost var names := Live(filename[..]);
    exist := 0;
    var i := 0;
    while filename[i] != None
      invariant 0 <= i <= NullIndex(filename[..])
      invariant forall j :: 0 <= j < i ==> names[j] != input
      decreases NullIndex(filename[..]) - i
    {
      if filename[i].value == input {
        exist := 1;
        assert names[i] == input;
        break;
      }
      i := i + 1;
    }
  }

  // ---------------------------------------------------------------------------------------
  // Parsing a line

  /** The token array of a line of tokens ts, NULL-filled after them. */
  function TokenArray(ts: seq<string>): (b: seq<Option<string>>)
    requires |ts| <= MaxNumTokens
    ensures |b| == MaxNumTokens
  {
    Slots(ts) + seq(MaxNumTokens - |ts|, _ => None)
  }

  /** A token array holding ts and then only NULLs is TokenArray(ts). */
  lemma TokenArrayOf(b: seq<Option<string>>, ts: seq<string>)
    requires |ts| <= MaxNumTokens == |b|
    requires forall j :: 0 <= j < |ts| ==> b[j] == Some(ts[j])
    requires forall j :: |ts| <= j < |b| ==> b[j] == None
    ensures b == TokenArray(ts)
  {
    var a := TokenArray(ts);
    assert forall j :: 0 <= j < |b| ==> b[j] == a[j];
  }

  /** The token array tokeniseWhiteSpace leaves is the line read by separateCommands, and the
      array separateCommands leaves holds the line with ";" appended unless it was rejected
      for its leading separator. */
  lemma TokenArrayAppended(ts: seq<string>)
    requires |ts| < MaxNumTokens
    ensures None in TokenArray(ts) && Live(TokenArray(ts)) == ts
    ensures |Padded(ts)| <= MaxNumTokens
    ensures Appended(TokenArray(ts)) == TokenArray(if SegmentResult(ts) == -3 then ts else Padded(ts))
  {
    var b := TokenArray(ts);
    assert b[|ts|] == None;
    LiveExact(b, ts);
    if ts != [] && !IsSeparator(ts[0]) && !IsSeparator(ts[|ts| - 1]) {
      var p := ts + [SeqSep];
      assert Padded(ts) == p;
      TokenArrayOf(b[|ts| := Some(SeqSep)], p);
    }
  }

  /** The first half of parseCommand: initialiseToken, then tokeniseWhiteSpace. */
  method TokeniseLine(input: string, token: array<Option<string>>) returns (nTokens: int)
    requires '\0' !in input
    requires token.Length == MaxNumTokens && |Tokens(input)| < MaxNumTokens
    modifies token
    ensures nTokens == |Tokens(input)|
    ensures token[..] == TokenArray(Tokens(input))
  {
    InitialiseToken(token);
    ghost var cleared := token[..];
    nTokens := TokeniseWhiteSpace(input, token);
    ghost var ts := Tokens(input);
    assert forall j :: |ts| <= j < token.Length ==> token[j] == cleared[j] == None;
    TokenArrayOf(token[..], ts);
  }

  /** The second half of parseCommand: separateCommands over the token array of ts. */
  method SegmentTokens(token: array<Option<string>>, command: array<Command>, ghost ts: seq<string>) returns (n: int)
    requires |ts| < MaxNumTokens && token[..] == TokenArray(ts)
    requires |SepIndices(Padded(ts))| <= command.Length
    modifies token, command
    ensures n == SegmentResult(ts)
    ensures token[..] == TokenArray(if n == -3 then ts else Padded(ts))
    ensures n == 0 || n == -3 ==> command[..] == old(command[..])
    ensures n == -2 || n == -4 ==> Filled(old(command[..]), command[..], Padded(ts), ScannedRecords(Padded(ts)))
    ensures n > 0 ==>
              forall c :: 0 <= c < command.Length ==>
                command[c] == if c < n then Finish(token[..], Fill(old(command[c]), Padded(ts), c))
                              else old(command[c])
  {
    TokenArrayAppended(ts);
    assert Live(token[..]) == ts;
    n := SeparateCommands(token, command);
  }

  /** parseCommand: the token array and the records after one input line. */
  method ParseCommand(input: string, token: array<Option<string>>, command: array<Command>) returns (n: int)
    requires '\0' !in input
    requires token.Length == MaxNumTokens && command.Length == MaxNumCommands
    requires |Tokens(input)| < MaxNumTokens
    requires |SepIndices(Padded(Tokens(input)))| <= MaxNumCommands
    modifies token, command
    ensures n == SegmentResult(Tokens(input))
    ensures token[..] == TokenArray(if n == -3 then Tokens(input) else Padded(Tokens(input)))
    ensures n == 0 || n == -3 ==> forall c :: 0 <= c < command.Length ==> command[c] == EmptyCommand
    ensures n == -2 || n == -4 ==>
              Filled(seq(command.Length, _ => EmptyCommand), command[..], Padded(Tokens(input)),
                     ScannedRecords(Padded(Tokens(input))))
    ensures n > 0 ==>
              forall c :: 0 <= c < command.Length ==>
                command[c] == if c < n then Finish(token[..], Fill(EmptyCommand, Padded(Tokens(input)), c))
                              else EmptyCommand
  {
    // myshell.c clears the token array before the records; the two arrays are disjoint,
    // so clearing the records first leaves the same state.
    InitialiseCommand(command);
    ghost var empty := command[..];
    assert empty == seq(command.Length, _ => EmptyCommand);
    var nTokens := TokeniseLine(input, token);
    n := SegmentTokens(token, command, Tokens(input));
    if n > 0 {
      forall c | 0 <= c < command.Length
        ensures command[c] == if c < n then Finish(token[..], Fill(EmptyCommand, Padded(Tokens(input)), c))
                              else EmptyCommand
      {
        assert empty[c] == EmptyCommand;
      }
    }
  }
}
