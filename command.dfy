/** Model of command.c / command.h: separating a NULL-terminated token buffer into command
    records, with redirection targets and argument vectors. */
module Commands {
  import opened Opt

  /** MAX_NUM_COMMANDS in command.h */
  const MaxNumCommands := 1000

  const PipeSep := "|"
  const ConSep := "&"
  const SeqSep := ";"
  const StdinOp := "<"
  const StdoutOp := ">"

  /** struct CommandStruct. `first` and `last` bound the command's own tokens (inclusive),
      `sep` is the separator token that ends it, `argv` is the reallocated argument vector
      (None is the NULL pointer; inside it None is a NULL slot). */
  datatype Command = Command(
    first: int,
    last: int,
    sep: Option<string>,
    argv: Option<seq<Option<string>>>,
    stdinFile: Option<string>,
    stdoutFile: Option<string>)

  /** The value initialiseCommand gives every record. */
  const EmptyCommand := Command(0, 0, None, None, None, None)

  /** separator(): 1 exactly for the three separator tokens. */
  function IsSeparator(t: string): (r: bool)
    ensures r <==> t == PipeSep || t == ConSep || t == SeqSep
  {
    t in [PipeSep, ConSep, SeqSep]
  }

  predicate IsRedirection(t: Option<string>) {
    t == Some(StdinOp) || t == Some(StdoutOp)
  }

  // ---------------------------------------------------------------------------------------
  // Specification of separateCommands

  /** Index of the NULL that ends the token list. */
  function NullIndex(buf: seq<Option<string>>): (n: nat)
    requires None in buf
    ensures n < |buf| && buf[n] == None
    ensures forall j :: 0 <= j < n ==> buf[j] != None
  {
    if buf[0] == None then 0
    else
      assert buf == [buf[0]] + buf[1..];
      NullIndex(buf[1..]) + 1
  }

  /** The token list after the implicit ";" has been appended when it does not end in a separator. */
  function Padded(ts: seq<string>): (p: seq<string>)
    ensures ts <= p && |p| <= |ts| + 1
    ensures ts != [] ==> IsSeparator(p[|p| - 1])
  {
    if ts != [] && !IsSeparator(ts[|ts| - 1]) then ts + [SeqSep] else ts
  }

  /** The indices of the separator tokens of s, in increasing order. */
  function SepIndices(s: seq<string>): (r: seq<nat>)
    ensures forall k :: 0 <= k < |r| ==> r[k] < |s| && IsSeparator(s[r[k]])
  {
    if s == [] then []
    else SepIndices(s[..|s| - 1]) + (if IsSeparator(s[|s| - 1]) then [|s| - 1] else [])
  }

  /** The separator indices are listed in increasing order. */
  lemma {:induction false} SepIndicesIncreasing(s: seq<string>)
    ensures forall k, m :: 0 <= k < m < |SepIndices(s)| ==> SepIndices(s)[k] < SepIndices(s)[m]
  {
    if s != [] {
      SepIndicesIncreasing(s[..|s| - 1]);
    }
  }

  /** Every separator of s is listed. */
  lemma {:induction false} SepIndicesComplete(s: seq<string>)
    ensures forall i :: 0 <= i < |s| && IsSeparator(s[i]) ==> i in SepIndices(s)
  {
    if s != [] {
      SepIndicesComplete(s[..|s| - 1]);
    }
  }

  /** Index of the first token of command c: just after the previous separator. */
  function Start(ps: seq<nat>, c: nat): nat
    requires c <= |ps|
  {
    if c == 0 then 0 else ps[c - 1] + 1
  }

  /** Two separators next to each other, the second at index i. */
  predicate AdjacentAt(p: seq<string>, i: int) {
    0 < i < |p| && IsSeparator(p[i]) && IsSeparator(p[i - 1])
  }

  predicate HasAdjacent(p: seq<string>) {
    exists i :: 0 < i < |p| && AdjacentAt(p, i)
  }

  /** The first adjacent pair is the one ending at i (the one the scan reports). */
  predicate FirstAdjacentAt(p: seq<string>, i: int) {
    AdjacentAt(p, i) && NoAdjacentBefore(p, i)
  }

  /** No two separators are adjacent among the first i tokens of p. */
  predicate NoAdjacentBefore(p: seq<string>, i: int) {
    forall j :: 0 <= j < i ==> !AdjacentAt(p, j)
  }

  /** The least index j >= k at which two adjacent separators end, or |p| when there is none. */
  function FirstAdjacentFrom(p: seq<string>, k: nat): (i: nat)
    requires k <= |p|
    ensures k <= i <= |p| && (i < |p| ==> AdjacentAt(p, i))
    ensures forall j :: k <= j < i ==> !AdjacentAt(p, j)
    decreases |p| - k
  {
    if k == |p| then |p| else if AdjacentAt(p, k) then k else FirstAdjacentFrom(p, k + 1)
  }

  /** Where the separator scan stops with -2: the first adjacent pair, or |p| when there is none. */
  function FirstAdjacent(p: seq<string>): (i: nat)
    ensures i <= |p|
    ensures i < |p| <==> HasAdjacent(p)
    ensures i < |p| ==> FirstAdjacentAt(p, i)
  {
    FirstAdjacentFrom(p, 0)
  }

  /** The number of records the separator scan fills before it returns. */
  function ScannedRecords(p: seq<string>): nat {
    |SepIndices(p[..FirstAdjacent(p)])|
  }

  /** The value separateCommands returns for the token list ts, as documented in command.h:
      0 for an empty line, -3 for a leading separator, -2 for two adjacent separators,
      -4 for a final "|", and otherwise the number of commands. */
  function SegmentResult(ts: seq<string>): (r: int)
    ensures r == 0 <==> ts == []
    ensures r == -3 <==> ts != [] && IsSeparator(ts[0])
    ensures r == -2 <==> ts != [] && !IsSeparator(ts[0]) && HasAdjacent(Padded(ts))
    ensures r == -4 <==> ts != [] && !IsSeparator(ts[0]) && !HasAdjacent(Padded(ts))
                         && Padded(ts)[|Padded(ts)| - 1] == PipeSep
    ensures r > 0 ==> r == |SepIndices(Padded(ts))|
    ensures r in {-4, -3, -2} || r >= 0
  {
    var p := Padded(ts);
    if ts == [] then 0
    else if IsSeparator(ts[0]) then -3
    else if HasAdjacent(p) then -2
    else if p[|p| - 1] == PipeSep then -4
    else
      assert |p| - 1 in SepIndices(p);
      |SepIndices(p)|
  }

  /** The padded token list of the buffer buf. */
  function Line(buf: seq<Option<string>>): seq<string> {
    Padded(Live(buf))
  }

  /** The token buffer after the call: ";" written over the NULL when the list is non-empty,
      does not start with a separator and does not end with one. */
  function Appended(buf: seq<Option<string>>): (b: seq<Option<string>>)
    requires None in buf
    ensures |b| == |buf|
  {
    var ts := Live(buf);
    if ts != [] && !IsSeparator(ts[0]) && !IsSeparator(ts[|ts| - 1]) then buf[|ts| := Some(SeqSep)]
    else buf
  }

  /** fillCommandStructure: the record spans [first, sepIndex - 1] and remembers its separator. */
  function FillCommandStructure(cp: Command, first: int, sepIndex: int, sep: string): (r: Command)
    ensures r.first == first && r.last == sepIndex - 1 && r.sep == Some(sep)
    ensures r.argv == cp.argv && r.stdinFile == cp.stdinFile && r.stdoutFile == cp.stdoutFile
  {
    cp.(first := first, last := sepIndex - 1, sep := Some(sep))
  }

  /** Record c as the separator scan fills it. */
  function Fill(cp: Command, p: seq<string>, c: nat): Command
    requires c < |SepIndices(p)|
  {
    var ps := SepIndices(p);
    FillCommandStructure(cp, Start(ps, c), ps[c], p[ps[c]])
  }

  /** Record c spans the tokens between separator c-1 and separator c of p. */
  predicate Delimits(cp: Command, p: seq<string>, c: nat)
    requires c < |SepIndices(p)|
  {
    cp.first == Start(SepIndices(p), c) && cp.last + 1 == SepIndices(p)[c]
  }

  /** The records below upto are filled by the separator scan; the others are untouched. */
  ghost predicate Filled(before: seq<Command>, after: seq<Command>, p: seq<string>, upto: nat) {
    |before| == |after| &&
    forall c :: 0 <= c < |after| ==>
      after[c] == if c < upto && c < |SepIndices(p)| then Fill(before[c], p, c) else before[c]
  }

  // ---------------------------------------------------------------------------------------
  // Redirections and the argument vector

  /** The largest index k in [lo, hi) with buf[k] == Some(op), or -1 when there is none. */
  function LastOp(buf: seq<Option<string>>, lo: int, hi: int, op: string): (k: int)
    requires 0 <= lo <= hi <= |buf|
    ensures k == -1 || (lo <= k < hi && buf[k] == Some(op))
    decreases hi - lo
  {
    if hi == lo then -1
    else if buf[hi - 1] == Some(op) then hi - 1
    else LastOp(buf, lo, hi - 1, op)
  }

  /** No slot after the one LastOp finds holds op; when it finds none, no slot of [lo, hi) does. */
  lemma {:induction false} LastOpIsLast(buf: seq<Option<string>>, lo: int, hi: int, op: string)
    requires 0 <= lo <= hi <= |buf|
    ensures var k := LastOp(buf, lo, hi, op);
            forall j :: (if k == -1 then lo else k + 1) <= j < hi ==> buf[j] != Some(op)
    decreases hi - lo
  {
    if hi > lo && buf[hi - 1] != Some(op) {
      LastOpIsLast(buf, lo, hi - 1, op);
    }
  }

  /** No slot in [lo, hi] holds op. */
  predicate NoOpIn(buf: seq<Option<string>>, lo: int, hi: int, op: string) {
    forall j :: lo <= j <= hi && 0 <= j < |buf| ==> buf[j] != Some(op)
  }

  /** The redirection file searchRedirection records for operator op in [first, last]: the
      token after the last occurrence (which is the separator when op is the last token),
      or the prior value when op does not occur. */
  function RedirectTarget(buf: seq<Option<string>>, first: int, last: int, op: string, prior: Option<string>)
    : Option<string>
    requires 0 <= first <= last + 1 < |buf|
  {
    var k := LastOp(buf, first, last + 1, op);
    if k == -1 then prior else buf[k + 1]
  }

  /** Without op in [first, last] the prior target stays; otherwise the target is the token after
      the occurrence of op that has no other occurrence after it. */
  lemma RedirectTargetIsLast(buf: seq<Option<string>>, first: int, last: int, op: string, prior: Option<string>)
    requires 0 <= first <= last + 1 < |buf|
    ensures NoOpIn(buf, first, last, op) ==> RedirectTarget(buf, first, last, op, prior) == prior
    ensures forall k :: first <= k <= last && buf[k] == Some(op) && NoOpIn(buf, k + 1, last, op) ==>
              RedirectTarget(buf, first, last, op, prior) == buf[k + 1]
  {
    LastOpIsLast(buf, first, last + 1, op);
  }

  /** The tokens of buf[lo..hi] that buildCommandArgumentArray keeps, scanning left to right:
      each "<" or ">" is dropped together with the token after it. */
  function StripSpan(buf: seq<Option<string>>, lo: int, hi: int): (r: seq<Option<string>>)
    requires 0 <= lo && hi <= |buf|
    ensures |r| <= if lo < hi then hi - lo else 0
    decreases hi - lo
  {
    if lo >= hi then []
    else if IsRedirection(buf[lo]) then StripSpan(buf, lo + 2, hi)
    else [buf[lo]] + StripSpan(buf, lo + 1, hi)
  }

  /** No redirection operator survives: every operator the scan meets is dropped, and so is
      every operator that stands as the target of another. */
  lemma {:induction false} StripDropsOperators(buf: seq<Option<string>>, lo: int, hi: int)
    requires 0 <= lo && hi <= |buf|
    ensures forall j :: 0 <= j < |StripSpan(buf, lo, hi)| ==> !IsRedirection(StripSpan(buf, lo, hi)[j])
    decreases hi - lo
  {
    if lo < hi {
      if IsRedirection(buf[lo]) {
        StripDropsOperators(buf, lo + 2, hi);
      } else {
        StripDropsOperators(buf, lo + 1, hi);
      }
    }
  }

  /** A span without redirection operators is kept whole. */
  lemma {:induction false} StripWithoutOperators(buf: seq<Option<string>>, lo: int, hi: int)
    requires 0 <= lo <= hi <= |buf|
    requires forall j :: lo <= j < hi ==> !IsRedirection(buf[j])
    ensures StripSpan(buf, lo, hi) == buf[lo..hi]
    decreases hi - lo
  {
    if lo < hi {
      StripWithoutOperators(buf, lo + 1, hi);
      assert buf[lo..hi] == [buf[lo]] + buf[lo + 1..hi];
    }
  }

  /** s occurs in t with its elements in order (not necessarily contiguous). */
  predicate IsSubsequence<T(==)>(s: seq<T>, t: seq<T>)
    decreases |t|
  {
    s == [] || (t != [] && (IsSubsequence(s, t[1..]) || (s[0] == t[0] && IsSubsequence(s[1..], t[1..]))))
  }

  /** The kept tokens keep their relative order. */
  lemma {:induction false} StripIsSubsequence(buf: seq<Option<string>>, lo: int, hi: int)
    requires 0 <= lo <= hi <= |buf|
    ensures IsSubsequence(StripSpan(buf, lo, hi), buf[lo..hi])
    decreases hi - lo
  {
    var r := StripSpan(buf, lo, hi);
    var t := buf[lo..hi];
    if lo < hi {
      assert t[1..] == buf[lo + 1..hi];
      if IsRedirection(buf[lo]) {
        if lo + 1 < hi {
          StripIsSubsequence(buf, lo + 2, hi);
          assert t[1..][1..] == buf[lo + 2..hi];
          assert IsSubsequence(r, t[1..]);
        }
      } else {
        StripIsSubsequence(buf, lo + 1, hi);
        assert r[1..] == StripSpan(buf, lo + 1, hi);
      }
    }
  }

  /** The realloc'd argv of a record spanning [first, last]: the kept tokens, then NULL in
      every remaining slot of the last - first + 2 allocated. */
  function ArgvSlots(buf: seq<Option<string>>, first: int, last: int): (a: seq<Option<string>>)
    requires 0 <= first <= last + 1 <= |buf|
    ensures |a| == last - first + 2
  {
    var kept := StripSpan(buf, first, last + 1);
    kept + seq(last - first + 2 - |kept|, _ => None)
  }

  /** Record cp after searchRedirection and buildCommandArgumentArray. */
  ghost function Finish(buf: seq<Option<string>>, cp: Command): Command {
    if 0 <= cp.first <= cp.last + 1 < |buf| then
      cp.(stdinFile := RedirectTarget(buf, cp.first, cp.last, StdinOp, cp.stdinFile),
          stdoutFile := RedirectTarget(buf, cp.first, cp.last, StdoutOp, cp.stdoutFile),
          argv := Some(ArgvSlots(buf, cp.first, cp.last)))
    else cp
  }

  // ---------------------------------------------------------------------------------------
  // The operations of command.c

  /** initialiseCommand: all MAX_NUM_COMMANDS records get zero indices and NULL pointers. */
  method InitialiseCommand(command: array<Command>)
    requires command.Length >= MaxNumCommands
    modifies command
    ensures forall c :: 0 <= c < MaxNumCommands ==> command[c] == EmptyCommand
    ensures forall c :: MaxNumCommands <= c < command.Length ==> command[c] == old(command[c])
  {
    for i := 0 to MaxNumCommands
      invariant forall c :: 0 <= c < i ==> command[c] == EmptyCommand
      invariant forall c :: MaxNumCommands <= c < command.Length ==> command[c] == old(command[c])
    {
      command[i] := EmptyCommand;
    }
  }

  lemma RedirectTargetStep(buf: seq<Option<string>>, first: int, i: int, op: string, prior: Option<string>)
    requires 0 <= first <= i && i + 1 < |buf|
    ensures RedirectTarget(buf, first, i, op, prior)
            == if buf[i] == Some(op) then buf[i + 1] else RedirectTarget(buf, first, i - 1, op, prior)
  {
  }

  /** searchRedirection: scans [first, last + 1] and records the token after each "<" / ">"
      in stdin_file / stdout_file, so the last occurrence wins. Token last + 1 is the
      record's separator. */
  method SearchRedirection(token: array<Option<string>>, cp: Command) returns (r: Command)
    requires 0 <= cp.first <= cp.last + 1 < token.Length
    requires forall j :: cp.first <= j <= cp.last + 1 ==> token[j].Some?
    requires IsSeparator(token[cp.last + 1].value)
    ensures r == cp.(stdinFile := RedirectTarget(token[..], cp.first, cp.last, StdinOp, cp.stdinFile),
                     stdoutFile := RedirectTarget(token[..], cp.first, cp.last, StdoutOp, cp.stdoutFile))
  {
    ghost var buf := token[..];
    r := cp;
    var i := cp.first;
    while i <= cp.last + 1
      invariant cp.first <= i <= cp.last + 2
      invariant r == cp.(stdinFile := RedirectTarget(buf, cp.first, Min(i, cp.last + 1) - 1, StdinOp, cp.stdinFile),
                         stdoutFile := RedirectTarget(buf, cp.first, Min(i, cp.last + 1) - 1, StdoutOp, cp.stdoutFile))
    {
      if i <= cp.last {
        RedirectTargetStep(buf, cp.first, i, StdinOp, cp.stdinFile);
        RedirectTargetStep(buf, cp.first, i, StdoutOp, cp.stdoutFile);
      }
      if token[i].value == StdinOp {
        r := r.(stdinFile := token[i + 1]);
      } else if token[i].value == StdoutOp {
        r := r.(stdoutFile := token[i + 1]);
      }
      i := i + 1;
    }
  }

  function Min(a: int, b: int): int {
    if a <= b then a else b
  }

  /** buildCommandArgumentArray: reallocates last - first + 2 slots and copies the tokens of
      [first, last] into them, skipping each redirection operator and the token after it,
      then writes the NULL terminator. */
  method BuildCommandArgumentArray(token: array<Option<string>>, cp: Command) returns (r: Command)
    requires 0 <= cp.first <= cp.last + 1 <= token.Length
    requires forall j :: cp.first <= j <= cp.last ==> token[j].Some?
    ensures r == cp.(argv := Some(ArgvSlots(token[..], cp.first, cp.last)))
  {
    var n := (cp.last - cp.first + 1) + 1;
    var argv := new Option<string>[n](_ => None);
    ghost var buf := token[..];
    var k := 0;
    var i := cp.first;
    while i <= cp.last
      invariant cp.first <= i <= cp.last + 2
      invariant 0 <= k <= i - cp.first && k < n
      invariant argv[..k] + StripSpan(buf, i, cp.last + 1) == StripSpan(buf, cp.first, cp.last + 1)
      invariant forall j :: k <= j < n ==> argv[j] == None
    {
      if IsRedirection(token[i]) {
        i := i + 1;
      } else {
        ghost var done := argv[..k];
        argv[k] := token[i];
        assert argv[..k + 1] == done + [buf[i]];
        k := k + 1;
      }
      i := i + 1;
    }
    assert StripSpan(buf, i, cp.last + 1) == [];
    assert argv[..k] + [] == argv[..k];
    ghost var kept := argv[..k];
    argv[k] := None;
    assert argv[..] == kept + seq(n - k, _ => None);
    assert buf == token[..];
    r := cp.(argv := Some(argv[..]));
  }

  lemma LiveIsNullIndex(buf: seq<Option<string>>)
    requires None in buf
    ensures |Live(buf)| == NullIndex(buf)
  {
  }

  /** The separators of a prefix are a prefix of the separators of the whole. */
  lemma {:induction false} SepIndicesPrefix(p: seq<string>, i: nat)
    requires i <= |p|
    ensures SepIndices(p[..i]) <= SepIndices(p)
    decreases |p| - i
  {
    if i == |p| {
      assert p[..i] == p;
    } else {
      SepIndicesPrefix(p, i + 1);
      assert p[..i + 1][..i] == p[..i];
    }
  }

  /** The separator set one token further on. */
  lemma SepIndicesStep(p: seq<string>, i: nat)
    requires i < |p|
    ensures SepIndices(p[..i + 1]) == SepIndices(p[..i]) + if IsSeparator(p[i]) then [i] else []
  {
    assert p[..i + 1][..i] == p[..i];
  }

  /** A separator at index i closes record c, which started right after the previous
      separator; the record is empty exactly when that separator is at i - 1. */
  lemma ScanSeparatorStep(p: seq<string>, i: nat, c: nat, first: int)
    requires i < |p| && !IsSeparator(p[0]) && IsSeparator(p[i])
    requires c == |SepIndices(p[..i])| && SepIndices(p[..i + 1]) <= SepIndices(p)
    requires SepIndices(p[..i + 1]) == SepIndices(p[..i]) + [i]
    requires first == Start(SepIndices(p), c)
    ensures c < |SepIndices(p)| && SepIndices(p)[c] == i
    ensures first == i <==> AdjacentAt(p, i)
  {
    var ps := SepIndices(p);
    var qs := SepIndices(p[..i]);
    assert i > 0;
    SepIndicesStep(p, i - 1);
    assert p[..i][..i - 1] == p[..i - 1];
    if IsSeparator(p[i - 1]) {
      assert qs[c - 1] == i - 1;
      assert first == i;
    } else if c > 0 {
      assert ps[c - 1] == qs[c - 1] < i;
      assert qs[c - 1] != i - 1;
      assert first < i;
    }
  }

  /** One token of the separator scan: how the separators seen so far, the start of the
      current record and the adjacency check advance. */
  lemma ScanStep(p: seq<string>, i: nat, c: nat, first: int)
    requires i < |p| && !IsSeparator(p[0])
    requires c == |SepIndices(p[..i])| && SepIndices(p[..i]) <= SepIndices(p)
    requires first == Start(SepIndices(p), c)
    ensures SepIndices(p[..i + 1]) <= SepIndices(p)
    ensures NoAdjacentBefore(p, i) && !AdjacentAt(p, i) ==> NoAdjacentBefore(p, i + 1)
    ensures !IsSeparator(p[i]) ==> |SepIndices(p[..i + 1])| == c
    ensures IsSeparator(p[i]) ==>
              |SepIndices(p[..i + 1])| == c + 1 && c < |SepIndices(p)| && SepIndices(p)[c] == i &&
              (first == i <==> AdjacentAt(p, i))
  {
    SepIndicesStep(p, i);
    SepIndicesPrefix(p, i + 1);
    if IsSeparator(p[i]) {
      ScanSeparatorStep(p, i, c, first);
    }
  }

  lemma FilledStep(before: seq<Command>, mid: seq<Command>, after: seq<Command>, p: seq<string>, c: nat, cp: Command)
    requires Filled(before, mid, p, c) && c < |SepIndices(p)| && c < |mid|
    requires cp == Fill(before[c], p, c) && after == mid[c := cp]
    ensures Filled(before, after, p, c + 1)
  {
  }

  /** The separator scan of separateCommands over the padded line p, held in token[..|p|]:
      -2 at the first pair of adjacent separators, -4 when the line ends in "|", and otherwise
      the number of records, one filled per separator. */
  method ScanSeparators(token: array<Option<string>>, command: array<Command>, nTokens: int, ghost p: seq<string>)
      returns (r: int)
    requires nTokens == |p| <= token.Length && p != [] && !IsSeparator(p[0]) && IsSeparator(p[|p| - 1])
    requires forall j :: 0 <= j < |p| ==> token[j] == Some(p[j])
    requires |SepIndices(p)| <= command.Length
    modifies command
    ensures r == (if HasAdjacent(p) then -2 else if p[|p| - 1] == PipeSep then -4 else |SepIndices(p)|)
    ensures Filled(old(command[..]), command[..], p, ScannedRecords(p))
  {
    ghost var ps := SepIndices(p);
    var first := 0;
    var last := 0;
    var c := 0;
    var i := 0;
    while i < nTokens
      invariant 0 <= i <= nTokens
      invariant c == |SepIndices(p[..i])| && SepIndices(p[..i]) <= ps
      invariant first == Start(ps, c)
      invariant i > 0 ==> last == i - 1
      invariant NoAdjacentBefore(p, i)
      invariant Filled(old(command[..]), command[..], p, c)
    {
      last := i;
      ScanStep(p, i, c, first);
      if IsSeparator(token[i].value) {
        var sep := token[i].value;
        if first == last {
          assert FirstAdjacentAt(p, i);
          assert FirstAdjacent(p) == i;
          return -2;
        }
        ghost var mid := command[..];
        command[c] := FillCommandStructure(command[c], first, last, sep);
        FilledStep(old(command[..]), mid, command[..], p, c, command[c]);
        c := c + 1;
        first := i + 1;
      }
      i := i + 1;
    }
    assert p[..i] == p;
    assert FirstAdjacent(p) == |p|;
    if token[last].value == PipeSep {
      return -4;
    }
    return c;
  }

  /** A record delimited by the separators of p, which the buffer holds, can be read from
      its first token through its separator. */
  lemma DelimitedSpan(buf: seq<Option<string>>, p: seq<string>, cp: Command, c: nat)
    requires |p| <= |buf| && forall j :: 0 <= j < |p| ==> buf[j] == Some(p[j])
    requires c < |SepIndices(p)| && Delimits(cp, p, c)
    ensures 0 <= cp.first <= cp.last + 1 < |buf|
    ensures forall j :: cp.first <= j <= cp.last + 1 ==> buf[j].Some?
    ensures IsSeparator(buf[cp.last + 1].value)
  {
    SepIndicesIncreasing(p);
    assert c == 0 || SepIndices(p)[c - 1] < SepIndices(p)[c];
  }

  /** The last loop of separateCommands: searchRedirection and buildCommandArgumentArray on
      each of the n filled records. */
  method CompleteCommands(token: array<Option<string>>, command: array<Command>, ghost p: seq<string>, n: int)
    requires |p| <= token.Length && n == |SepIndices(p)| <= command.Length
    requires forall j :: 0 <= j < |p| ==> token[j] == Some(p[j])
    requires forall d :: 0 <= d < n ==> Delimits(command[d], p, d)
    modifies command
    ensures forall d :: 0 <= d < command.Length ==>
              command[d] == if d < n then Finish(token[..], old(command[d])) else old(command[d])
  {
    ghost var buf := token[..];
    ghost var filled := command[..];
    var i := 0;
    while i < n
      invariant 0 <= i <= n
      invariant forall d :: 0 <= d < command.Length ==>
                  command[d] == if d < i then Finish(buf, filled[d]) else filled[d]
    {
      DelimitedSpan(buf, p, command[i], i);
      var cp := SearchRedirection(token, command[i]);
      cp := BuildCommandArgumentArray(token, cp);
      command[i] := cp;
      i := i + 1;
    }
  }

  /** The first loop of separateCommands: the number of tokens before the NULL. */
  method CountTokens(token: array<Option<string>>) returns (n: int)
    requires None in token[..]
    ensures n == |Live(token[..])| && n < token.Length && token[n] == None
    ensures forall j :: 0 <= j < n ==> token[j].Some?
  {
    n := 0;
    while token[n] != None
      invariant 0 <= n <= NullIndex(token[..])
      decreases NullIndex(token[..]) - n
    {
      n := n + 1;
    }
    LiveIsNullIndex(token[..]);
  }

  /** The second step of separateCommands: ";" is written over the NULL when the last token
      is not a separator, and the token count grows to the length of the padded line. */
  method AppendSeparator(token: array<Option<string>>, nTokens: int) returns (n: int)
    requires None in token[..] && 0 < nTokens == |Live(token[..])| && !IsSeparator(token[0].value)
    requires token[nTokens] == None
    modifies token
    ensures token[..] == Appended(old(token[..]))
    ensures n == |Line(old(token[..]))| <= token.Length
    ensures forall j :: 0 <= j < n ==> token[j] == Some(Line(old(token[..]))[j])
  {
    ghost var ts := Live(token[..]);
    n := nTokens;
    if !IsSeparator(token[nTokens - 1].value) {
      token[nTokens] := Some(SeqSep);
      n := nTokens + 1;
    }
    assert forall j :: 0 <= j < n ==> token[j] == Some(Padded(ts)[j]);
  }

  /** separateCommands: counts the tokens, rejects a leading separator (-3), appends ";" in
      place when the line does not end in a separator, fills one record per separator while
      rejecting two adjacent separators (-2), rejects a final "|" (-4), and then records the
      redirections and builds the argument vector of every record. */
  method SeparateCommands(token: array<Option<string>>, command: array<Command>) returns (r: int)
    requires None in token[..]
    requires |SepIndices(Line(token[..]))| <= command.Length
    modifies token, command
    ensures r == SegmentResult(Live(old(token[..])))
    ensures token[..] == Appended(old(token[..]))
    ensures r == 0 || r == -3 ==> command[..] == old(command[..])
    ensures r == -2 || r == -4 ==>
              Filled(old(command[..]), command[..], Line(old(token[..])), ScannedRecords(Line(old(token[..]))))
    ensures r > 0 ==>
              forall c :: 0 <= c < command.Length ==>
                command[c] == if c < r then Finish(token[..], Fill(old(command[c]), Line(old(token[..])), c))
                              else old(command[c])
  {
    var nTokens := CountTokens(token);

    if nTokens == 0 {
      return 0;
    }
    if IsSeparator(token[0].value) {
      return -3;
    }
    nTokens := AppendSeparator(token, nTokens);
    ghost var p := Line(old(token[..]));
    ghost var records := command[..];
    assert records == old(command[..]);
    r := ScanSeparators(token, command, nTokens, p);
    if r < 0 {
      assert Filled(records, command[..], p, ScannedRecords(p));
      return r;
    }
    assert p[..FirstAdjacent(p)] == p;
    CompleteCommands(token, command, p, r);
  }

  // ---------------------------------------------------------------------------------------
  // Properties of the segmentation

  /** The tokens strictly between separator c-1 and separator c of p are not separators. */
  lemma BetweenSeparators(p: seq<string>, c: nat)
    requires c < |SepIndices(p)|
    ensures forall j :: Start(SepIndices(p), c) <= j < SepIndices(p)[c] ==> !IsSeparator(p[j])
  {
    var ps := SepIndices(p);
    SepIndicesIncreasing(p);
    SepIndicesComplete(p);
    forall j | Start(ps, c) <= j < ps[c]
      ensures !IsSeparator(p[j])
    {
      forall m | 0 <= m < |ps|
        ensures ps[m] != j
      {
        if m < c {
          assert ps[m] <= ps[c - 1];
        } else {
          assert ps[c] <= ps[m];
        }
      }
      assert j !in ps;
    }
  }

  /** The last separator listed for a line ending in a separator is its final token. */
  lemma LastSeparatorIsFinal(p: seq<string>)
    requires p != [] && IsSeparator(p[|p| - 1])
    ensures |SepIndices(p)| > 0 && SepIndices(p)[|SepIndices(p)| - 1] == |p| - 1
  {
  }

  /** On success every record is a non-empty run of non-separator tokens closed by its own
      separator, and the last record is closed by the final token of the padded line. */
  lemma SegmentedRecords(ts: seq<string>, c: nat)
    requires SegmentResult(ts) > 0 && c < |SepIndices(Padded(ts))|
    ensures Start(SepIndices(Padded(ts)), c) < SepIndices(Padded(ts))[c]
    ensures forall j :: Start(SepIndices(Padded(ts)), c) <= j < SepIndices(Padded(ts))[c] ==> !IsSeparator(Padded(ts)[j])
    ensures c == |SepIndices(Padded(ts))| - 1 ==> SepIndices(Padded(ts))[c] == |Padded(ts)| - 1
    ensures Padded(ts)[SepIndices(Padded(ts))[c]] != PipeSep || c < |SepIndices(Padded(ts))| - 1
  {
    var p := Padded(ts);
    var ps := SepIndices(p);
    BetweenSeparators(p, c);
    LastSeparatorIsFinal(p);
    assert !HasAdjacent(p);
    assert 0 < ps[c] ==> !AdjacentAt(p, ps[c]);
    if c > 0 {
      SepIndicesIncreasing(p);
      assert ps[c - 1] < ps[c];
    }
  }

  /** Appending the implicit ";" twice is the same as appending it once. */
  lemma PaddedIdempotent(ts: seq<string>)
    ensures Padded(Padded(ts)) == Padded(ts)
    ensures SegmentResult(Padded(ts)) == SegmentResult(ts)
  {
    if ts != [] {
      assert Padded(ts)[0] == ts[0];
    }
  }

  /** A buffer holding ts followed by NULL has live prefix ts. */
  lemma {:induction false} LiveExact(b: seq<Option<string>>, ts: seq<string>)
    requires |ts| < |b| && b[|ts|] == None
    requires forall j :: 0 <= j < |ts| ==> b[j] == Some(ts[j])
    ensures Live(b) == ts
  {
    if ts != [] {
      LiveExact(b[1..], ts[1..]);
    }
  }

  /** The buffer after the ";" has been appended in place holds the padded line. */
  lemma AppendedLine(buf: seq<Option<string>>)
    requires None in buf
    requires Appended(buf) != buf ==> NullIndex(buf) + 1 < |buf| && buf[NullIndex(buf) + 1] == None
    ensures None in Appended(buf)
    ensures Appended(buf) != buf ==> Live(Appended(buf)) == Line(buf)
  {
    var ts := Live(buf);
    LiveIsNullIndex(buf);
    if ts != [] && !IsSeparator(ts[0]) && !IsSeparator(ts[|ts| - 1]) {
      var b := buf[|ts| := Some(SeqSep)];
      assert Appended(buf) == b && Line(buf) == ts + [SeqSep];
      assert b[|ts|] != buf[|ts|];
      assert b[|ts| + 1] == None;
      LiveAfterSeparator(buf, ts);
    } else {
      assert Appended(buf) == buf;
    }
  }

  /** Writing ";" over the NULL that ends ts, with a second NULL after it, extends the live tokens by ";". */
  lemma LiveAfterSeparator(buf: seq<Option<string>>, ts: seq<string>)
    requires |ts| + 1 < |buf| && buf[|ts|] == None && buf[|ts| + 1] == None
    requires forall j :: 0 <= j < |ts| ==> buf[j] == Some(ts[j])
    ensures Live(buf[|ts| := Some(SeqSep)]) == ts + [SeqSep]
  {
    var b := buf[|ts| := Some(SeqSep)];
    var line := ts + [SeqSep];
    assert forall j :: 0 <= j < |line| ==> b[j] == Some(line[j]);
    LiveExact(b, line);
  }

  /** Running separateCommands a second time over the buffer it left behind gives the same
      result and leaves the buffer as it is (when the slot after the appended ";" is NULL). */
  lemma SeparateTwice(buf: seq<Option<string>>)
    requires None in buf
    requires Appended(buf) != buf ==> NullIndex(buf) + 1 < |buf| && buf[NullIndex(buf) + 1] == None
    ensures None in Appended(buf)
    ensures SegmentResult(Live(Appended(buf))) == SegmentResult(Live(buf))
    ensures Appended(Appended(buf)) == Appended(buf)
  {
    AppendedLine(buf);
    var ts := Live(buf);
    PaddedIdempotent(ts);
    var b := Appended(buf);
    if b != buf {
      var l := Live(b);
      assert l == Padded(ts);
      assert IsSeparator(l[|l| - 1]);
    }
  }

  /** A line without separators is one command, closed by the implicit ";". */
  lemma NoSeparatorsOneRecord(ts: seq<string>)
    requires ts != [] && forall j :: 0 <= j < |ts| ==> !IsSeparator(ts[j])
    ensures SegmentResult(ts) == 1
    ensures SepIndices(Padded(ts)) == [|ts|]
    ensures forall cp :: Fill(cp, Padded(ts), 0) == cp.(first := 0, last := |ts| - 1, sep := Some(SeqSep))
  {
    var p := Padded(ts);
    assert p == ts + [SeqSep];
    assert p[..|p| - 1] == ts;
    SepIndicesNone(ts);
    assert !HasAdjacent(p);
  }

  /** A list without separator tokens has no separator indices. */
  lemma {:induction false} SepIndicesNone(s: seq<string>)
    requires forall j :: 0 <= j < |s| ==> !IsSeparator(s[j])
    ensures SepIndices(s) == []
  {
    if s != [] {
      SepIndicesNone(s[..|s| - 1]);
    }
  }
}
