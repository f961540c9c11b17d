# A model of the command-line parser and executor bookkeeping of a small Unix shell

The shell reads a line and splits it into tokens at spaces, commas and tabs. It cuts the
token list into commands at the separators `|`, `&` and `;`. For each command it records the
file named after `<` or `>`, and it builds the argument vector handed to `execvp`.

The executor then reads those records to decide:

- whether a command starts a pipeline, and how the pipe descriptors are wired;
- whether a redirection has exactly one file argument;
- whether `prompt` has exactly one argument;
- which argument holds a wildcard;
- what argument vector each child receives.

The project has five modules.

- `Opt` (`option.dfy`) holds the `Option` type. It also defines `Live`, the strings of a NULL-terminated `char *[]`.
- `Token` (`token.dfy`) models `token.c`. The strtok loop is proved against the recursive specification `Tokens`.
- `Commands` (`command.dfy`) models `command.c` and `command.h`:
  - the token buffer is an `array<Option<string>>`, where `None` is NULL;
  - the records are an `array<Command>` of a `Command` datatype;
  - `separateCommands` is proved against the specification function `SegmentResult`, together with `Fill` and `Finish`.
- `Shell` (`shell.dfy`) models the parts of `myshell.c` that compute rather than make system calls:
  - the wildcard scans;
  - the four `getArgv*` builders;
  - the pipe count and descriptor plan of `processPipe`;
  - the arity decisions of `processStdin`, `processStdout` and `processPrompt`;
  - `builtInCommand`, `isFileName` and `parseCommand`.
- `Samples` (`examples.dfy`) works through concrete lines.

The code and its header comments disagree in a few places. The model follows the code:

- `command.h:10-12` documents a return value of -1 when the command array is too small. `separateCommands` never returns -1 and never checks the count against `MAX_NUM_COMMANDS`. The model requires the array to be large enough.
- `command.h:27-28` says `command[nCommands]` is set to NULL. The code does not do this, and the model leaves that record unchanged.
- The comment above `tokeniseWhiteSpace` names only spaces and tabs as delimiters. The strtok delimiter set also contains a comma, and the model includes it.
- `command.h:39-40` describes `last` as the index of the first token. The code uses it as the index of the command's last token, before its separator.

## Model

| member | source | states |
|---|---|---|
| `Opt.Live` | command.c:79-83 | The live tokens are the strings before the first NULL. When that NULL lies inside the buffer, it sits right after them. |
| `Token.InitialiseToken` | token.c:12-16 | All `MAX_NUM_TOKENS` slots become NULL. Slots beyond that are untouched. |
| `Token.TokeniseWhiteSpace` | token.c:19-33 | The loop stores exactly `Tokens(input)` in slots `0..n-1`. It returns their count, or -1 when the count exceeds `MAX_NUM_TOKENS`. Every other slot is unchanged. |
| `Token.TokensWellFormed` | token.c:20-25 | Every token is non-empty and contains no delimiter, so a run of delimiters never yields an empty token. |
| `Token.TokensConcatenate` | token.c:20-25 | The tokens, concatenated in order, are exactly the non-delimiter characters of the input. No character is lost, duplicated or reordered. |
| `Token.NoTokensIffOnlyDelimiters` | token.c:20-22 | A line yields no token if and only if it consists only of delimiters. |
| `Commands.IsSeparator` | command.c:14-26 | True exactly for `\|`, `&` and `;`. |
| `Commands.Padded` | command.c:95-99 | Appending the implicit `;` extends the list by at most one token. Afterwards a non-empty list ends in a separator. |
| `Commands.SepIndicesIncreasing` | command.c:105-116 | The separator positions, and therefore the records, are listed in increasing token order. |
| `Commands.SepIndicesComplete` | command.c:105-116 | Every separator token of the line closes a record. |
| `Commands.FirstAdjacent` | command.c:105-111 | The index where the scan meets two adjacent separators: below the length exactly when such a pair exists, and then no pair ends earlier. |
| `Commands.SegmentResult` | command.c:74-121 | Each outcome holds if and only if its condition holds. 0 means an empty line; -3 a leading separator; -2 two adjacent separators; -4 a final `\|`. Otherwise the result is the number of separators of the padded line. |
| `Commands.FillCommandStructure` | command.c:29-33 | The record spans `first..sepIndex-1` and keeps its separator. Its argv and redirection files are unchanged. |
| `Commands.LastOp` | command.c:36-45 | The result is -1, or an index inside the span that holds the operator. |
| `Commands.LastOpIsLast` | command.c:36-45 | No slot of the span after the index found holds the operator, and on -1 no slot of the span holds it. |
| `Commands.RedirectTargetIsLast` | command.c:36-45 | Without the operator, the target keeps its previous value. Otherwise it is the token after the operator's last occurrence. |
| `Commands.StripDropsOperators` | command.c:61-69 | No `<` or `>` survives in the argument vector. |
| `Commands.StripWithoutOperators` | command.c:61-69 | A span without redirection operators is copied whole. |
| `Commands.StripIsSubsequence` | command.c:61-69 | The kept arguments are a subsequence of the command's tokens, in their original order. |
| `Commands.InitialiseCommand` | command.c:136-145 | All `MAX_NUM_COMMANDS` records get zero indices and NULL pointers. |
| `Commands.SearchRedirection` | command.c:36-45 | After the scan of `first..last+1`, the stdin and stdout files are the `RedirectTarget` of `<` and `>`: the last occurrence wins. |
| `Commands.BuildCommandArgumentArray` | command.c:48-71 | argv gets `last-first+2` slots. They hold the span's tokens without each operator and the token after it, then NULL. |
| `Commands.CountTokens` | command.c:79-83 | The count is the number of live tokens: the slot at the count is NULL and every slot below it holds a token. |
| `Commands.AppendSeparator` | command.c:95-99 | The buffer becomes `Appended` of the old one, and the count becomes the length of the padded line, whose tokens the buffer now holds. |
| `Commands.ScanSeparators` | command.c:101-121 | The separator loop returns -2 when the line has two adjacent separators, -4 when it ends in `\|`, and the record count otherwise. It fills one record per separator met before the first adjacent pair (`ScannedRecords`) and leaves the rest unchanged. |
| `Commands.CompleteCommands` | command.c:123-130 | Each of the first n records gets its redirection files and argument vector. The other records are unchanged. |
| `Commands.SeparateCommands` | command.c:74-133 | The result equals `SegmentResult` of the live tokens, and the buffer gains the implicit `;`. On 0 or -3 no record changes. On -2 and -4 the records the scan met before stopping (`ScannedRecords`) are filled, and no more. On success records `0..r-1` are filled and completed, and the rest are unchanged. |
| `Commands.SegmentedRecords` | command.c:105-121 | On success every record is a non-empty run of non-separator tokens closed by its own separator. The last record ends at the final token, and that token is not `\|`. |
| `Commands.PaddedIdempotent` | command.c:95-99 | Padding twice equals padding once, and padding does not change the outcome of separation. |
| `Commands.AppendedLine` | command.c:95-99 | The buffer after the in-place append holds exactly the padded line, followed by NULL. |
| `Commands.SeparateTwice` | command.c:74-133 | Separating the buffer a second time gives the same result, and the buffer is not changed again. |
| `Commands.NoSeparatorsOneRecord` | command.c:95-116 | A line without separators is one command spanning all its tokens, closed by the implicit `;`. |
| `Shell.LastWildcard` | myshell.c:562-572 | The result is -1, or the last argument below the bound that contains `*` or `?`. No later argument contains one. |
| `Shell.ScanWildcards` | myshell.c:564-570 | The loop over the argument slots returns `LastWildcard`. |
| `Shell.IsWildCard` | myshell.c:562-572 | The wildcard slot among `argv[0..last-first]`. |
| `Shell.IsWildCardForStdinStdout` | myshell.c:575-585 | The wildcard slot among the words before the trailing `< file` or `> file`. |
| `Shell.ExecArgv` | myshell.c:616-621 | The vector has `last-first+2` slots: `argv[0..last-first]`, then NULL. |
| `Shell.RedirectArgv` | myshell.c:608-613 | The vector has `last-first` slots: `argv[0..last-first-2]`, then NULL. |
| `Shell.GetArgvForExecuteCommand` | myshell.c:616-621 | The caller's array starts with `ExecArgv` of the record, and its other slots are untouched. |
| `Shell.GetArgvForStdinStdout` | myshell.c:608-613 | The caller's array starts with `RedirectArgv` of the record, and its other slots are untouched. |
| `Shell.ExecArgvOfRecord` | myshell.c:616-621 | For a record built by `buildCommandArgumentArray` without redirections, execvp receives exactly the command's tokens, then NULL. |
| `Shell.RedirectArgvOfRecord` | myshell.c:608-613 | For a record `words < file` or `words > file`, execvp receives exactly the words, then NULL. |
| `Shell.WildcardArgvAsWritten` | myshell.c:624-649 | The array after the as-written copy: the arguments before the wildcard, the expansion, NULL at the top slot, and the caller's previous contents everywhere else. |
| `Shell.WildcardArgvIntended` | myshell.c:624-649 | The intended vector has the n+1 arguments with the wildcard argument replaced by its expansion, then NULL. |
| `Shell.WildcardIntendedExpands` | myshell.c:624-649 | Read as a C argv, the intended vector is `args[..w] + expansion + args[w+1..]`. |
| `Shell.FillWildcardArgv` | myshell.c:639-648 | The copy loops produce exactly `WildcardArgvAsWritten` of the caller's array. |
| `Shell.FillWildcardArgvFixed` | myshell.c:639-648 | The corrected copy loops produce exactly `WildcardArgvIntended`, and leave the slots beyond it untouched. |
| `Shell.GetArgvForWildCard` | myshell.c:624-649 | As written: the array equals `WildcardArgvAsWritten` for the record's last wildcard slot. |
| `Shell.GetArgvForWildCardStdinStdout` | myshell.c:652-678 | As written, over the words before the redirection: the array equals `WildcardArgvAsWritten`. |
| `Shell.GetArgvForWildCardFixed` | myshell.c:624-649 | Corrected: the array starts with `WildcardArgvIntended` for the record's arguments, and the slots after it are untouched. |
| `Shell.GetArgvForWildCardStdinStdoutFixed` | myshell.c:652-678 | Corrected: the array starts with `WildcardArgvIntended` for the words before the redirection, and the slots after it are untouched. |
| `Shell.WildcardDropsLaterArguments` | myshell.c:639-648 | Where the intended vector has the argument after the wildcard, the as-written one has the caller's stale slot. |
| `Shell.WildcardCounterexample` | myshell.c:639-648 | For `cp *.c dest` with `*.c` matching `a.c b.c`, as written execvp gets `cp a.c b.c`. As intended it gets `cp a.c b.c dest`. |
| `Shell.RunLength` | myshell.c:165-171 | The pipe count: every record in the run has separator `\|`, and the record ending the run has another separator. |
| `Shell.UniformPlan` | myshell.c:174-236 | The plan has 2n descriptors and n+1 children. Child k reads pipe k-1 and writes pipe k, and the first and last child keep stdin and stdout respectively. Only the first child checks for a wildcard. The parent closes every descriptor and waits n+1 times. |
| `Shell.ProcessPipe` | myshell.c:160-241 | A record that is `exit` or not followed by `\|` yields 0 and no plan. Otherwise the result is the pipe count (at least 1) and the uniform plan. |
| `Shell.SegmentedRunsEnd` | myshell.c:167-170 | Over records from a successful separation, the pipe-counting loop stops inside the line, because the last record is never closed by `\|`. |
| `Shell.RedirectionIndex` | myshell.c:250-254 | The loop finds the last occurrence of the operator in `first..last`. |
| `Shell.RedirectArity` | myshell.c:248-293 | For a record that is not `exit` and has a redirection target, each verdict holds if and only if its condition does. Exact: the last operator is at `last-1`. Missing: it is at `last`. TooMany: it is earlier. |
| `Shell.ProcessStdin` | myshell.c:244-295 | The verdict is `RedirectArity` for `<` and the recorded stdin file. |
| `Shell.ProcessStdout` | myshell.c:298-349 | The verdict is `RedirectArity` for `>` and the recorded stdout file. |
| `Shell.ArityMatchesTarget` | myshell.c:256-293 | Exact means the recorded file is the command's last token. Missing means the recorded "file" is the closing separator. TooMany means it is a word before the last. A record that is not `exit` always gets a verdict. |
| `Shell.ProcessPrompt` | myshell.c:68-86 | Each verdict holds if and only if its condition does. Only `prompt` gets a verdict. Exactly one argument copies it into the buffer as a NUL-terminated string, which becomes the prompt. Otherwise the prompt and the buffer are unchanged. |
| `Shell.BuiltInCommand` | myshell.c:510-518 | Returns 1 exactly when argv[0] is `prompt`, `pwd` or `cd`, and 0 otherwise. |
| `Shell.IsFileName` | myshell.c:535-548 | Returns 1 exactly when the input equals an entry before the NULL sentinel, and 0 otherwise. |
| `Shell.TokenArrayAppended` | myshell.c:58-65 | The array the tokeniser leaves holds the line, and separation reads it back. The append turns it into the array of the padded line. |
| `Shell.TokeniseLine` | myshell.c:59-61 | After `initialiseToken` and `tokeniseWhiteSpace`, the array is `TokenArray` of the line's tokens and the count is their number. |
| `Shell.SegmentTokens` | myshell.c:62 | Separating the token array of a line gives `SegmentResult` of its tokens and leaves the array of the padded line. On 0 or -3 no record changes. On -2 and -4 the records met before the scan stopped are filled. On success each record below the result is filled and completed. |
| `Shell.ParseCommand` | myshell.c:58-65 | After one line, the result is `SegmentResult` of the line's tokens, and the token array holds the padded line. On 0 or -3 every record is empty. On -2 and -4 the records met before the scan stopped are filled, and the others are empty. On success records `0..n-1` are the filled and completed records, and the others are empty. |
| `Samples.PipeOfTwoLine` | command.c:95-99 | `ls \| wc` is padded to `ls \| wc ;`, whose separators are at 1 and 3. |
| `Samples.PipeOfTwo` | command.c:74-133 | `ls \| wc` gives two commands, closed at indices 1 and 3. |
| `Samples.PipeOfTwoRecords` | command.c:105-116 | The two records of `ls \| wc` span 0..0 with `\|` and 2..2 with the implicit `;`. |
| `Samples.RejectedLines` | command.c:85-121 | A leading `\|` gives -3, `ls \| \| wc` gives -2, and `ls \|` gives -4. |
| `Samples.LastRedirectionWins` | command.c:36-45 | With `cat < a.txt < b.txt`, stdin comes from `b.txt`. |
| `Samples.LastWildcardSlot` | myshell.c:562-572 | With two wildcard arguments, the later slot is reported. |
| `Samples.ThreeStagePipeline` | myshell.c:174-236 | `a \| b \| c` uses 4 descriptors, 3 children and 3 waits, with the middle child between both pipes. |

## Left out

- System calls are not modelled: `pipe`, `fork`, `dup2`, `close`, `open`, `execvp`, `wait` and the `perror`/`exit` failure paths. `processPipe` is modelled by the plan of descriptors and children it sets up.
- `glob` and `numOfWildCardFiles`/`expandWildCard` are not modelled. The wildcard expansion is a parameter of the wildcard builders.
- `processPipeAndStdin`, `processPipeAndStdout` and `executeCommand` are not modelled. They combine the modelled pieces with system calls.
- `processCD`, `processPWD`, `getFileNameToken` and `isDirectory` are not modelled. They depend on the file system and the working directory.
- `getInput`, signal handling (`blockSignal`, `catchSigChld`, `claimChildren`), `main`, and the printing functions (`printTokens`, `printCommandSequence`, `printStructCommand`) are I/O. The test driver `testcommand.c` is also not modelled.
- The messages printed by `processStdin`, `processStdout` and `processPrompt` are represented by the `Arity` verdict, not by text.
- strtok writes NUL characters into the input buffer. The model keeps the input as a value and stores each token as its own string.
- Token.TokeniseWhiteSpace: the caller's buffer must hold every token. The C loop writes past `MAX_NUM_TOKENS` before it checks the count, which is undefined behaviour.
- Commands.BuildCommandArgumentArray: a `realloc` failure (an error message and exit) is not modelled. Slots after the NULL terminator, indeterminate in C, are NULL in the model.
- Commands.SeparateCommands: the record array must have room for every separator, since the C code writes records without a bound check.
- Commands.AppendedLine: one free slot must follow an appended `;`, or the buffer is not NULL-terminated and a second scan would read past it.
- Commands.SeparateTwice: as for `Commands.AppendedLine`, one free slot must follow the appended `;`.
- Shell.IsWildCard: argv slots up to the bound must be non-NULL. Otherwise `strchr` reads NULL, which happens when redirection tokens shrink argv.
- Shell.ProcessStdin: the operator must occur in the span, or `stdin_index` would be read uninitialised. Only the arity verdict is stated, not the child's file descriptors.
- Shell.ProcessStdout: as for `processStdin`, with `stdout_index`.
- Shell.ProcessPipe: only the plan is stated. The pipe count relies on a `\|` run ending inside the record array, which `Shell.SegmentedRunsEnd` proves for records from a successful separation.
- Shell.GetArgvForWildCard: at least one wildcard argument is required, since the caller checks for one first. The expansion holds at most `MAX_NUM_TOKENS` names.
- Shell.ProcessPrompt: the new prompt must fit the buffer and contain no NUL, as `strcpy` demands. `argv[1]` must be non-NULL: `prompt <` passes the `last == first+1` test and `strcpy` then reads NULL.
- Shell.ProcessPipe, Shell.ProcessStdin, Shell.ProcessStdout, Shell.ProcessPrompt and Shell.BuiltInCommand: `argv[0]` must be non-NULL. A command made only of a redirection, such as `< in`, has a NULL `argv[0]`, and the C code then passes NULL to `strcmp`, which is undefined behaviour.
- Token.TokeniseWhiteSpace: the input holds no NUL character, as in any C string. strtok would stop at the first NUL, which the model does not represent.
- Shell.ParseCommand: the line must have fewer than `MAX_NUM_TOKENS` tokens, and at most `MAX_NUM_COMMANDS` commands. Like `Token.TokeniseWhiteSpace`, it takes a line without NUL characters.

## Findings

| source | as written | input that shows it | evidently intended | confidence | as-written member | corrected member |
|---|---|---|---|---|---|---|
| myshell.c:639-648 | Only the arguments before the wildcard and the expansion are copied. The arguments after the wildcard are dropped, and the slot before the NULL keeps whatever the caller's array held | `cp *.c dest` with `*.c` matching `a.c b.c`: execvp gets `cp a.c b.c` | The arguments after the wildcard are copied after the expansion: `cp a.c b.c dest` | not executed | `Shell.GetArgvForWildCard` | `Shell.GetArgvForWildCardFixed` |
| myshell.c:667-677 | Same defect in the redirection variant | `cp *.c dest > log` with `*.c` matching `a.c b.c`: execvp gets `cp a.c b.c` | `cp a.c b.c dest` | not executed | `Shell.GetArgvForWildCardStdinStdout` | `Shell.GetArgvForWildCardStdinStdoutFixed` |

The counterexample is stated in `Shell.WildcardCounterexample`, and `Shell.WildcardDropsLaterArguments` proves it for all inputs.
