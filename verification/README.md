# Monk OS: verified models

Dafny models of the algorithms in Monk OS that carry the most logic, with machine-checked
proofs of what they are for. `dafny verify dfyconfig.toml` checks everything.

The parts, each in the form its source has: loops are methods with loops, objects that
change are classes, and what they compute is given by functions that the laws are about.

* **Line diff** (`Diff`, `Hunks`): the LCS table and its walk, the hunk state machine, and a
  patch program that the hunks are proved correct for.
* **Globs** (`Regex`, `Glob`, `GlobMeaning`, `GlobSegments`, `GlobBase`, `GlobPatterns`,
  `GlobHidden`): regular expressions with semantics, printer and parser; globs with their own
  semantics; the translation between them, at the level of the text it produces; what each
  part of a pattern takes wherever it stands; when `match` works segment by segment, and when
  it lets hidden names through.
* **Paths** (`Paths`, `Realpath`): normalisation as a canonical form of what a path means.
* **Kernel handles and shell pipelines** (`Kernel`, `Pipeline`): reference counts, redirects
  and process creation, and on top of them the shell's pipeline protocol with children that
  may exit between any two steps.
* **Readers and automata** (`Args`, `Sed`, `SedEffects`, `SedScript`, `Gateway`).
* **Encodings, tokens, sessions** (`Base64`, `Jwt`, `Auth`).
* **Sorting, durations, streaming filters** (`Sort`, `Duration`, `DurationTexts`, `Streams`).

`Text`, `Numbers`, `Bytes`, `Options` and `Sequences` hold what these share.

Where the code and its documentation differ, the model follows the code:

* a diff hunk ends one line after its last change, whatever the context, and a header with a
  zero count starts at index + 1;
* `[!a]` in a glob accepts a slash; without `dot`, `*` and a hidden name, `**` glued to a name,
  `**/` and a final `**` let hidden names through; inside brackets an escaped hyphen spans a
  range all the same, and `[!` turns into `[^`;
* `parseArgs` drops every `--`, also among the positionals and after stopAtFirstPositional;
* an `a` command of sed asks about its range twice a line, so that a numeric one misses its
  last line;
* a range in sed to a line number, opened on that line or a later one, runs to the end of the
  file;
* the gateway client, after a frame with another id, reads on before it looks at its buffer;
* a restore that takes the last reference of a handle leaves the handle open without a count,
  and a spawn whose worker does not start leaves its descriptors behind;
* `cat` ends the last line of a file that does not, and `sort -u` compares whole lines.

## Model

| member | source | states |
|---|---|---|
| `Diff.FillTable` | rom/bin/diff.ts:268-284 | the table filled in place, row by row, holds at every entry the recursive LCS length of the two prefixes |
| `Diff.LcsIsLongest` | rom/bin/diff.ts:268-284 | that length is attained by a common subsequence of the two files and exceeded by none, so the table is optimal and not merely self-consistent |
| `Diff.ComputeDiff` | rom/bin/diff.ts:264-324 | the walk's edits spell the old file (keeps and deletes) and the new file (keeps and inserts) with exact line numbers, no script of the two files has fewer changes, and no insert stands directly before a delete |
| `Diff.ScriptKeepsLcs` | rom/bin/diff.ts:286-323 | the walk keeps exactly as many lines as its table entry says |
| `Diff.ScriptIsShortest` | rom/bin/diff.ts:264-324 | every script between two files, numbered or not, has at least as many changes as the walk's |
| `Hunks.BuildHunks` | rom/bin/diff.ts:329-464 | the look-ahead state machine, for every context, yields the hunks of the covered positions; applied to the old file they give the new file, and reversed they give the old file back |
| `Hunks.NoPrecedingContext` | rom/bin/diff.ts:374-452 | a change met with no hunk open stands first in the script or there is no context to show, so the preceding-context loops never add a line |
| `Hunks.LookAheadOpens` | rom/bin/diff.ts:355-372 | at a kept line outside every hunk the look-ahead says exactly whether that line belongs to a hunk |
| `Hunks.CutsAreExact` | rom/bin/diff.ts:343-464 | the hunks are disjoint ordered slices, no two touching, that hold exactly the positions from `context` lines before a change to one line after it |
| `Hunks.PatchApplies` | rom/bin/diff.ts:329-464 | the hunks, read with the code's own header convention (a zero count still starts at index + 1), patch the old file into the new one for every script and every context |
| `Hunks.ReversePatchApplies` | rom/bin/diff.ts:329-464 | the reversed hunks patch the new file back into the old one |
| `Hunks.SharedHunk` | rom/bin/diff.ts:355-418 | two successive changes share a hunk exactly when at most context + 1 kept lines stand between them |
| `Hunks.HunkEdges` | rom/bin/diff.ts:343-464 | leading context is min(context, kept lines before) for the first hunk and exactly `context` for later ones; trailing context is one line or the end of the script |
| `Hunks.RunIsMaximal` | rom/bin/diff.ts:343-464 | neither neighbour of a hunk's slice is covered: no hunk could be longer or be joined to another |
| `Glob.ToRegex` | rom/lib/glob.ts:56-196 | the text built in one pass over the pattern parses, in a grammar of regular expressions, to the expression compiled from the pattern's tokens, and fails to parse exactly when the pattern has an open bracket or a falling range |
| `Glob.Wildcard` | rom/lib/glob.ts:60-150 | the branches for `*`, `**` and `?` add the text and move to the position the specification of one turn gives |
| `Regex.AnchoredRoundTrip` | rom/lib/glob.ts:56-203 | printed expressions parse back to themselves whatever characters they hold: the escaping is right, and only a falling range is a syntax error |
| `Glob.TextParses` | rom/lib/glob.ts:56-196 | for every pattern and both values of `dot`, the emitted text is the compiled expression's |
| `GlobMeaning.CompileIsCorrect` | rom/lib/glob.ts:56-196 | translation preserves meaning: the compiled expression accepts exactly the paths the glob tokens match |
| `GlobMeaning.MatchIsGlobMatch` | rom/lib/glob.ts:24-30 | `match` agrees with the glob semantics on every pattern and every path, and throws exactly on the patterns that are not globs |
| `GlobSegments.SegmentsAgree` | rom/lib/glob.ts:56-196 | with no bracket that accepts a slash, a matcher that works segment by segment (`**/` takes whole segments, `*` and `?` stay inside one) agrees on every path |
| `GlobSegments.SegmentwiseIffNoSlashBracket` | rom/lib/glob.ts:56-196 | the two matchers agree on every path exactly when no bracket accepts a slash, or some bracket accepts nothing and no path matches at all; globstars stand where the reader puts them |
| `GlobSegments.MatchIsSegmentwise` | rom/lib/glob.ts:24-30 | `match` itself, on every pattern it can read without a slash bracket, is the matcher that works segment by segment on the split path, and throws exactly when a range falls |
| `GlobSegments.MatchIsSegmentwiseIff` | rom/lib/glob.ts:24-30 | the same condition as an equivalence about `match`, for every pattern it accepts |
| `GlobSegments.ReadIsWellPlaced` | rom/lib/glob.ts:60-105 | the tokens of every pattern have their globstars where the branch conditions allow them |
| `GlobBase.IsGlob` | rom/lib/glob.ts:208-231 | true exactly when an unescaped glob character occurs; otherwise the pattern matches one path only, itself less its escapes |
| `GlobBase.PlainPatternMatchesItself` | rom/lib/glob.ts:208-231 | a pattern that is no glob matches itself, less its escapes, and nothing else |
| `GlobBase.Base` | rom/lib/glob.ts:236-249 | the components before the first glob one; when there are some and the pattern has no backslash, every matching path starts with them and a slash |
| `GlobBase.MatchesStartWithBase` | rom/lib/glob.ts:236-249 | the same law as a statement about all paths a pattern matches |
| `GlobHidden.HidesIff` | rom/lib/glob.ts:73-190 | without `dot`, tokens match some text with a leading dot exactly when, past wildcards that may take nothing, a token comes that can take one (a dot, a bracket that accepts it, `?` or `*` inside a component, `**` glued to a name, `**/`), and no bracket is empty |
| `GlobHidden.HiddenPathIff` | rom/lib/glob.ts:24-30 | the same condition for `match` and every pattern it accepts |
| `GlobHidden.HiddenSegmentIff` | rom/lib/glob.ts:24-190 | without `dot` and slash brackets, some path with a hidden segment anywhere matches exactly when the pattern has a `**` component or a component that may begin with a dot, and no bracket is empty |
| `GlobPatterns.StarBetween` | rom/lib/glob.ts:144-164 | `*` between any plain texts takes exactly what has no slash; without `dot`, at the start of the pattern or behind a slash and nowhere else, nothing that begins with a dot |
| `GlobPatterns.DoubleStarBetween` | rom/lib/glob.ts:135-139 | `**` that is no component of its own takes what has no slash, hidden or not, whatever `dot` says |
| `GlobPatterns.GlobstarBetween` | rom/lib/glob.ts:122-128 | `**/` at the start of a component, anywhere in the pattern, takes nothing or whole segments: with `dot` any on one line, without it those that are not empty, not a lone dot and do not begin with two |
| `GlobPatterns.FinalGlobstar` | rom/lib/glob.ts:129-133 | a final `**` at the start of a component, without `dot`, looks at the first character only: later hidden segments pass |
| `GlobPatterns.QuestionBetween` | rom/lib/glob.ts:166-184 | `?` between any plain texts takes one character that is no slash; without `dot`, at the start of a component, no dot |
| `GlobPatterns.EscapeBetween` | rom/lib/glob.ts:67-72 | an escaped character stands for itself, whatever it is |
| `GlobPatterns.SetBetween` | rom/lib/glob.ts:74-113 | a bracket takes one of its characters, one marked `!` or `^` any other, a slash not excepted |
| `GlobPatterns.RangeBetween` | rom/lib/glob.ts:74-113 | a range takes one character between its ends, and one that runs downwards makes `match` throw |
| `GlobPatterns.EdgeBetween` | rom/lib/glob.ts:74-113 | a hyphen or an opening bracket right behind the one that opens is a character like the others |
| `GlobPatterns.LastHyphenBetween` | rom/lib/glob.ts:74-113 | so is a hyphen right before the one that closes |
| `GlobPatterns.MarkInside` | rom/lib/glob.ts:74-113 | inside brackets an opening bracket turns an exclamation mark behind it into a caret, so that the set has a caret and no exclamation mark |
| `GlobPatterns.EscapeInside` | rom/lib/glob.ts:67-72 | inside brackets too an escaped character stands for itself, whatever it is |
| `GlobPatterns.EscapedHyphenSpans` | rom/lib/glob.ts:67-72 | between two members an escaped hyphen spans a range all the same: `[a\-z]` and `[a-z]` match the same paths |
| `GlobPatterns.UnclosedIsError` | rom/lib/glob.ts:74-113 | a bracket that is not closed makes `match` throw |
| `GlobPatterns.ComponentsCutOff` | rom/lib/glob.ts:24-30 | plain components in front of any pattern are cut off: a path matches exactly when it begins with them and the rest matches the rest, every wildcard leading where it did |
| `GlobPatterns.ComponentCutsOff` | rom/lib/glob.ts:24-30 | match(d/x, d/q) is match(x, q), for every plain d and every pattern q |
| `GlobHidden.DotFileMatches` | rom/lib/glob.ts:144-164 | an instance: `*.ts` without `dot` accepts `.ts` |
| `GlobBase.NegatedBracketCrossesSegments` | rom/lib/glob.ts:152-190 | `[!a]` accepts a slash, the input on which segment-by-segment matching fails |
| `Paths.NormalizeLoop` | rom/lib/path.ts:45-75 | the push-and-pop loop yields a normal form: no `.`, no empty part, `..` only in front and only when relative; and it leads from every directory to the same place as the path |
| `Paths.NormalizeIsCanonical` | rom/lib/path.ts:45-75 | two paths normalise alike exactly when both or neither are absolute and they lead from every directory to the same place |
| `Paths.NormalizeIsIdempotent` | rom/lib/path.ts:45-75 | normalising twice is normalising once |
| `Paths.ResolveMeaning` | rom/lib/path.ts:33-43 | resolving composes meanings, an empty base counting as the root |
| `Paths.ResolveIsAssociative` | rom/lib/path.ts:33-79 | early and late normalisation agree: resolve(resolve(a, b), c) == resolve(a, join(b, c)) for every a and b, absolute or not, and every relative c |
| `Paths.DirnameAndBasename` | rom/lib/path.ts:3-31 | join(dirname(p), basename(p)) is normalize(p) for every path but the empty one, exactly |
| `Paths.DirnameIs` | rom/lib/path.ts:3-31 | dirname and basename are what stands before and behind the slash in front of the last name, one final slash not counted; the root and `.` where nothing stands before |
| `Realpath.MakeRelative` | rom/bin/realpath.ts:113-139 | for normalised absolute paths the result resolves from the base to the path, and no relative path that does has fewer components |
| `Realpath.RelativeLeadsBack` | rom/bin/realpath.ts:113-139 | resolvePath(base, makeRelative(path, base)) == path |
| `Realpath.RelativeIsShortest` | rom/bin/realpath.ts:113-139 | every relative path from the base to the path has at least as many components, `.` counting as none |
| `Kernel.OpenIffHeld` | src/kernel/kernel/unref-handle.ts:89-112 | with exact counts and no redirect pending, a handle is open exactly when some process's descriptor refers to it |
| `Kernel.SameFdsSameHandles` | src/kernel/kernel/unref-handle.ts:89-112 | the descriptors alone determine which handles are open and every count |
| `Kernel.CloseKeeps` | src/kernel/kernel/close-handle.ts:89-129 | closing keeps every count equal to the number of references, and removes that descriptor only |
| `Kernel.PipeKeeps` | src/kernel/kernel/create-pipe.ts:121-141 | making a pipe keeps all counts exact |
| `Kernel.RedirectKeeps` | src/kernel/kernel/redirect-handle.ts:115-147 | redirecting keeps all counts exact, with the replaced handle held aside |
| `Kernel.RestoreKeepsIff` | src/kernel/kernel/restore-handle.ts:103-145 | restoring keeps all counts exact if and only if the handle given up has another reference: the last reference leaves an open handle without a count |
| `Kernel.SourceIsLostIff` | src/kernel/kernel/restore-handle.ts:103-145 | redirect, close the source, restore: the source's handle is lost, open with no count and no descriptor, exactly when the source was its only descriptor |
| `Kernel.PipeEndIsLost` | src/kernel/kernel/restore-handle.ts:103-145 | that happens from every state in which a process has a descriptor to redirect and room for a pipe |
| `Kernel.PrepareKeeps` | src/kernel/kernel/setup-stdio.ts:127-211 | giving a new process its standard descriptors keeps all counts exact |
| `Kernel.ExitKeeps` | src/kernel/kernel/force-exit.ts:141-266 | an exit gives up all descriptors of the process, no other, and keeps all counts exact |
| `Kernel.Machine.UnrefHandle` | src/kernel/kernel/unref-handle.ts:89-112 | drops one reference and closes with the last; `CloseKeeps`, `OpenIffHeld` and `SameFdsSameHandles` are proved about the operation it is specified by |
| `Kernel.Machine.CreatePipe` | src/kernel/kernel/create-pipe.ts:121-141 | EMFILE exactly when two more descriptors would exceed 256; otherwise two new consecutive descriptors |
| `Kernel.Machine.CloseHandle` | src/kernel/kernel/close-handle.ts:89-129 | an error exactly for a descriptor that is not open, which changes nothing |
| `Kernel.Machine.RedirectHandle` | src/kernel/kernel/redirect-handle.ts:115-147 | fails without effect when either descriptor is closed, else points the target at the source's handle and returns the old one unreleased |
| `Kernel.Machine.RestoreHandle` | src/kernel/kernel/restore-handle.ts:103-145 | puts the saved handle back and drops one reference of the other, without closing it |
| `Kernel.Machine.Spawn` | src/kernel/kernel/spawn.ts:121-183 | the child gets the parent's three standard descriptors or the given ones; when the worker does not start, what was given is not taken back |
| `Pipeline.RestoreUndoesRedirect` | rom/bin/shell.ts:1017-1045 | restore after redirect gives back every table of the kernel |
| `Pipeline.TwoRedirectsUndone` | rom/bin/shell.ts:1017-1051 | both standard descriptors redirected and restored in the order they were made: all tables are as before, but for the pipe end that is then closed |
| `Pipeline.BuiltinIsNeutral` | rom/bin/shell.ts:1017-1059 | a builtin sees exactly its pipe ends as descriptors 0 and 1 and leaves the tables as they were, less the write end it was given, whether or not it throws |
| `Pipeline.StdoutIsRestoredIff` | rom/bin/shell.ts:1017-1059 | the shell's own stdout survives a builtin exactly unless both ends are redirected, stdout is open and stdin is not: then the second redirect throws and the first is never undone |
| `Pipeline.RunBuiltin` | rom/bin/shell.ts:1017-1059 | the statement sequence with its finally block has that effect |
| `Pipeline.CreatePipes` | rom/bin/shell.ts:1121-1131 | one pipe fewer than commands, exactly when they fit in the shell's descriptor limit; else the ones made so far |
| `Pipeline.StartCommands` | rom/bin/shell.ts:1133-1222 | after each command every slot of every process is as it should be; each command that runs has had the previous pipe's read end and its own pipe's write end, or the shell's originals, as descriptors 0 and 1; the run stops exactly at a builtin that throws |
| `Pipeline.CloseAll` | rom/bin/shell.ts:1224-1239 | all pipe descriptors of the shell are closed, nobody else's change |
| `Pipeline.WritersAlone` | rom/bin/shell.ts:1224-1239 | once the shell has closed its copies, every descriptor of a pipe's write end is the standard output of the command that writes there |
| `Pipeline.WriteEndOpenIff` | rom/bin/shell.ts:1224-1239 | so a write end is open exactly while its writer has it, which is when its reader is kept from the end of the stream |
| `Pipeline.WaitAll` | rom/bin/shell.ts:1241-1269 | every exit code is a builtin's own, 126 for a command that could not start or be waited for, or the status waited for; every child waited for has given up its descriptors |
| `Pipeline.LeftBehind` | rom/bin/shell.ts:1133-1297 | when everything was waited for, descriptors, handles and counts are those of the start, if and only if every process prepared got its worker |
| `Pipeline.ExecutePipeline` | rom/bin/shell.ts:1088-1297 | for every pipeline and every interleaving of child exits, thrown or not: counts stay exact, no process that was there before has a descriptor changed, the processes are those of the commands up to the first builtin that throws, each new process has only what its command was wired to, and one whose worker did not start still has it; it returns exactly when no builtin throws and the pipes fit (a single command must also be waited for), with the status waited for, the builtin's own code or 126 for the last command, each command has as its standard descriptors the shell's own at the two ends and between neighbours the two ends of one pipe, and nothing is left behind exactly when every worker started |
| `Args.ParseArgs` | rom/lib/args.ts:212-453 | the nested loops compute the recursive reading of the command line over the lookup maps and defaults |
| `Args.LongKeysAreExact` | rom/lib/args.ts:230-240 | a long name is found exactly when some specification has it, and leads to one that does |
| `Args.ShortKeysAreExact` | rom/lib/args.ts:226-236 | the same for short names |
| `Args.DefaultsAreExact` | rom/lib/args.ts:240-243 | before any argument is read exactly the flags with a default have a value, which is that default |
| `Args.MixedLineIsRead` | rom/lib/args.ts:246-453 | flags in any of six ways, positionals, unknown flags and flags that lack their value, mixed in any order, with or without a marker and more behind it, come back: flags as given, positionals and unknown flags in order, an error for each missing value |
| `Args.StrayStops` | rom/lib/args.ts:303-315 | with stopAtFirstPositional an unknown flag ends the reading, and it and everything behind it, markers too, are taken as they stand |
| `Args.PositionalStops` | rom/lib/args.ts:269-282 | a positional ends it as well, but the markers behind it are dropped |
| `Args.CommandLineIsRead` | rom/lib/args.ts:246-453 | flags written in any of six ways, then `--`, then positionals, come back as given and in order, less every positional that is `--` |
| `Args.RoundTripIff` | rom/lib/args.ts:262-268 | the positionals come back exactly when none of them is `--`: every `--` is swallowed, not only the first |
| `Args.OnlyPositionals` | rom/lib/args.ts:262-283 | after the end of flags everything is positional but further `--` arguments, which are dropped |
| `Args.StopsIff` | rom/lib/args.ts:272-283 | with stopAtFirstPositional, the rest is taken as it stands exactly when no `--` is in it, where the documentation promises always |
| `Args.ClusterIsApart` | rom/lib/args.ts:376-449 | before any other arguments, a cluster reads as its letters apart when no letter but the last takes a value |
| `Args.ClusterIff` | rom/lib/args.ts:376-449 | `-abc` reads as `-a -b -c` exactly when no letter but the last takes a value |
| `Args.NumberIsValue` | rom/lib/args.ts:357-372 | `-5` reads as `-n 5` where n is the letter of the flag the shorthand is for |
| `Args.DigitsAreValue` | rom/lib/args.ts:356-372 | with the numeric shorthand a dash and digits are the value of its flag |
| `Args.ValueIsIgnored` | rom/lib/args.ts:346-352 | a value attached with `=` to a flag that takes none is passed over |
| `Gateway.FrameIff` | perf/gateway/gateway.perf.ts:85-94 | a frame is read back, whatever follows, exactly when its payload is shorter than 2^32 bytes |
| `Gateway.FrameIsBigEndian` | perf/gateway/gateway.perf.ts:85-94 | a frame is the length of its payload in four bytes, highest first, and the payload |
| `Gateway.EncodedIsRead` | perf/gateway/gateway.perf.ts:85-94 | a list of framed payloads is read back in order, and then what follows |
| `Gateway.GatewayClient.ReadResponse` | perf/gateway/gateway.perf.ts:147-187 | the loop refines the recursive reception over the chunks still to come |
| `Gateway.GatewayClient.Call` | perf/gateway/gateway.perf.ts:117-141 | fails without effect when not connected; else sends one frame under a new id and collects what the recursive specification does, leaving its buffer and the unread chunks |
| `Gateway.CollectIsReplies` | perf/gateway/gateway.perf.ts:117-187 | however a byte stream is cut into chunks, the replies are its frames up to and including the first terminal one, and the bytes after them are what is left, as long as those frames carry the id |
| `Gateway.CallReturnsMessages` | perf/gateway/gateway.perf.ts:85-187 | messages encoded and cut anyhow come back in order up to the first `ok`, `error`, `done` or `redirect`, with the encoding of the others intact |
| `Gateway.ChunksMatterIff` | perf/gateway/gateway.perf.ts:147-187 | what a first receive yields depends on the chunking exactly when a frame with the id stands behind one with another: after a stray frame the code reads on before it looks at its buffer |
| `Gateway.CallChunksMatterIff` | perf/gateway/gateway.perf.ts:117-187 | what a whole call returns, from an empty buffer, depends on the chunking exactly when, before any terminal message of the call, a stray frame comes with a frame of the call's id behind it |
| `Gateway.RequestIdsDiffer` | perf/gateway/gateway.perf.ts:117-121 | ids of different calls differ |
| `Sed.RangeState.InRange` | rom/bin/sed.ts:313-346 | one question to the automaton of a range, whose opening line is not tested against the second address; `SelectedIffInInterval`, `PrintAndDeletePart` and `RangeIsPosixIff` say what its answers amount to |
| `Sed.ProcessLines` | rom/bin/sed.ts:436-553 | the loops compute the recursive run of the script over the lines, ranges carried from line to line; what that run writes is stated below, command by command |
| `SedEffects.SubstitutesLines` | rom/bin/sed.ts:463-476 | the output of one `s` is the lines, each chosen one replaced by what the engine makes of it |
| `SedEffects.Substitutes` | rom/bin/sed.ts:463-476 | with the p flag a changed line is printed once more, also when lines are not printed |
| `SedEffects.TransliteratesLines` | rom/bin/sed.ts:478-483 | the output of one `y` is the lines, each chosen one transliterated |
| `SedEffects.TransliteratedIs` | rom/bin/sed.ts:413-434 | a character becomes the one at its last place in the source set and stays when it has none; sets of different length change nothing |
| `SedEffects.Prints` | rom/bin/sed.ts:490-492 | `p` writes each chosen line once more |
| `SedEffects.NumbersLines` | rom/bin/sed.ts:503-505 | `=` writes its number before each chosen line |
| `SedEffects.Inserts` | rom/bin/sed.ts:510-515 | `i` writes its text before each chosen line |
| `SedEffects.Changes` | rom/bin/sed.ts:517-524 | `c` writes its text instead of each chosen line, also when lines are not printed |
| `SedEffects.Deletes` | rom/bin/sed.ts:485-488 | `d` leaves each chosen line out |
| `SedEffects.QuitsAtFirst` | rom/bin/sed.ts:494-501 | `q` at the first line chosen by any address or range ends the output with it |
| `SedEffects.AppendsText` | rom/bin/sed.ts:536-546 | `a` writes its text behind each line it is appended to, never an empty one; with one address or none those are the chosen lines |
| `SedEffects.AppendsInNumericRange` | rom/bin/sed.ts:452-547 | a range a,b is asked about twice for `a`, so that the text stands behind the lines a to b - 1 and not behind line b |
| `SedEffects.AddressChooses` | rom/bin/sed.ts:293-311 | one address chooses its line, the last one, those where the pattern is found, or every step-th from the first on |
| `SedEffects.FirstWrites` | rom/bin/sed.ts:457-535 | a first `p`, `=` or `i` writes in front of what the rest of the script makes of the line |
| `SedEffects.FirstEnds` | rom/bin/sed.ts:457-535 | after a first `d`, `c` or `q` that is selected no other command sees the line |
| `SedEffects.EditThenRest` | rom/bin/sed.ts:452-553 | a script that begins with `s` or `y` is the rest of the script run on what that command makes of the lines, whatever the addresses look at |
| `Sed.SelectedIffInInterval` | rom/bin/sed.ts:313-346 | the lines the automaton selects are exactly those in the intervals that open at a match of the first address and last to the next match of the second on a later line, or to the end |
| `Sed.PrintAndDeletePart` | rom/bin/sed.ts:436-553 | for every address or range, `-n 'A p'` and `'A d'` part the input: woven together as the address chooses, the two outputs are the lines again in order |
| `Sed.NumericRange` | rom/bin/sed.ts:293-346 | `a,b` selects the lines a to b, and all lines from a on when b is not after a |
| `Sed.RangeIsPosixIff` | rom/bin/sed.ts:313-346 | a range from any address to a line number selects what POSIX does on every line exactly when every line after a range opened late, on that line or a later one, matches the first address too |
| `Sed.NumericRangeIsPosixIff` | rom/bin/sed.ts:313-346 | of two line numbers, exactly when the second is after the first or no line follows the first |
| `Sed.PosixNumericRange` | rom/bin/sed.ts:313-346 | where POSIX has the lines from one number to the other, or the first only |
| `Sed.QuitsAfter` | rom/bin/sed.ts:496-503 | `nq` prints the first n lines, or all when there are fewer |
| `Sed.Transliterate` | rom/bin/sed.ts:413-434 | the map-based loop replaces by the last pair given for a character, and nothing unless both sets are non-empty and equally long |
| `SedScript.FindClosingDelimiter` | rom/bin/sed.ts:146-166 | the loop with its escape flag is the recursive scan |
| `SedScript.ScanFinds` | rom/bin/sed.ts:146-166 | the place found is the first delimiter preceded by an even number of backslashes, and a backslash never is one |
| `SedScript.ClosingIff` | rom/bin/sed.ts:146-166 | a text between delimiters is found again exactly when all delimiters in it are escaped and it does not end in an odd run of backslashes |
| `SedScript.AddressIsRead` | rom/bin/sed.ts:90-144 | written addresses (number, `$`, /pattern/, first~step) are read back, and what follows is left |
| `SedScript.CommandIsReadIff` | rom/bin/sed.ts:168-287 | a written command (two optional addresses and d, p, q, =, a, i, c, s or y) parses to the command meant exactly when the trimming of the script takes nothing of it but perhaps a last delimiter that is white space |
| `SedScript.CommandIsRead` | rom/bin/sed.ts:168-287 | in particular every written command that does not end in white space |
| `Base64.EightsOfSixes` | rom/bin/base64.ts:117-118 | regrouping bytes into sixes and back is the identity (section 4 of RFC 4648) |
| `Base64.BtoaIsRead` | rom/bin/base64.ts:117-156 | what btoa writes atob reads |
| `Base64.AlphabetIs` | rom/bin/base64.ts:117-156 | the symbols are those of section 4 of RFC 4648, in its order |
| `Base64.ThreeBytesAre` | rom/bin/base64.ts:117-156 | three bytes are the four symbols of their 24 bits, highest first, in front of what the rest gives |
| `Base64.LastBytesAre` | rom/bin/base64.ts:117-156 | one or two bytes at the end are filled up with zero bits and padded with `=` |
| `Base64.AtobSkipsSpace` | rom/bin/base64.ts:136-156 | atob passes over white space wherever it stands |
| `Base64.EncodeBase64` | rom/bin/base64.ts:117-131 | the loop cuts the encoding into lines of the width; width 0 leaves it whole |
| `Base64.LinesAreFull` | rom/bin/base64.ts:124-130 | every line but the last has exactly the width, and the last at least one character |
| `Base64.DecodeBase64` | rom/bin/base64.ts:136-156 | white space is removed, and an error is reported exactly when the rest does not decode |
| `Base64.WrappedIsRead` | rom/bin/base64.ts:117-156 | decoding gives the data back for every data and every width |
| `Base64.UrlDecode` | src/auth/jwt.ts:112-136 | the padding branches and the byte loop compute the decoding |
| `Base64.UrlEncodedIs` | src/auth/jwt.ts:87-96 | the three replacements give the unpadded alphabet of section 5 of RFC 4648 |
| `Base64.UrlRoundTrip` | src/auth/jwt.ts:87-136 | decoding undoes encoding for all bytes |
| `Base64.UrlComesBackIff` | src/auth/jwt.ts:112-136 | of all strings, encoding undoes decoding exactly on those of the URL alphabet, of a possible length and with no spare bit set; any other that decodes stands for bytes another one encodes |
| `Jwt.SignedHasThreeParts` | src/auth/jwt.ts:231-246 | a signed token is exactly header, payload and signature between dots (section 7.1 of RFC 7515) |
| `Jwt.SignedIsVerifiedIff` | src/auth/jwt.ts:231-326 | a signed token gives its payload back exactly when the key signs alike, it has not expired, and it names a subject and a session; otherwise nothing |
| `Jwt.ExpiredIff` | src/auth/jwt.ts:303-313 | expiry is at or after the claimed second (section 4.1.4 of RFC 7519), in milliseconds |
| `Jwt.AcceptedIsSigned` | src/auth/jwt.ts:266-326 | any accepted token carries the key's signature over everything before its last dot, and is unexpired |
| `Auth.Authority.ValidateToken` | src/auth/auth.ts:311-317 | nothing is accepted without a key; over every run, `AcceptedIff`, `AcceptedIsUnexpired` and `NothingAfterShutdown` say which tokens it accepts |
| `Auth.Authority.LogOut` | src/auth/auth.ts:446-461 | marks the session's row deleted, if there is one; `RowStays` has it as the only change a row ever sees, and `RevalidatedIff` says what follows |
| `Auth.Authority.RegisterUser` | src/auth/auth.ts:550-580 | refuses a taken name without effect, else adds an enabled user with the password's hash |
| `Auth.Authority.LogIn` | src/auth/auth.ts:369-432 | refuses unknown and disabled users and wrong passwords without effect, else opens a session and issues its token |
| `Auth.Authority.GrantToken` | src/auth/auth.ts:608-649 | opens a session, when there is a store, and issues its token |
| `Auth.Authority.SeedRootUser` | src/auth/auth.ts:183-213 | adds the root user exactly when no user has its id |
| `Auth.Authority.RevalidateSession` | src/auth/auth.ts:474-498 | valid when there is no store, or for a row not deleted and not past its expiry; `RevalidatedIff` and `AcceptedRevalidates` give it for a session over every run |
| `Auth.JwtTokensHold` | src/auth/jwt.ts:231-326 | tokens signed and verified as in jwt.ts satisfy the one law the session results use |
| `Auth.RowStays` | src/auth/auth.ts:369-461 | over every run a session's row stays as created, but for being deleted by its own logout |
| `Auth.RevalidatedIff` | src/auth/auth.ts:446-498 | over every run, a session revalidates exactly until it expires and unless it was logged out, and always without a store |
| `Auth.AcceptedIff` | src/auth/auth.ts:311-317 | while the key stays, an issued token is accepted exactly until the whole second in which its session expires |
| `Auth.AcceptedIsUnexpired` | src/auth/auth.ts:311-317 | over every run, key changes included, an accepted token belongs to the session it was issued for, which is not past its expiry |
| `Auth.RefusedEarlyInLastSecond` | src/auth/auth.ts:311-317 | while the key stays, a token is refused before its session expires only with less than 1000 ms left |
| `Auth.AcceptedRevalidates` | src/auth/auth.ts:474-498 | an accepted token of a session not logged out is of a session that revalidates |
| `Auth.NothingAfterShutdown` | src/auth/auth.ts:247-249 | after a shutdown no token is accepted and none is issued until the next init |
| `Auth.RegisteredCanLogIn` | src/auth/auth.ts:550-580 | a registered user can log in from then on, with exactly the passwords that verify, and gets a full session |
| `Auth.LoginGives` | src/auth/auth.ts:369-432 | the first user of a name gets a session of the standard length and its token, with the claims spelled out, unless disabled or the password does not verify; without a key or a store it is an error |
| `Auth.StrangersGetNothing` | src/auth/auth.ts:369-432 | nobody else gets anything, and nothing changes |
| `Auth.GrantGives` | src/auth/auth.ts:608-649 | granting needs a key only: principal, scope and time to live as asked for, and a row when there is a store |
| `Auth.RegisterGives` | src/auth/auth.ts:550-580 | a name can be registered exactly when there is a store and nobody has it |
| `Auth.InitGives` | src/auth/auth.ts:183-213 | init sets the key and adds the root user, enabled and with the default hash, when there is a store without that id |
| `Sort.SortIsStable` | rom/bin/sort.ts:302-316 | the sort yields an ordered permutation in which ties stand as in the input |
| `Sort.StableSortIsUnique` | rom/bin/sort.ts:302-316 | there is only one such arrangement, so the result does not depend on the algorithm |
| `Sort.ComparisonIsOrder` | rom/bin/sort.ts:507-570 | key extraction, normalisation and reversal turn any total preorder of keys into one of lines |
| `Sort.SortedIsStable` | rom/bin/sort.ts:302-316 | the branch that adds indexes and the one that does not give the same result: the stable flag changes nothing |
| `Sort.ReverseSort` | rom/bin/sort.ts:566-569 | sorting with the comparison reversed is sorting the input backwards and reversing the result |
| `Sort.ReverseFlag` | rom/bin/sort.ts:551-572 | with the reverse flag the result is the backward input sorted without it, read backwards: opposite order, ties still in input order |
| `Sort.PlainComparison` | rom/bin/sort.ts:551-572 | with no options lines compare as they are, negated under reverse |
| `Sort.FieldsCompare` | rom/bin/sort.ts:507-522 | with -k n lines compare as their n-th fields would with the other options, and a line with fewer fields as the empty line |
| `Sort.FieldRangesCompare` | rom/bin/sort.ts:507-522 | with -k n,m as the fields n to m with a blank between them |
| `Sort.EqualFieldsTie` | rom/bin/sort.ts:507-522 | with -k n lines with equal n-th fields tie, whatever the other options |
| `Sort.BlanksDoNotCount` | rom/bin/sort.ts:527-545 | ignoreBlanks passes over the blanks in front and nothing else |
| `Sort.OthersDoNotCount` | rom/bin/sort.ts:527-545 | dictionary passes over every character that is no letter, digit or blank |
| `Sort.LettersCount` | rom/bin/sort.ts:527-545 | and over nothing else |
| `Sort.CaseDoesNotCount` | rom/bin/sort.ts:527-545 | ignoreCase compares the lower case |
| `Sort.CheckSorted` | rom/bin/sort.ts:575-586 | the loop accepts exactly the inputs whose neighbours are in order |
| `Sort.CheckIffSortKeeps` | rom/bin/sort.ts:575-586 | which are exactly the inputs the stable sort leaves unchanged |
| `Sort.SortIsIdempotent` | rom/bin/sort.ts:302-316 | sorting again changes nothing |
| `Sort.SortLines` | rom/bin/sort.ts:302-337 | the sorting step and the unique step with its set, against their specification |
| `Sort.UniqueKeepsFirsts` | rom/bin/sort.ts:322-337 | the unique step keeps the first line of each key, in order, and the output stays sorted |
| `Sort.UniqueKeepsEveryKey` | rom/bin/sort.ts:322-337 | exactly one line is kept for every key of the input |
| `Sort.UniqueHoldsLines` | rom/bin/sort.ts:322-337 | without ignoreCase the unique output holds every line of the input exactly once |
| `Sort.UniqueHoldsLowerCase` | rom/bin/sort.ts:322-337 | with it, one line for all those with the same lower case |
| `Sort.UniqueIsStrictIff` | rom/bin/sort.ts:322-337 | with any options, the output has no two lines that compare equal exactly when, of the input lines lowest for their unique key, those that compare equal share it: the step goes by lines, not by sort keys |
| `Sort.UniqueIsStrictByLines` | rom/bin/sort.ts:322-337 | when lines with one unique key compare equal, as always without ignoreCase, exactly when all input lines that compare equal share their key |
| `Duration.FormatMs` | rom/lib/format.ts:289-313 | the branches by magnitude give the short form, and the sign goes in front of either form |
| `Duration.Ms` | rom/lib/format.ts:231-252 | the loop over the expression's matches sums the recursive scan of the text |
| `Duration.FormatMsLong` | rom/lib/format.ts:316-352 | reducing the remainder in place and pushing parts gives the mixed-unit form |
| `Duration.LongRoundTrip` | rom/lib/format.ts:231-352 | ms(formatMs(n, true)) == n for every natural n |
| `Duration.LongRoundTripIff` | rom/lib/format.ts:289-296 | for a negative n exactly when the long form has one part, since the sign is read with the first part only |
| `Duration.ShortFormIsNear` | rom/lib/format.ts:231-313 | for every integer the short form is read back with an error of at most half its unit, and below a second with none |
| `DurationTexts.ShortFormIs` | rom/lib/format.ts:289-313 | word for word: milliseconds below a second, from then on the largest unit up to days that fits, halves rounded up |
| `DurationTexts.LongFormIs` | rom/lib/format.ts:316-352 | word for word: days to milliseconds that are not zero, a blank between them, an s behind all but one, and `0 milliseconds` |
| `DurationTexts.SignInFront` | rom/lib/format.ts:289-296 | a negative duration is the positive one with a sign in front |
| `DurationTexts.LettersAreUnits` | rom/lib/format.ts:231-283 | a number and a letter are that many of the unit, for all seven units |
| `DurationTexts.CapitalsAreRead` | rom/lib/format.ts:231-283 | capitals are read like small letters |
| `DurationTexts.FractionsAreRead` | rom/lib/format.ts:231-252 | digits behind a point add their numeral over a power of ten (`FractionIs`) |
| `DurationTexts.NegativeFractionsAreRead` | rom/lib/format.ts:231-252 | and the sign is that of the whole number |
| `Streams.UniqStdin` | rom/bin/uniq.ts:112-163 | one pass with the last message and a count writes what the run-length groups of the items say |
| `Streams.UniqLines` | rom/bin/uniq.ts:165-203 | the list that counts up its last group writes what the groups of the lines say |
| `Streams.OptionsChoose` | rom/bin/uniq.ts:165-203 | without -d and -u every group is written, with -d those that count more than one, with -u those that count one, with both none |
| `Streams.CountsAreShown` | rom/bin/uniq.ts:165-203 | with -c a line stands behind its count, which `PaddedIs` has in seven places |
| `Streams.GroupsAreRuns` | rom/bin/uniq.ts:165-186 | the groups are a run-length encoding: never empty, neighbours different, the same keys in the same order |
| `Streams.RunsAreUnique` | rom/bin/uniq.ts:165-186 | keys have only one such encoding |
| `Streams.CountsAddUp` | rom/bin/uniq.ts:165-203 | the counts add up to the number of lines |
| `Streams.UniqStreamIsFile` | rom/bin/uniq.ts:112-203 | the streamed form and the whole-file form write the same text, with every option |
| `Streams.UniqIsIdempotent` | rom/bin/uniq.ts:165-203 | filtering again changes nothing |
| `Streams.TailStdin` | rom/bin/tail.ts:121-138 | the bounded queue passes on the last N items, unchanged |
| `Streams.TailFile` | rom/bin/tail.ts:140-167 | the slice prints the last N lines |
| `Streams.CatThenTail` | rom/bin/tail.ts:121-167 | `cat` of a file into `tail -n N`, through the queue, writes what `tail -n N f` writes through the slice |
| `Streams.CatFile` | rom/bin/cat.ts:158-193 | for every way the text is cut into chunks, the lines printed are those of the whole text |
| `Streams.CatPreservesIff` | rom/bin/cat.ts:158-193 | the output is the file's exact contents exactly when the file is empty or ends a line, where the documentation promises always |

## Left out

* System calls, clocks, randomness and network: inputs, outputs, times, keys and fresh ids are
  parameters.
* Text is a sequence of characters: UTF-16 surrogates are not modelled, and `cat` is given its
  chunks after decoding.
* Glob: the `nocase` option, and the wrappers `filter` and `matcher`, which only call `match`.
* Regular expressions of JavaScript outside the fragment that globs produce; in sed they are
  arbitrary predicates, and `s` an arbitrary function of the line.
* Kernel: virtual processes, ports and services, and the asynchronous closing of a handle's
  resource; the descriptors a child opens for itself.
* Pipeline: file redirects, globbing of arguments and the running of the builtins. The shell
  is taken to have its own stdin and stdout open. `wait` is a status or a failure given for
  each command, and children exit only between two steps of the shell.
* Args: `formatError` and `parseDuration`.
* Gateway: read timeouts. MessagePack is any function with an inverse.
* JSON, UTF-8 and HMAC are functions with the inverse laws that are stated; that HMAC cannot
  be forged is not claimed. Claims are whole numbers.
* Auth: `mintToken` and `refreshToken`, which open no session, so that the session laws do not
  cover them; users that are disabled later; scopes are stored but mean nothing.
* Sort: `parseHumanSize` and `parseFloat`: the order of normalised keys is any total preorder,
  and Array.sort is given as a stable insertion sort.
* Duration: rounding of floating point beyond 2^53; numbers are reals.
* The tools that wrap one system call, help texts and option tables.
* A session's row is taken to be created under an id that no row has.
- Pipeline.ExecutePipeline: for a shell that has its own stdin and stdout open;
  `StdoutIsRestoredIff` says what goes wrong for a builtin without.
- Sort.UniqueIsStrictByLines: one sufficient condition on the keys; `UniqueIsStrictIff` has none.
