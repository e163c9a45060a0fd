# Verified models of Kimi Code's hard parts

Dafny models of the parts of the repository whose correctness rests on a non-trivial argument, with proofs of what they
promise. Each module follows one piece of the source; methods and classes keep the source's loops, fields and branches
and are proved against functions, and lemmas state what those functions mean.

* **Text (`kaos`).** The two hand-written `ignore` decoders, the streaming UTF-8 validator, the line-ending scanner, the
  chunked line reader and the backward tail reader. The reference is the grammar of section 4 of RFC 3629, the encodings
  of RFC 3629 and RFC 2781, and the cut of a whole file after each line feed. Chunks, block sizes and the sizes of single
  reads are arbitrary. Modules `Utf8`, `Utf8Validation`, `Utf16`, `Lines`, `LineReader`, `StrictLines`, `TailReader`,
  `TextScan`.
* **Glob (`kaos`).** The compiler from glob segments to regular expressions, against a direct matcher and a parser for
  the part of section 22.2 of ECMA-262 it uses; and the recursive walk with its cycle check, on arbitrary directory
  graphs. `GlobSearch` joins the two: on a tree the search finds exactly the paths that match. Modules `Regex`, `Glob`,
  `GlobText`, `GlobToRegex`, `GlobWalk`, `GlobMeaning`, `GlobOnce`, `GlobAgree`, `GlobListed`, `GlobSearch`.
* **Remote commands (`kaos`).** `shellQuote` and `_buildExecCommand` against a token reader for sections 2.2 to 2.4 and
  2.9.1 of the POSIX Shell Command Language. Modules `Shell`, `ExecCommand`, `ExecMeaning`, `ExecPatterns`.
* **Stream assembly (`kosong`).** `generate` with interleaved argument deltas. Modules `Generate`, `GenerateMessage`,
  `GenerateContent`.
* **Prompt turns (`acp-adapter`).** The event handler of `runTurnBody` and what a client that replaces content shows.
  Modules `TurnEvents`, `TurnBody`, `TurnOutcome`, `TurnView`, `TurnSent`.
* **Instance registry (`kap-server`).** Heartbeats, updates, failed writes and release as atomic steps between awaits.
  Modules `InstanceRegistry`, `InstancePort`.
* **Hook slots (`agent-core-v2`).** Ordered registration and re-entrant chain runs. Modules `Hooks`,
  `HookSchedule`.
* **Prompt activity (`acp-server`).** The `promptActive` flag under racing callbacks. Module `PromptActivity`.

JavaScript strings are sequences of 16-bit code units, bytes are integers below 256, and `undefined`, exceptions and
rejections are cases of datatypes. `Units` and `Chars` hold these shared values.

The code differs from its comments or from what one may expect in these places. Each has an exact condition and a
concrete case below.

* `globPatternToRegex` says that an escaped character matches literally; `\*` and `\?` do not (`GlobToRegex.AgreesIff`,
  `GlobToRegex.EscapedStarExample`).
* The walk says that nothing is counted twice below `**`; a pattern with two or more `**` does yield duplicates, unless
  one of its other parts accepts no file name at all, so that it has no match anywhere (`GlobOnce.OnceIff`,
  `GlobOnce.TwoStarsExample`).
* The SSH walk takes the kind of an entry from the listing, the local walk from `stat`: they differ wherever an entry is
  a link to a directory or cannot be resolved (`GlobSearch.SearchesAgreeIff`, `GlobAgree.DanglingLinkExample`).
* A last line without terminator whose bytes all drop out is a line for the chunked reader, but not for the splitter of
  decoded text (`Lines.DecodedLinesAgree` and `Lines.VanishingExample`, `TailReader.TailAgrees` and
  `TailReader.TailExample`).
* `readLineRange` with `maxLines` below 1 yields one line (`LineReader.ReadUtf8Lines`, `LineReader.LimitBelowOne`).
* A printed command whose first argument is a bare `NAME=value`, or a bare reserved word without an environment, is not
  run with its arguments (`ExecMeaning.PrintedRunsIff`, `ExecMeaning.AssignmentExample`, `ExecMeaning.ReservedExample`).
* A hook registration that fails for want of its target has already removed the earlier entry of its id; naming one's own
  id as target fails, too (`Hooks.TargetMissingIff`, `Hooks.MissingTargetDrops`, `Hooks.MissingTargetExample`).
* A stream whose turn ids go back can show one call's arguments in another (`TurnView.ShownThroughoutIff`,
  `TurnView.TurnsBackExample`).
* When two writes of the instance file race, the older one can be renamed last and leave its port in the file until the
  next write (`InstancePort.FileOfRun`, `InstancePort.UpdateReachesFile`, `InstancePort.StaleFileExample`).
* After a cancellation, the late outcome or the late turn of the cancelled prompt can be announced as the end of the next
  one, and so can the cancellation itself when the prompt ends before it goes on; accepting a prompt is safe exactly when
  nothing from before is under way (`PromptActivity.SafeToAcceptIff`, `PromptActivity.StaleOutcomeExample`,
  `PromptActivity.StaleTurnExample`, `PromptActivity.StaleCancelExample`).
* `ToolCallPart` says that a delta without index is appended to the most recent tool call; it is lost when anything but
  deltas has come since (`Generate.UnindexedOwnerIff`, `Generate.UnindexedExample`).

## Model

| member | source | states |
|---|---|---|
| Utf8.DecodeUtf8Ignore | packages/kaos/src/internal.ts:7-82 | the decoder returns the text of the RFC 3629 characters read from the left, dropping one byte wherever no character begins |
| Utf8.TakenIsCharLength | packages/kaos/src/internal.ts:15-76 | the decoder's byte tests take k bytes exactly when a character of the RFC 3629 grammar of k bytes begins there, and none when no character does |
| Utf8.AssembledIsScalar | packages/kaos/src/internal.ts:21-73 | the masked and shifted bits of a character are the scalar value whose encoding it is, so never a surrogate nor above 0x10FFFF |
| Utf8.CharLengthUnique | packages/kaos/src/internal.ts:7-82 | no character is a proper prefix of another, so reading from the left is unambiguous |
| Utf8.IgnoreInvertsEncode | packages/kaos/src/internal.ts:7-82 | decoding undoes encoding for every sequence of scalar values |
| Utf8.WellFormedIffLossless | packages/kaos/src/internal.ts:7-82 | bytes are well-formed if and only if re-encoding the decoded text gives them back |
| Utf8.IgnoreKeepsSubsequence | packages/kaos/src/internal.ts:170-175 | on arbitrary bytes, what is kept is a subsequence of the input: invalid bytes are deleted and nothing is added |
| Utf8.IgnoreIdempotent | packages/kaos/src/internal.ts:170-175 | decoding, encoding and decoding again changes nothing |
| Utf8.IgnoreSplits | packages/kaos/src/internal.ts:7-82 | decoding splits before every byte that is no tail octet, whatever invalid bytes stand on either side |
| Utf8.IgnoreBlock | packages/kaos/src/internal.ts:7-82 | a byte and the tail octets behind it decode to the character they begin with, or to nothing |
| Utf8.IgnoreSplitsAtAscii | packages/kaos/src/internal.ts:7-82 | decoding splits around every ASCII byte, whatever invalid bytes stand beside it |
| Utf8Validation.TableMatchesGrammar | packages/kaos/src/local.ts:830-854 | the validator's table of first bytes and bounds describes exactly the characters of the RFC 3629 grammar |
| Utf8Validation.RunInsideChar | packages/kaos/src/local.ts:855-860 | inside a character the automaton returns to its start state exactly on the octets that complete it |
| Utf8Validation.RunConcat | packages/kaos/src/local.ts:816-867 | the state after two chunks is the state after their concatenation: where chunks are cut does not matter |
| Utf8Validation.AcceptsIffWellFormed | packages/kaos/src/local.ts:816-867 | the automaton ends in its start state if and only if the bytes are well-formed, hence if and only if the `ignore` decoder drops nothing |
| Utf8Validation.RunsIffViable | packages/kaos/src/local.ts:816-867 | the automaton has not failed if and only if some continuation of the bytes is well-formed |
| Utf8Validation.Utf8Validator.constructor | packages/kaos/src/local.ts:816-823 | a new validator has seen nothing |
| Utf8Validation.Utf8Validator.Write | packages/kaos/src/local.ts:826-862 | a write throws on the first chunk after which no continuation is well-formed, and on no other; otherwise the chunk is added to what was seen |
| Utf8Validation.Utf8Validator.End | packages/kaos/src/local.ts:863-865 | the end throws if and only if all bytes written, however cut, are not well-formed |
| Utf16.DecodeUtf16LeIgnore | packages/kaos/src/internal.ts:84-121 | the decoder returns the code units without the unpaired surrogates and without an odd last byte |
| Utf16.DecodeInvertsEncode | packages/kaos/src/internal.ts:84-121 | decoding undoes UTF-16LE encoding for every sequence of scalar values |
| Utf16.EncodedIsUtf16 | packages/kaos/src/internal.ts:95-114 | encoded scalar values contain no unpaired surrogate |
| Utf16.KeptOfUtf16 | packages/kaos/src/internal.ts:84-121 | text without unpaired surrogates is kept whole |
| Utf16.KeptConcat | packages/kaos/src/internal.ts:84-121 | decoding splits anywhere but inside a surrogate pair |
| Utf16.KeptUnit | packages/kaos/src/internal.ts:98-116 | a single unit is kept if and only if it is no surrogate |
| Utf16.KeptIsText | packages/kaos/src/internal.ts:84-121 | whatever the bytes, the result is the encoding of some sequence of scalar values |
| Utf16.KeptIsSubsequence | packages/kaos/src/internal.ts:84-121 | what is kept is a subsequence of the input's code units |
| Utf16.DecodeIdempotent | packages/kaos/src/internal.ts:84-121 | decoding the encoding of a decoded string gives the string again |
| Lines.CutLinesAreLines | packages/kaos/src/local.ts:776-788 | the lines join to the text, none is empty, and a terminator stands only at the end of a line, in all but the last always |
| Lines.CutLinesUnique | packages/kaos/src/local.ts:776-788 | this is the only such division of a text |
| Lines.CutConcat | packages/kaos/src/local.ts:593-648 | cutting distributes over a split right after a terminator |
| Lines.LineCount | packages/kaos/src/local.ts:517-526 | there are as many lines as line feeds, and one more when the last line is unterminated |
| Lines.CutDecoded | packages/kaos/src/local.ts:545-648 | for all bytes, cutting the decoded file gives the decoded lines of bytes, without a last line that decodes to nothing |
| Lines.DecodedLinesAgree | packages/kaos/src/local.ts:593-648 | decoding line by line and cutting the decoded file agree if and only if the last line is not an unterminated one that decodes to nothing |
| Lines.VanishingExample | packages/kaos/src/local.ts:636-641 | a file that is one stray tail octet is read as one empty line, and its decoded text has none |
| Lines.WellFormedLinesVisible | packages/kaos/src/local.ts:593-648 | in a well-formed file no line decodes to nothing |
| LineReader.ReadUtf8Lines | packages/kaos/src/local.ts:593-648 | for every chunking, the lines handed to the decoder are the slice of the file's byte lines asked for, the first line of the file alone being allowed a byte order mark; a limit below 1 acts as 1 |
| LineReader.SliceIs | packages/kaos/src/local.ts:593-648 | the slice is the consecutive lines from `startLine` on, as many as there are and the limit allows, and at least one if there is one |
| StrictLines.StrictAgrees | packages/kaos/src/local.ts:601-639 | in `strict` mode reading all lines of a file fails if and only if the file is not well-formed, and otherwise yields the text of the file, without a byte order mark at its beginning and with any later one |
| StrictLines.WellFormedSplits | packages/kaos/src/local.ts:606-617 | bytes are well-formed if and only if they are before and after a line feed, so that no line hides or causes an error of another |
| LineReader.LimitBelowOne | packages/kaos/src/local.ts:621-625 | a limit below 1 yields exactly what a limit of 1 yields: one line, if there is one at the start |
| LineReader.ReadChunk | packages/kaos/src/local.ts:607-633 | one chunk either reaches the limit with exactly the slice yielded, or leaves `pending`, the offsets and the line number describing the bytes read so far |
| LineReader.CompleteLine | packages/kaos/src/local.ts:611-625 | a line feed completes the pending line, which is yielded from `startLine` on until the limit is reached |
| LineReader.KeepRest | packages/kaos/src/local.ts:628-632 | the end of a chunk is kept, with the offset of its line, for the line that the next chunk continues |
| LineReader.SeenAreFirst | packages/kaos/src/local.ts:593-648 | the lines completed so far are the first lines of the whole file |
| TailReader.DecodedLinesJoin | packages/kaos/src/local.ts:593-648 | in `ignore` mode the yielded strings join to the decoding of the whole file |
| TailReader.SplitLinesKeepingTerminator | packages/kaos/src/local.ts:776-788 | the generator yields the lines of the text, although it tests code points and not code units |
| TailReader.ReadRange | packages/kaos/src/local.ts:869-882 | whatever the sizes of the single reads, the range of the file is returned, shorter only at the end of the file |
| TailReader.FindTailStart | packages/kaos/src/local.ts:556-584 | for every block size the backward scan finds the start of the last lines asked for, or offset 0 when there are no more |
| TailReader.TailStartCutsLines | packages/kaos/src/local.ts:556-584 | from such a start, the lines of the rest of the file are the last lines of the file |
| TailReader.ReadTailLines | packages/kaos/src/local.ts:545-591 | the strings yielded are the decoded last lines of bytes, without a last one that decodes to nothing, and none when the count is not positive |
| TailReader.TailAgrees | packages/kaos/src/local.ts:545-591 | the tail is the end of the list of all lines of the decoded file if and only if no vanishing last line uses up one of the lines asked for |
| TailReader.TailExample | packages/kaos/src/local.ts:545-591 | of a line feed and a stray tail octet, the last line is nothing, although the decoded file has a line |
| TailReader.TailOfWellFormed | packages/kaos/src/local.ts:545-591 | on well-formed files the tail is the last lines of the decoded file |
| TailReader.RangeOfWellFormed | packages/kaos/src/local.ts:533-543 | on well-formed files `readLineRange` yields the same range of the lines of the decoded file |
| TextScan.UpdateLineEndingFlags | packages/kaos/src/local.ts:790-814 | after any chunk the flags tell whether the bytes so far contain a CRLF, an LF not after CR, or a CR settled as lone, and the result tells whether they end in CR |
| TextScan.CrLfStep | packages/kaos/src/local.ts:801-803 | a byte adds a CRLF pair if and only if it is an LF after a CR, also across chunks |
| TextScan.LfStep | packages/kaos/src/local.ts:801-806 | a byte adds a plain LF if and only if it is an LF not after a CR |
| TextScan.SettledLoneCrStep | packages/kaos/src/local.ts:798-811 | a byte settles a lone CR if and only if it is no LF and stands after a CR |
| TextScan.LoneCrAtEnd | packages/kaos/src/local.ts:524-524 | at the end of the file a final CR is a lone one |
| TextScan.ScanChunk | packages/kaos/src/local.ts:508-522 | one chunk keeps validator, flags and counters in step with the bytes read, or fails when these can no longer be well-formed |
| TextScan.ScanTextFile | packages/kaos/src/local.ts:495-531 | for every chunking: fails if and only if the file is not well-formed, and otherwise reports the number of lines, a final line feed, NUL bytes and the three kinds of line endings of the whole file |
| TextScan.ScanCountsTextLines | packages/kaos/src/local.ts:526-526 | on accepted files the count is the number of lines of the decoded text |
| Glob.GlobPatternToRegex | packages/kaos/src/internal.ts:186-238 | the loop emits the text that compiling the pattern token by token gives; what the tokens of a text mean is `GlobText` |
| Glob.EmitAt | packages/kaos/src/internal.ts:188-235 | one round emits the text of the token at its position and goes on after that token |
| Glob.EmitAllAt | packages/kaos/src/internal.ts:188-235 | from any position on, the text is that of the token there and of those behind it |
| GlobText.MatchesQuestion | packages/kaos/src/internal.ts:195-197 | `?` before a pattern takes one character that is no slash |
| GlobText.MatchesStar | packages/kaos/src/internal.ts:192-194 | `*` before a pattern takes any number of characters that are no slashes |
| GlobText.MatchesBracket | packages/kaos/src/internal.ts:198-218 | a bracket up to its first `]` takes one character that it lists, or after `!` one that it does not list |
| GlobText.ListsRange | packages/kaos/src/internal.ts:207-216 | between brackets `a-b` lists the characters from `a` to `b` |
| GlobText.ListsSingle | packages/kaos/src/internal.ts:207-216 | any other character between brackets lists itself |
| GlobText.ListsNothing | packages/kaos/src/internal.ts:207-216 | an empty bracket lists no character |
| GlobText.MatchesOpenBracket | packages/kaos/src/internal.ts:199-201 | a bracket that is never closed stands for itself |
| GlobText.MatchesEscaped | packages/kaos/src/internal.ts:220-227 | a backslash makes the next character stand for itself |
| GlobText.MatchesPlain | packages/kaos/src/internal.ts:228-234 | any other character, and a backslash at the end, stands for itself |
| GlobText.MatchesEmpty | packages/kaos/src/internal.ts:187-236 | the empty pattern matches the empty name only |
| GlobToRegex.ReadEncodedClass | packages/kaos/src/internal.ts:203-216 | a regular-expression parser reads the escaped text of a bracket as the ranges of the bracket, or refuses it if a range is out of order |
| GlobToRegex.ParseCompiled | packages/kaos/src/internal.ts:186-238 | the emitted text never leaves the modelled regular-expression syntax, and is refused for its classes if and only if a range is out of order |
| GlobToRegex.TermsMeanTokens | packages/kaos/src/internal.ts:186-238 | regular-expression terms match a name if and only if the tokens they come from match it |
| GlobToRegex.RegexMeansGlob | packages/kaos/src/internal.ts:186-238 | with ranges in order and without `\*` and `\?`, the regular expression matches exactly the names that the pattern matches |
| GlobToRegex.CompilesIff | packages/kaos/src/internal.ts:223-237 | `RegExp` accepts the text if and only if all ranges are in order and every `\*` and `\?` stands where a quantifier may |
| GlobToRegex.EscapedWildcardDisagrees | packages/kaos/src/internal.ts:220-227 | with `\*` or `\?` anywhere the regular expression is refused or matches a name that the pattern does not, unless a class that lets no character through stays unquantified |
| GlobToRegex.EmptyClassAgrees | packages/kaos/src/internal.ts:198-216 | with such an empty class, expression and pattern both match nothing |
| GlobToRegex.AgreesIff | packages/kaos/src/internal.ts:186-238 | for every pattern, expression and pattern agree if and only if the expression compiles and either neither `\*` nor `\?` occurs, or an empty class that no such escape follows keeps both from matching anything |
| GlobToRegex.EscapedStarExample | packages/kaos/src/internal.ts:223-226 | the pattern `a\*` compiles to an expression that matches `aa` |
| GlobWalk.WalksAgree | packages/kaos/src/local.ts:344-450 | below a directory where every entry resolves and is listed as a directory exactly when `stat` finds one, the walk with a cycle check yields the same paths in the same order as the walk over listings |
| GlobWalk.CycleCheckPrunesNothing | packages/kaos/src/ssh.ts:674-745 | from such a base the local search, whose cycle check then prunes nothing, yields what the SSH search yields |
| GlobAgree.AgreeIff | packages/kaos/src/ssh.ts:712-743 | with distinct directory keys, names listed once, and any test by which `*` accepts the names listed, local and SSH search agree for all patterns if and only if no entry below the base is a link to a directory, fails to resolve, or is listed as another kind than `stat` finds |
| GlobAgree.DanglingLinkExample | packages/kaos/src/ssh.ts:717-720 | of a directory with one dangling link and the pattern `**`, only the SSH search yields the link |
| GlobListed.SshWalksListed | packages/kaos/src/ssh.ts:674-745 | on any file system the SSH search yields what the local search yields on the file system that the listings describe, where links and dangling entries are files and no directory has an inode number |
| GlobListed.SshYields | packages/kaos/src/ssh.ts:674-745 | the SSH search yields a path if and only if its names match the pattern through entries listed as directories |
| GlobMeaning.WalkYields | packages/kaos/src/local.ts:344-450 | on any directory graph, cyclic or not, a path is yielded if and only if it continues the base path with names that satisfy the pattern through directories that may be entered |
| GlobMeaning.HitByEntry | packages/kaos/src/local.ts:356-403 | matching `**` against any number of names is matching it against none here or against one more entry below |
| GlobMeaning.EntriesInOrder | packages/kaos/src/local.ts:381-403 | paths come in the order of the listing |
| GlobMeaning.HereFirst | packages/kaos/src/local.ts:374-379 | what is found where `**` takes no directory comes before what is found further down |
| GlobMeaning.DescentVisits | packages/kaos/src/local.ts:322-331 | the visited set is exactly the keys on the current descent, and a descent is possible if and only if it enters no directory twice; other branches do not matter |
| GlobMeaning.DescentsFromBase | packages/kaos/src/local.ts:307-320 | from the base, whose own key counts as visited, a descent is possible if and only if all its directories and the base have different keys |
| GlobMeaning.TreeRoutesDiffer | packages/kaos/src/local.ts:322-331 | on an acyclic graph with distinct keys every descent is possible |
| GlobOnce.NamesTaken | packages/kaos/src/local.ts:344-450 | a match has at least as many names as the pattern has parts other than one `**`, and without `**` exactly as many |
| GlobOnce.WalkOnce | packages/kaos/src/local.ts:370-373 | with at most one `**` no path is yielded twice |
| GlobOnce.FoundTwiceInChain | packages/kaos/src/local.ts:370-373 | with two or more `**`, whose other parts each accept some file name, a chain of directories with such names is walked with a path yielded twice |
| GlobOnce.TwoStarsExample | packages/kaos/src/local.ts:356-403 | in a directory with one subdirectory the pattern of two `**` yields a path twice |
| GlobOnce.UnacceptableFindsNothing | packages/kaos/src/local.ts:404-418 | a pattern with a part that accepts no file name yields nothing |
| GlobOnce.OnceIff | packages/kaos/src/local.ts:370-373 | a pattern yields no path twice on any file system if and only if it has at most one `**` or a part that accepts no file name |
| GlobSearch.HitIffPathMatches | packages/kaos/src/local.ts:344-450 | on a tree the visited keys do not show in what matches |
| GlobSearch.SearchFinds | packages/kaos/src/local.ts:299-450 | on a tree, with compiled tests for all parts, the local search finds exactly the paths whose components match the pattern |
| GlobSearch.SshSearchFinds | packages/kaos/src/ssh.ts:659-745 | so does the SSH search on a tree where the listings agree with `stat` |
| GlobSearch.SearchFindsOnce | packages/kaos/src/local.ts:299-450 | with at most one `**` and names listed once, the search yields every matching path exactly once and no other |
| GlobSearch.SearchesAgreeIff | packages/kaos/src/ssh.ts:659-745 | with the compiled tests and directories that list file names, each once, local and SSH search yield the same for all patterns if and only if no entry below the base is a link to a directory, fails to resolve, or is listed as another kind than `stat` finds |
| GlobSearch.StarMatches | packages/kaos/src/internal.ts:190-193 | the expression compiled from `*` matches every text without a slash |
| ExecCommand.BuildExecCommand | packages/kaos/src/ssh.ts:934-963 | the first invalid environment name is reported, and otherwise the command with directory, assignments and arguments is printed |
| ExecPatterns.BareIffPattern | packages/kaos/src/ssh.ts:114-120 | an argument is printed as it is if and only if the regular expression of the source matches it |
| ExecPatterns.NameIsPattern | packages/kaos/src/ssh.ts:946-946 | a name is accepted if and only if the regular expression of the source matches it |
| ExecCommand.ReadQuoted | packages/kaos/src/ssh.ts:114-120 | a shell reads what `shellQuote` prints, before any text that follows, as part of one word with exactly the argument's characters |
| ExecCommand.ReadEscaped | packages/kaos/src/ssh.ts:119-119 | single quotes inside an argument survive the quoting |
| ExecCommand.PrintedTokens | packages/kaos/src/ssh.ts:934-963 | a shell reads from the command exactly `cd`, the directory and `&&`, the assignments in order, and the arguments in order |
| ExecMeaning.PrintedRunsIff | packages/kaos/src/ssh.ts:934-963 | from the printed text a shell reads the change to the directory, if there is one, and then the assignments and arguments, if and only if the first argument is neither a bare NAME=value nor, without an environment, a bare reserved word |
| ExecMeaning.AssignmentExample | packages/kaos/src/ssh.ts:117-117 | the arguments `A=b` and `ls` are read as an assignment for the command `ls` |
| ExecMeaning.ReservedExample | packages/kaos/src/ssh.ts:117-117 | the argument `if` is read as a reserved word |
| ExecMeaning.TokensDetermine | packages/kaos/src/ssh.ts:934-963 | the directory and the words can be told from the tokens |
| ExecMeaning.PrintInjective | packages/kaos/src/ssh.ts:934-963 | two commands that print alike are the same, if neither begins with a bare NAME=value |
| Generate.CallsOfStream | packages/kosong/src/generate.ts:145-214 | for every stream: one stored call for each header, in order, with its id, name and extras; the text of its arguments is the header's text followed by the texts of exactly the deltas that belong to it, in order of arrival, and is absent if and only if none of these has text |
| Generate.ArgumentsText | packages/kosong/src/message.ts:225-233 | after any part, the arguments of a header are its text and the texts of its deltas so far, in order of arrival |
| Generate.CallsAreAssembled | packages/kosong/src/generate.ts:145-214 | the stored calls are those of the headers, and every index points inside the list of calls |
| Generate.IndexedOwner | packages/kosong/src/generate.ts:162-184 | an indexed delta after a header of its index belongs to the most recent such header |
| Generate.OwnerIsTarget | packages/kosong/src/generate.ts:167-184 | the routing sends every delta to the call it belongs to, and to the pending part exactly when that is the open header |
| Generate.UnindexedOwnerIff | packages/kosong/src/message.ts:80-89 | a delta without index, or with the index of no earlier call, belongs to the most recent tool call if and only if only deltas have come since, or there has been no tool call; otherwise it belongs to none |
| Generate.UnindexedExample | packages/kosong/src/message.ts:85-89 | after a tool call and a piece of text, a delta without index is lost |
| Generate.FlushStoresAll | packages/kosong/src/generate.ts:317-342 | flushing the pending header stores its call in order and registers its index |
| Generate.RunInvariant | packages/kosong/src/generate.ts:145-200 | after every part: calls, index map and pending part describe the parts so far |
| GenerateMessage.FlushPart | packages/kosong/src/generate.ts:317-342 | content is appended, a call is stored and registered, a stray delta is dropped |
| GenerateMessage.GenerateResponse | packages/kosong/src/generate.ts:87-266 | an error if the stream holds no content and no call, or thinking without visible text and without calls; the assembled message otherwise |
| GenerateMessage.ContentOfStream | packages/kosong/src/message.ts:204-235 | merging and routing neither lose, repeat nor reorder any character, signature or media part of the content |
| GenerateContent.ContentParts | packages/kosong/src/message.ts:204-225 | the message has one content part for each streamed part that does not continue the one before, of its kind, made of exactly that part and those that continue it; text continues text, and thinking continues unsigned thinking, with only routed deltas between |
| GenerateMessage.TextOfStream | packages/kosong/src/message.ts:243-248 | the text of the message is the concatenated streamed text |
| GenerateMessage.KindsOfStream | packages/kosong/src/generate.ts:215-229 | the message has content, and thinking, exactly when the stream had |
| GenerateMessage.TestsSeeStream | packages/kosong/src/generate.ts:215-232 | all tests on the message hold exactly when they hold of the stream |
| TurnEvents.DecimalInjective | packages/acp-adapter/src/events-map.ts:131-133 | a number can be told from its decimal form |
| TurnEvents.WireIdInjective | packages/acp-adapter/src/events-map.ts:131-133 | different pairs of turn and raw id never share a wire id |
| TurnEvents.DecimalIs | packages/acp-adapter/src/events-map.ts:131-133 | a string is the decimal form of a number if and only if it is digits without a superfluous zero that stand for the number |
| TurnEvents.WireIdReads | packages/acp-adapter/src/events-map.ts:131-133 | a string is a wire id if and only if its first colon stands between the decimal form of the turn and the raw id |
| TurnView.StartedShown | packages/acp-adapter/src/events-map.ts:196-230 | after a start the client shows the diff of the call, if it has one, then its arguments, and nothing else, also when deltas had created the call |
| TurnBody.PromptTurn.constructor | packages/acp-adapter/src/session.ts:993-1024 | a prompt starts unsettled, subscribed, with nothing sent and the turn of the session |
| TurnBody.PromptTurn.OnEvent | packages/acp-adapter/src/session.ts:1025-1287 | every event changes the closure, the session's turn, the notifications and the outcome as the transition function says; what that sends over a run is `TurnSent` |
| TurnBody.PromptTurn.OnToolCallStarted | packages/acp-adapter/src/session.ts:1113-1171 | a start seeds the accumulator and creates the call, or upgrades one that a delta created, then sends its plan |
| TurnBody.PromptTurn.OnToolCallDelta | packages/acp-adapter/src/session.ts:1172-1214 | a delta creates the call, or sends the accumulated text |
| TurnBody.PromptTurn.OnKickRejected | packages/acp-adapter/src/session.ts:1289-1294 | a rejected start settles the prompt unless it has settled |
| TurnBody.SettledForGood | packages/acp-adapter/src/session.ts:1241-1294 | once settled, nothing that happens later sends a notification or changes the outcome |
| TurnBody.SubagentsInvisible | packages/acp-adapter/src/session.ts:995-1047 | removing all events of subagents changes no notification, no turn id and no outcome |
| TurnBody.StepKeepsCreated | packages/acp-adapter/src/session.ts:1113-1214 | every step keeps that exactly the started wire ids were created, once each and before their updates |
| TurnBody.CreatedOnce | packages/acp-adapter/src/session.ts:1003-1022 | over every run no wire id is created twice or updated before its creation, and every one with a start or delta is created |
| TurnOutcome.OutcomeOfRun | packages/acp-adapter/src/session.ts:1025-1294 | for every interleaving: until a settling input the prompt is open, with the session's turn the last one the main agent named; from then on the outcome is the verdict of that input and the session has no turn, or after a rejected start the one it had; and the message and thinking text sent is exactly what the main agent streamed before it |
| TurnOutcome.OpenLengthIsFirst | packages/acp-adapter/src/session.ts:1061-1082 | no earlier input is a rejected start, the end of a main turn, or a busy error before a turn of the prompt's own |
| TurnSent.SentOfRun | packages/acp-adapter/src/session.ts:1050-1240 | over every run: up to the first settling input every result (with its call, failure and output), non-empty title, present usage, plan and piece of text of the main agent is sent once, in order, and no other notification of these kinds is ever sent |
| TurnSent.SentBeforeSettling | packages/acp-adapter/src/session.ts:1061-1294 | what has been sent in the end was sent before the first settling input |
| TurnSent.StartSent | packages/acp-adapter/src/session.ts:1113-1171 | a start sends its diff and arguments, as a creation if and only if nothing of the call has come before, and then its plan |
| TurnSent.DeltaSent | packages/acp-adapter/src/session.ts:1172-1214 | a delta creates its call as pending with its fragment if nothing of the call has come before, and otherwise sends what has accumulated under the raw id |
| TurnSent.ResultShown | packages/acp-adapter/src/events-map.ts:417-431 | right after a result the client shows its output for the call, or nothing if there is none, it is empty, or it is hidden |
| TurnView.ShownAfter | packages/acp-adapter/src/events-map.ts:232-261 | after each start or delta the client shows what the accumulator of the raw id holds |
| TurnView.ShownThroughoutIff | packages/acp-adapter/src/session.ts:1113-1214 | every start and delta of an open prompt has shown the text of its own call if and only if every delta that continues a call found the call that last used its raw id with the same text expected as its own |
| TurnView.ShownIsExpectedIff | packages/acp-adapter/src/session.ts:997-1002 | one event shows its call's own base and fragments if and only if it starts or creates the call, or the accumulator already held them |
| TurnView.OrderlyAccumulates | packages/acp-adapter/src/session.ts:997-1002 | when no delta continues a call of an earlier turn after the raw id was reused, the accumulator holds the call's own text |
| TurnView.AdvancingIsOrderly | packages/acp-adapter/src/session.ts:1017-1022 | when turn ids never go back, no delta continues a call of an earlier turn |
| TurnView.ShownAsExpected | packages/acp-adapter/src/session.ts:1113-1214 | when no delta continues a call of an earlier turn, the client always shows the base and the fragments of the call itself, although raw ids are reused and the accumulator is keyed by them |
| TurnView.TurnsBackExample | packages/acp-adapter/src/session.ts:1199-1206 | when turn ids go back, the text of another turn can show |
| InstanceRegistry.Registration.constructor | packages/kap-server/src/instanceRegistry.ts:247-285 | after registering, the file holds the port and no write is under way |
| InstanceRegistry.Registration.StartWrite | packages/kap-server/src/instanceRegistry.ts:257-271 | a write starts only if not released, and is counted |
| InstanceRegistry.Registration.HeartbeatTick | packages/kap-server/src/instanceRegistry.ts:280-284 | a tick starts a write |
| InstanceRegistry.Registration.UpdatePort | packages/kap-server/src/instanceRegistry.ts:289-293 | an update sets the port and starts a write, unless released |
| InstanceRegistry.Registration.FinishWrite | packages/kap-server/src/instanceRegistry.ts:272-275 | the end of a write is counted, and the last one wakes a waiting release |
| InstanceRegistry.Registration.ReleaseFile | packages/kap-server/src/instanceRegistry.ts:294-304 | a first release stops the timer and waits exactly if a write is under way; a second does nothing |
| InstanceRegistry.StepKeepsInvariant | packages/kap-server/src/instanceRegistry.ts:249-311 | every step keeps the count equal to the writes under way, a waiting release with a write to wait for, and none under way from the wake-up on |
| InstanceRegistry.RunKeepsInvariant | packages/kap-server/src/instanceRegistry.ts:249-311 | every interleaving of these steps keeps the same |
| InstanceRegistry.UnlinkOnlyWhenDrained | packages/kap-server/src/instanceRegistry.ts:298-306 | the file disappears only by the unlink of a released registration without writes under way |
| InstanceRegistry.UnlinkedForGood | packages/kap-server/src/instanceRegistry.ts:251-253 | once unlinked, no later step of any run creates the file again |
| InstanceRegistry.DrainWakes | packages/kap-server/src/instanceRegistry.ts:272-304 | the end of the last write always wakes a waiting release, and no earlier one does |
| InstanceRegistry.ReleaseProgresses | packages/kap-server/src/instanceRegistry.ts:294-310 | after release is called every step that changes anything brings it closer to its end |
| InstanceRegistry.ReleaseNeverStuck | packages/kap-server/src/instanceRegistry.ts:294-310 | until a called release is finished some step brings it closer to its end |
| InstancePort.PortOfRun | packages/kap-server/src/instanceRegistry.ts:289-293 | over every run the port is that of the last update with a port before the release, or the registered one |
| InstancePort.FileOfRun | packages/kap-server/src/instanceRegistry.ts:252-275 | over every run the file, while it exists, holds the port that the registration had when the write renamed last began, or the registered one |
| InstancePort.UpdateReachesFile | packages/kap-server/src/instanceRegistry.ts:289-293 | an update that begins with no write under way and is renamed brings its port to the file, where it stays until the next update or the unlink |
| InstancePort.NoUpdateKeepsFile | packages/kap-server/src/instanceRegistry.ts:279-284 | without updates, heartbeats and failures leave the registered port in the file until it is unlinked |
| InstancePort.StaleFileExample | packages/kap-server/src/instanceRegistry.ts:256-271 | when a heartbeat begins before an update and is renamed after it, the file is left with the old port |
| Hooks.OrderedHookSlot.Register | packages/agent-core-v2/src/hooks.ts:43-68 | the new list and the result are those of removing the id and inserting at the place asked for; ids and identities stay distinct |
| Hooks.OrderedHookSlot.Delete | packages/agent-core-v2/src/hooks.ts:70-75 | the entry of the id, if any, is removed and nothing else |
| Hooks.OrderedHookSlot.Dispose | packages/agent-core-v2/src/hooks.ts:83-89 | the very entry registered is removed, if it is still there |
| Hooks.OrderedHookSlot.Run | packages/agent-core-v2/src/hooks.ts:91-108 | whatever each invocation of a handler does, the terminal function receives the contexts that the entries at the start of the run determine, and the slot ends as the registrations, deletions and disposals of all invocations, in their order, leave it |
| Hooks.OrderedHookSlot.DispatchAt | packages/agent-core-v2/src/hooks.ts:96-106 | one call of `next` runs the rest of the snapshot with the override, or with the context of the caller, and changes the slot only by what the handlers reached do to it |
| Hooks.RunOfCalls | packages/agent-core-v2/src/hooks.ts:96-106 | a run is, for each call of `next` that the first handler makes, in order, the run of the rest with the override of the call, or with the handler's context; with no handler left the terminal function gets the context |
| Hooks.ActsOfCalls | packages/agent-core-v2/src/hooks.ts:91-108 | the slot is changed by the first handler before, between and after its calls of `next`, and in each call by the handlers behind it |
| HookSchedule.AnyScheduleReceives | packages/agent-core-v2/src/hooks.ts:91-108 | in whatever order overlapping calls of `next` are taken up, once none is left the terminal function has received each context as often as in the run one after the other |
| HookSchedule.TakeUpWorks | packages/agent-core-v2/src/hooks.ts:91-108 | every call taken up brings the run one step nearer to its end, so every schedule ends |
| Hooks.RegisterKeepsValid | packages/agent-core-v2/src/hooks.ts:43-68 | a registration keeps ids pairwise distinct |
| Hooks.RegisterContents | packages/agent-core-v2/src/hooks.ts:43-68 | after a registration the entries are those of other ids and the new one, if it was registered; naming both positions changes nothing |
| Hooks.DeleteContents | packages/agent-core-v2/src/hooks.ts:70-75 | a deletion removes exactly the entry of the id |
| Hooks.DisposeContents | packages/agent-core-v2/src/hooks.ts:83-89 | a disposal removes exactly the entry of the registration |
| Hooks.DisposeUndoes | packages/agent-core-v2/src/hooks.ts:83-89 | disposing a registration at once restores the list, but for an earlier entry of its id |
| Hooks.ChangeContents | packages/agent-core-v2/src/hooks.ts:43-89 | the entries after any change that a handler makes |
| Hooks.OthersKeepOrder | packages/agent-core-v2/src/hooks.ts:43-68 | other entries stay registered in the same relative order |
| Hooks.RegisteredPlace | packages/agent-core-v2/src/hooks.ts:54-67 | the entry stands last, or right next to its target on the side asked for |
| Hooks.TargetMissingIff | packages/agent-core-v2/src/hooks.ts:52-63 | a registration finds its target missing if and only if the target is its own id or was not registered before |
| Hooks.MissingTargetDrops | packages/agent-core-v2/src/hooks.ts:52-63 | such a registration leaves the slot unchanged if and only if the id was not registered before |
| Hooks.MissingTargetExample | packages/agent-core-v2/src/hooks.ts:52-63 | registering `a` again before a missing `z` throws and leaves a slot that held only `a` empty |
| Hooks.SupersededIsGone | packages/agent-core-v2/src/hooks.ts:83-89 | registering an id again removes the entry that held it, so disposing that one then changes nothing |
| Hooks.SupersededForGood | packages/agent-core-v2/src/hooks.ts:83-89 | it changes nothing after any later registrations, deletions and disposals either |
| Hooks.TerminalCount | packages/agent-core-v2/src/hooks.ts:91-108 | the terminal function runs as often as the product of the handlers' calls of `next`, if these do not depend on contexts |
| Hooks.TerminalContexts | packages/agent-core-v2/src/hooks.ts:96-106 | it receives a context if and only if some path, of one call number for each handler, ends with that context as the last override that the handlers pass on it |
| PromptActivity.V2Session.OnPrompt | packages/acp-server/src/index.ts:911-917 | a prompt is refused while the flag is on, and turns it on otherwise |
| PromptActivity.V2Session.OnMessageFailed | packages/acp-server/src/index.ts:927-930 | a failed user message turns the flag off without an announcement, whoever had turned it on |
| PromptActivity.V2Session.OnTurnStarted | packages/acp-server/src/index.ts:768-769 | a started turn turns the flag on, also when its prompt is settled already |
| PromptActivity.V2Session.OnTurnEnded | packages/acp-server/src/index.ts:775-778 | an ended turn is announced if the flag is on, and turns it off |
| PromptActivity.V2Session.OnPromptResolved | packages/acp-server/src/index.ts:933-941 | a resolved prompt turns the flag off and is announced if the flag is on, and does nothing otherwise |
| PromptActivity.V2Session.OnPromptRejected | packages/acp-server/src/index.ts:942-950 | a rejected prompt turns the flag off and is announced if the flag is on, and does nothing otherwise |
| PromptActivity.V2Session.OnCancelArrived | packages/acp-server/src/index.ts:954-956 | a cancellation first waits for the adapter; the flag stays as it is |
| PromptActivity.V2Session.OnCancelResumed | packages/acp-server/src/index.ts:957-960 | a cancellation, once the adapter has cancelled, turns the flag off and is announced if the flag is on |
| PromptActivity.EndsFlip | packages/acp-server/src/index.ts:766-961 | every end, announced or by a failed message, turns the flag from on to off, one at a time |
| PromptActivity.EndsOfRun | packages/acp-server/src/index.ts:766-961 | over every run the activity is ended by exactly the actions that find the flag on and turn it off, once each and in order, each recorded as what it is |
| PromptActivity.ActivationsBalance | packages/acp-server/src/index.ts:766-961 | over every interleaving, activations are exactly the ends and the one still going on, so no two announcements lack an activation between |
| PromptActivity.FlagIsOnSince | packages/acp-server/src/index.ts:766-961 | the flag is on if and only if some action has turned it on and none has turned it off since |
| PromptActivity.SafeToAcceptIff | packages/acp-server/src/index.ts:911-961 | an idle session that accepts a new prompt never ends its activity by the message, the outcome or the turn of another prompt, nor by a cancellation or a turn from before the prompt, whatever happens until the next prompt, if and only if nothing from before is under way: no message, unsettled prompt, turn, turn still to start, or cancellation |
| PromptActivity.OneAtATimeAttributes | packages/acp-server/src/index.ts:766-961 | over a whole run in which prompts are accepted only while nothing is under way, the activity of every prompt is ended only by its own message, outcome or turn, or by a cancellation or a turn that began after it was accepted |
| PromptActivity.StaleTurnExample | packages/acp-server/src/index.ts:775-778 | when the next prompt starts before the turn of a cancelled one has ended, that turn is announced as the end of the next |
| PromptActivity.StaleOutcomeExample | packages/acp-server/src/index.ts:938-940 | when the next prompt starts before a cancelled one is settled, the outcome of the cancelled one is announced as the end of the next |
| PromptActivity.StaleCancelExample | packages/acp-server/src/index.ts:954-961 | when a prompt ends and the next one starts before a cancellation of the first goes on, the cancellation is announced as the end of the next |

## Left out

- Files, SFTP, child processes and streams: a file is its bytes, reading it forwards gives its non-empty chunks, and a
  directory tree is a finite map; files do not change while they are read.
- `TextDecoder` is library behaviour; `StrictLines` takes its `strict` mode as the Encoding Standard defines it. Its
  `replace` mode, and the tail in `strict` mode, are not part of the model.
- Reads in the backward scan are full blocks, as the source assumes; a short read there is not modelled.
- Bit operations are written as division, remainder and multiplication; `DecodeAt`, `EmitAt`, `CompleteLine`,
  `KeepRest`, `ScanChunk` and `FinishScan` are bodies of source loops as methods of their own.
- Case-insensitive globs, and the regular-expression engine itself: the language of a pattern is modelled, not its search.
- Paths are sequences of names; joining and normalising strings, and the entries `.` and `..` of SFTP listings, are not
  part of the model. The walks are functions over the finite map, as they do not change state.
- A listing that names an entry a directory is never a link, so that the SSH walk over listings always ends.
- Directories without an inode number are modelled as having no key; the walk over them is only defined where they lie on
  no cycle among themselves, since there the source's walk does not end.
- The shell reader covers words, quoting, `&&`, assignments and reserved words; expansions, other operators and aliases
  are outside it, and no printed command needs them.
- In `generate`: abort signals, tracing, timing, callbacks, usage and the wording of errors.
- In `runTurnBody`: the wording of messages, logging, delivery failures of single notifications, two prompts at a time on
  one session, replay of history, and the window in which a cancellation precedes the turn.
- Tool arguments and outputs arrive as their JSON text; how an arbitrary value becomes text is library behaviour. Titles,
  kinds, raw input and raw output of tool calls are not part of the model.
- In the instance registry: the other fields of the file, the sweep of stale files, and listing.
- Hooks.OrderedHookSlot.Run: every handler waits for its calls of `next`, which overlap only in `HookSchedule`. Handlers
  that throw, and calls of `next` after the run is over, are not modelled.
- PromptActivity.OneAtATimeAttributes: a turn that the session starts by itself while a prompt is active counts as that
  prompt's, and its end as the end of the prompt. A prompt has one turn of its own; any further turn counts as one that
  started without a prompt. That no turn of a prompt will start any more is a fact about the adapter.
- ExecCommand.PrintedTokens: a NUL character in an argument or a value is read as any other character, while no shell
  passes it on.
- In the v2 server: message ids and their content, replay, and what the announcements say besides their cause.
- Option builders, status formatting, sorting, paging, configuration and user interfaces would add only easy members.
