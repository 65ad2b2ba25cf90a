# lookout gometalint analyzer: path codec, output parser and option flags

This project is a Dafny model of the core of the gometalint analyzer for
lookout. For each review event the analyzer:

- saves every changed Go file into one flat temporary workspace;
- runs `gometalinter.v2` over that workspace;
- turns each line of the tool's output into a comment on the original
  repository file.

To keep the workspace flat, each `/` of a repository path is replaced by the
marker `___.___` (`flattenPath`). The diagnostics are then turned back into
repository paths in two places: the file field (`revertOriginalPath`) and every
word of the message that carries the marker (`revertOriginalPathIn`).

The model has six modules:

- `GoStrings` (`go_strings.dfy`) holds the Go library functions the code relies
  on, written as Dafny functions with their own contracts:
  - from `strings`: `Index`, `Split`, `SplitN`, `Join`, `TrimLeft`, `Fields`;
  - `strconv.Atoi` and `strconv.Itoa`;
  - the line splitting of `bufio.Scanner`.
- `GoPath` (`go_path.dfy`) holds `path.Clean` and `path.Join`.
- `PathCodec` (`analyzer_codec.dfy`) holds `artificialSep`, `flattenPath`,
  `revertOriginalPath` and `revertOriginalPathIn`.
- `Gometalint` (`gometalint.dfy`) holds `RunGometalinter`: the argument list,
  and the loop that parses the tool's standard output.
- `LinterOptions` (`linter_options.dfy`) holds the `lll`/`maxLen` table and
  `linterArguments`.
- `ReviewEvent` (`review_event.dfy`) holds `NotifyReviewEvent`: the receive
  loop that counts found and saved files, the `saved == 0` short cut, the tool
  arguments, and the comment-translation loop.

Loops in the Go code are Dafny methods with loop invariants. Each method is
proved equal to a specification function. The properties are proved as
lemmas about those functions.

The main results:

- **Round trip.** A clean relative path whose segments never hold `___` comes
  back unchanged: `revertOriginalPath(flattenPath(p, tmp), tmp) == p` when `tmp`
  is a clean directory.
- **Injectivity.** Under the same condition, two distinct paths never share a
  flat name.
- **Marker-freeness is not enough.** Two marker-free paths can collide:
  `x___.__/y` and `x/__.___y` flatten to the same name, which reverts to
  `x/__.___y`.
- **Messages.** A message made of plain words and flat names comes back with
  the repository paths restored and every other word unchanged.
- **Parsing.** A line printed in the tool's format parses back into its fields.
  A negative line number is accepted. Short lines are skipped. Lines are parsed
  independently, in order.
- **Option flags.** Every flag from the configuration is a `--line-length=N`
  with `N >= 1`. The configurations of the package's own tests give the
  results those tests expect.
- **Review event.** With no saved file the tool's run log is unchanged and the
  response is empty. Otherwise the log gains exactly one run, with the
  assembled arguments, and the response holds one translated comment per
  diagnostic, in order.

Where the documented design and the code differ, the model follows the code:

- The tool's argument list is `DefaultArgs ++ a.Args ++ [tmp] ++ linterFlags`.
  The workspace is not the last argument (analyzer.go:125, gometalint.go:29-30).
- The line-number field goes through `strconv.Atoi`, so a signed or negative
  number is accepted (gometalint.go:50).
- The error from running the tool is dropped (gometalint.go:32). A tool that
  cannot be started is just a tool whose output yields no comments; nothing is
  reported to the caller.
- Marker-bearing words of a message are reverted with the workspace directory
  as their anchor, exactly like the file field (analyzer.go:173).
- Every change with a head file counts as found and is written, whatever its
  content. A failed write counts as found only (analyzer.go:103-113).
- The round trip and injectivity need more than marker-free paths: no segment
  may hold `___` (see `PathCodec.MarkerFreePathsCollide`).
- `revertOriginalPath` does not need `tmp` to occur in its input. It only needs
  the slice at analyzer.go:157 to stay in range. When `tmp` is absent,
  `strings.Index` gives -1 and the code reverts from offset `len(tmp) - 1`
  (`PathCodec.RevertWithoutWorkspace`; the model counts that offset in
  characters, see "Left out").

## Model

| member | source | states |
|---|---|---|
| GoStrings.Split | analyzer.go:149 | strings.Split on a non-empty separator gives at least one piece. Joining the pieces with the separator gives the input back, and no piece contains the separator. |
| GoStrings.SplitJoin | analyzer.go:159 | Splitting a join gives the parts back when no separator can start inside a part and run into the separator that follows it. |
| GoStrings.SplitN | gometalint.go:38 | strings.SplitN gives between 1 and n pieces that join back to the input. Only the last piece may contain the separator, and only when n pieces were made. |
| GoStrings.SplitNJoin | gometalint.go:38 | SplitN into n pieces of a join of n parts gives the parts back when no separator can start early inside the first n-1 parts. The last part may contain the separator. |
| GoStrings.JoinSplitIsReplaceAll | analyzer.go:149 | Splitting on a character and joining with a string replaces every occurrence of that character. |
| GoStrings.TrimLeftDropsPrefix | analyzer.go:158-160 | strings.TrimLeft with one cutset character removes a leading run of that character and nothing else. The result does not start with it. |
| GoStrings.FieldsOfJoin | analyzer.go:171 | strings.Fields of non-empty, space-free words joined by single spaces gives the words back. |
| GoStrings.FieldContainsImpliesText | analyzer.go:167-172 | A field that contains a non-empty string means the whole text contains it. |
| GoStrings.Itoa | analyzer.go:63 | The decimal text of an integer (%d) is non-empty and strconv.Atoi reads it back as the same integer. |
| GoStrings.ScanTerminated | gometalint.go:36-37 | The scanner's line splitting gives back newline-terminated lines without carriage returns. |
| GoStrings.SplitNCount | gometalint.go:38-39 | SplitN on a character makes one more piece than there are occurrences of that character, capped at n. |
| GoPath.CleanFixesCleanPath | analyzer.go:150 | path.Clean leaves a path made of clean segments unchanged. |
| GoPath.JoinCleanName | analyzer.go:150 | path.Join of a clean directory and a clean element is the directory, a slash and the element, and is again clean. |
| PathCodec.FlattenPath | analyzer.go:147-152 | The flat path is path.Join of the workspace and the file with every `/` replaced by the marker. |
| PathCodec.FlatNameIsSegment | analyzer.go:149 | The flat name of a clean repository path is a single clean path element. It has no `/` at all. |
| PathCodec.FlattenPathInWorkspace | analyzer.go:148-152 | For a clean workspace the flat path is the workspace, a slash and the flat name. |
| PathCodec.FlattenTopLevelFile | analyzer.go:148-152 | A file without `/` is saved as `tmp/file`. |
| PathCodec.RevertOriginalPath | analyzer.go:154-162 | Requires only that the slice at line 157 is in range, as the code does. The result never starts with `/`. |
| PathCodec.MarkerStartsAfterSegment | analyzer.go:159 | In a piece without `___`, the left-most split on the marker cannot cut early. |
| PathCodec.RevertInWorkspace | analyzer.go:157-160 | For a file directly inside the workspace, only the part after the workspace is reverted. |
| PathCodec.RevertFlatName | analyzer.go:159-160 | The flat name of clean segments without `___` reverts to the segments joined by `/`. |
| PathCodec.RevertFlattenPath | analyzer.go:147-162 | Round trip: the flat path of a clean repository path without `___` in any segment is revertible and reverts to that path. |
| PathCodec.FlattenPathInjective | analyzer.go:148-152 | Two distinct clean paths without `___` in any segment have distinct flat paths. |
| PathCodec.MarkerFreePathsCollide | analyzer.go:148-152 | `x___.__/y` and `x/__.___y` hold no marker yet flatten to the same path. |
| PathCodec.MarkerFreePathMisreverted | analyzer.go:155-161 | Reverting the flat path of `x___.__/y` gives `x/__.___y`, a different path. |
| PathCodec.RevertDropsPrefix | analyzer.go:157 | Everything before the first occurrence of the workspace is ignored. |
| PathCodec.RevertWithoutWorkspace | analyzer.go:157 | When the workspace does not occur, the code reverts from offset `len(tmp) - 1` as if the workspace were empty there. |
| PathCodec.RevertOriginalPathIn | analyzer.go:164-178 | Text without the marker is returned unchanged. Otherwise the result is its fields with marked ones reverted, joined by single spaces. |
| PathCodec.RevertWords | analyzer.go:170-176 | One word out per word in, in the same order, each passed through the per-word rule. |
| PathCodec.RevertMessage | analyzer.go:164-178 | A message of plain words and flat paths of clean repository paths reverts to the same words with those paths restored. |
| PathCodec.PlainWord | analyzer.go:172 | A word without `___` is never rewritten. |
| Gometalint.Tool.Run | gometalint.go:32 | Running the tool returns its output for that binary and argument list and logs exactly that one run. |
| Gometalint.RunGometalinter | gometalint.go:28-61 | The tool is run exactly once, with the default arguments followed by the caller's. The result is the parse of its output, line by line. |
| Gometalint.ParseOutput | gometalint.go:35-60 | There are never more comments than output characters, so empty output gives none. |
| Gometalint.ParseLines | gometalint.go:37-58 | Each line contributes at most one comment. |
| Gometalint.ParseFormattedLine | gometalint.go:38-57 | A line `file:line:column:severity:message` with colon-free leading fields parses to that file, severity and message. The line number is Atoi's reading. The message may hold colons. |
| Gometalint.ParseLineReadsNumber | gometalint.go:50-56 | Any integer printed in the line-number field is read back, negative ones included. |
| Gometalint.ParsedLineShape | gometalint.go:38-57 | Every accepted line has exactly the tool's five-field shape around the comment it yields. |
| Gometalint.ShortLineSkipped | gometalint.go:38-42 | A line with fewer than four colons yields no comment. |
| Gometalint.SkippedLine | gometalint.go:38-54 | A rejected line is dropped and the lines around it parse as if it were absent. |
| Gometalint.ParseLinesConcat | gometalint.go:37-58 | Lines are parsed independently. Comments come out in line order. |
| Gometalint.ParseTerminatedOutput | gometalint.go:36-37 | Output of newline-terminated lines parses line by line. |
| LinterOptions.LineLengthArgument | analyzer.go:36-64 | A non-empty result is `--line-length=N` for an N >= 1 the value denotes: an Atoi string or a whole number. An empty result means the value denotes no N >= 1. |
| LinterOptions.LineLengthOfText | analyzer.go:36-64 | maxLen given as the decimal text of N >= 1, or as the number N, yields `--line-length=N`. |
| LinterOptions.LineLengthBelowOne | analyzer.go:59-61 | A value denoting a number below 1 yields no flag. |
| LinterOptions.LinterArguments | analyzer.go:192-254 | The nested loops compute the flags of every entry of the `linters` list, in order. |
| LinterOptions.EntryArguments | analyzer.go:210-251 | One turn of the loop adds the flags of that entry: nothing for a nil or non-struct entry, a missing or nil name, or an unknown linter. |
| LinterOptions.KnownLinter | analyzer.go:226-232 | The search over lintersOptions answers true exactly when the name is a key. |
| LinterOptions.OptionArguments | analyzer.go:238-250 | The loop over a linter's options collects, in order, the non-empty flags of the options present and not nil. |
| LinterOptions.LinterFlagsAreLineLengths | analyzer.go:192-254 | Every flag produced for any configuration is `--line-length=N` with N >= 1. |
| LinterOptions.EntriesFlagsConcat | analyzer.go:210-251 | The flags of a list are the flags of its parts, in list order. |
| LinterOptions.LllEntryFlags | analyzer.go:220-250 | An `lll` entry yields exactly the flag its maxLen gives. It yields nothing when maxLen is absent or the flag is empty. |
| LinterOptions.ArgsEmpty | analyzer_test.go:11-56 | Each of the following yields no flags: an empty configuration, an empty list, an unknown linter, `lll` without maxLen, a non-numeric maxLen, and maxLen 120.1. |
| LinterOptions.ArgsCorrect | analyzer_test.go:58-77 | maxLen "120" and maxLen 120 both yield exactly `--line-length=120`. |
| ReviewEvent.CountSaved | analyzer.go:91-114 | Saved files never outnumber found files. |
| ReviewEvent.CountFiles | analyzer.go:91-114 | The receive loop counts the head files found and saved, and saved <= found. |
| ReviewEvent.TranslateComments | analyzer.go:127-138 | One response comment per diagnostic. |
| ReviewEvent.TranslateCommentsPointwise | analyzer.go:128-136 | The i-th comment is the i-th diagnostic with its file and text reverted and its line copied. |
| ReviewEvent.TranslateAll | analyzer.go:127-138 | The translation loop computes exactly the translated comments, in order. |
| ReviewEvent.NotifyReviewEvent | analyzer.go:68-145 | GetChanges or TempDir failure gives an error. No saved file gives a response with no comments and leaves the tool's run log unchanged. Otherwise the log gains exactly one run, on `DefaultArgs ++ a.Args ++ [tmp] ++ flags`, and every diagnostic of that run's output is translated. |
| ReviewEvent.ToolArgumentsLayout | analyzer.go:125 | The tool sees its default flags, then the analyzer's arguments, then the workspace, and after it only line-length flags. |
| ReviewEvent.TranslateDiagnostic | analyzer.go:128-135 | A diagnostic printed against the flat copy of a repository file becomes a comment on that file at the same line, with flat paths in its message restored. |

## Left out

- GetChanges, the Recv stream, TempDir, RemoveAll and the file writes of
  `saveTo` are I/O. The model takes three inputs instead: the outcome of each
  Recv before io.EOF, the directory TempDir returned (or its failure), and
  whether each write succeeded.
- `exec.Command(...).Output()` is a function parameter from binary and
  arguments to standard output. Exit status, stderr, timeouts and cancellation
  are not modelled.
- All logging is left out. It has no effect on results.
- bufio.Scanner's 64 KiB line limit is left out. A longer line would stop the
  Go scanner early, but the model keeps scanning.
- NotifyPushEvent is left out. It always returns an empty response and is not
  part of the modelled core.
- The gRPC server, cmd/gometalint-analyzer/main.go and
  cmd/gometalint-proxy/main.go are glue and are not part of this model.
- LinterOptions.LineLengthArgument: a number is a finite Dafny `real`.
  - NaN and infinities are not represented. `math.Modf` gives them a non-zero
    fraction, so the code refuses them too.
  - Float rounding is not modelled.
  - Wrap-around of `int(intpart)` for huge values is not modelled.
- GoStrings.Atoi does not model the out-of-range error for values beyond
  64 bits. Any digit string is accepted.
- Go map iteration order in `linterArguments` is not modelled. Each linter's
  options are a sequence, which is fully determined with the single `lll`
  option.
- Slices are values in the model, so two aliasing effects are absent:
  - `append(a.Args, tmp)` may share a.Args's backing array;
  - DefaultArgs is copied before appending.
- A struct or list Value that holds a nil pointer is not a separate case.
- The protobuf comment's line field is an unbounded integer.
- Strings are sequences of Unicode code points, not bytes. Index and slice
  offsets therefore count characters. Where `tmp` occurs in the text, the
  searches and slices used here give the same strings as Go's byte offsets.
- PathCodec.RevertOriginalPath: when `tmp` does not occur, Go slices from byte
  offset `len(tmp) - 1` and panics when that exceeds the text's byte length.
  The model counts code points, so for non-ASCII text the offset, the result
  and the panic condition can differ.
- PathCodec.RevertWithoutWorkspace: states the absent-`tmp` case with the
  offset counted in code points, for the same reason; it matches Go only when
  `tmp` and the text are ASCII.
- `os.PathSeparator` is fixed to `/`.
- ReviewEvent.NotifyReviewEvent requires that every diagnostic's file and
  marked words can be reverted. Otherwise the Go code would panic on an
  out-of-range slice.
