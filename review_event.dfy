/**
 * NotifyReviewEvent of analyzer.go: pull the changed files, save them flat
 * into the workspace, run gometalinter once over the workspace and hand back
 * its diagnostics with every flat name turned back into a repository path.
 *
 * The data service, the temporary directory and the file writes are inputs:
 * the stream of changes is given as the sequence of outcomes the loop meets
 * before io.EOF, the workspace as the directory name TempDir returned, and
 * the tool as a Gometalint.Tool whose ghost log records every run.
 */
module ReviewEvent {
  import opened Wrappers
  import opened GoStrings
  import GoPath
  import PathCodec
  import LinterOptions
  import Gometalint

  /** The analyzer's own settings: its version and the arguments it always passes. */
  datatype Analyzer = Analyzer(version: string, args: seq<string>)

  /** What one changes.Recv() before io.EOF led to. */
  datatype Received =
    | RecvFailed   // Recv returned an error: logged and skipped
    | NoHead       // the change has no head file: skipped
    | SaveFailed   // the head file could not be written: counted as found only
    | Saved        // the head file was written into the workspace

  /** One comment of the response: a repository path, a line and a message. */
  datatype PbComment = PbComment(file: string, line: int, text: string)

  datatype EventResponse = EventResponse(analyzerVersion: string, comments: seq<PbComment>)

  /** Head files the stream delivered. */
  function CountFound(rs: seq<Received>): nat {
    if rs == [] then 0
    else CountFound(rs[..|rs| - 1]) + (if rs[|rs| - 1] in {SaveFailed, Saved} then 1 else 0)
  }

  /** Head files that reached the workspace; never more than were found. */
  function CountSaved(rs: seq<Received>): (n: nat)
    ensures n <= CountFound(rs)
    ensures n <= |rs|
  {
    if rs == [] then 0
    else CountSaved(rs[..|rs| - 1]) + (if rs[|rs| - 1] == Saved then 1 else 0)
  }

  /**
   * The arguments the analyzer hands to RunGometalinter: its own, then the
   * workspace, then the flags derived from the review configuration.
   */
  function ToolArguments(a: Analyzer, tmp: string, config: map<string, LinterOptions.Value>): seq<string> {
    a.args + [tmp] + LinterOptions.LinterFlags(config)
  }

  /** Reverting the file and the message of a comment does not panic. */
  predicate Translatable(c: Gometalint.Comment, tmp: string) {
    PathCodec.Revertible(c.file, tmp) && PathCodec.TextRevertible(c.text, tmp)
  }

  function TranslateComment(c: Gometalint.Comment, tmp: string): PbComment
    requires Translatable(c, tmp)
  {
    PbComment(PathCodec.RevertOriginalPath(c.file, tmp), c.lino, PathCodec.RevertedText(c.text, tmp))
  }

  /** One response comment per tool comment, in the tool's order. */
  function TranslateComments(cs: seq<Gometalint.Comment>, tmp: string): (r: seq<PbComment>)
    requires forall i :: 0 <= i < |cs| ==> Translatable(cs[i], tmp)
    ensures |r| == |cs|
  {
    if cs == [] then []
    else TranslateComments(cs[..|cs| - 1], tmp) + [TranslateComment(cs[|cs| - 1], tmp)]
  }

  /** The i-th response comment is the i-th tool comment, translated. */
  lemma {:induction false} TranslateCommentsPointwise(cs: seq<Gometalint.Comment>, tmp: string)
    requires forall i :: 0 <= i < |cs| ==> Translatable(cs[i], tmp)
    ensures forall i :: 0 <= i < |cs| ==> TranslateComments(cs, tmp)[i] == TranslateComment(cs[i], tmp)
  {
    if cs != [] {
      var init := cs[..|cs| - 1];
      TranslateCommentsPointwise(init, tmp);
      forall i | 0 <= i < |cs|
        ensures TranslateComments(cs, tmp)[i] == TranslateComment(cs[i], tmp)
      {
        if i < |init| {
          assert cs[i] == init[i];
        }
      }
    }
  }

  /** The comments the tool reports for this configuration and workspace. */
  function ToolComments(a: Analyzer, tmp: string, config: map<string, LinterOptions.Value>,
                        gometalinter: (string, seq<string>) -> string): seq<Gometalint.Comment>
  {
    Gometalint.ParseOutput(gometalinter(Gometalint.Bin, Gometalint.DefaultArgs + ToolArguments(a, tmp, config)))
  }

  /** What the code demands so that no comment panics while being translated. */
  predicate ToolOutputTranslatable(a: Analyzer, tmp: string, config: map<string, LinterOptions.Value>,
                                   gometalinter: (string, seq<string>) -> string)
  {
    var cs := ToolComments(a, tmp, config, gometalinter);
    forall i :: 0 <= i < |cs| ==> Translatable(cs[i], tmp)
  }

  /**
   * NotifyReviewEvent. A failing GetChanges or TempDir is returned as an error
   * (None) before the tool is run. When no file was saved the tool is not run
   * and the response holds only the version. Otherwise the tool is run exactly
   * once and the response holds one translated comment per diagnostic.
   */
  method NotifyReviewEvent(a: Analyzer, configuration: map<string, LinterOptions.Value>,
                           changes: Option<seq<Received>>, tmpDir: Option<string>,
                           gometalinter: Gometalint.Tool)
    returns (resp: Option<EventResponse>)
    requires changes.Some? && tmpDir.Some? && CountSaved(changes.value) > 0 ==>
      ToolOutputTranslatable(a, tmpDir.value, configuration, gometalinter.output)
    modifies gometalinter
    ensures changes.None? || tmpDir.None? ==> resp.None? && gometalinter.runs == old(gometalinter.runs)
    ensures changes.Some? && tmpDir.Some? && CountSaved(changes.value) == 0 ==>
      resp == Some(EventResponse(a.version, [])) && gometalinter.runs == old(gometalinter.runs)
    ensures changes.Some? && tmpDir.Some? && CountSaved(changes.value) > 0 ==>
      var args := Gometalint.DefaultArgs + ToolArguments(a, tmpDir.value, configuration);
      gometalinter.runs == old(gometalinter.runs) + [(Gometalint.Bin, args)] &&
      resp == Some(EventResponse(a.version,
        TranslateComments(ToolComments(a, tmpDir.value, configuration, gometalinter.output), tmpDir.value)))
  {
    if changes.None? {
      return None;
    }
    if tmpDir.None? {
      return None;
    }
    var stream, tmp := changes.value, tmpDir.value;

    var found, saved := CountFiles(stream);

    if saved == 0 {
      return Some(EventResponse(a.version, []));
    }

    var flags := LinterOptions.LinterArguments(configuration);
    var withArgs := a.args + [tmp] + flags;
    assert withArgs == ToolArguments(a, tmp, configuration);
    var comments := Gometalint.RunGometalinter(withArgs, gometalinter);
    assert comments == ToolComments(a, tmp, configuration, gometalinter.output);
    var allComments := TranslateAll(comments, tmp);
    resp := Some(EventResponse(a.version, allComments));
  }

  /** The receive loop: counts the head files found and those saved. */
  method CountFiles(stream: seq<Received>) returns (found: nat, saved: nat)
    ensures found == CountFound(stream) && saved == CountSaved(stream)
    ensures saved <= found
  {
    found, saved := 0, 0;
    for k := 0 to |stream|
      invariant found == CountFound(stream[..k]) && saved == CountSaved(stream[..k])
    {
      assert stream[..k + 1][..k] == stream[..k];
      var change := stream[k];
      if change == RecvFailed || change == NoHead {
        continue;
      }
      if change == Saved {
        saved := saved + 1;
      }
      found := found + 1;
    }
    assert stream[..|stream|] == stream;
  }

  /** The translation loop: one comment per diagnostic, file and message reverted. */
  method TranslateAll(comments: seq<Gometalint.Comment>, tmp: string) returns (allComments: seq<PbComment>)
    requires forall i :: 0 <= i < |comments| ==> Translatable(comments[i], tmp)
    ensures allComments == TranslateComments(comments, tmp)
  {
    allComments := [];
    for i := 0 to |comments|
      invariant allComments == TranslateComments(comments[..i], tmp)
    {
      assert comments[..i + 1][..i] == comments[..i];
      var comment := comments[i];
      var origPathFile := PathCodec.RevertOriginalPath(comment.file, tmp);
      var origPathText := PathCodec.RevertOriginalPathIn(comment.text, tmp);
      allComments := allComments + [PbComment(origPathFile, comment.lino, origPathText)];
    }
    assert comments[..|comments|] == comments;
  }

  /**
   * The tool sees its default flags, then the analyzer's own arguments, then
   * the workspace, and after it only line-length flags.
   */
  lemma ToolArgumentsLayout(a: Analyzer, tmp: string, config: map<string, LinterOptions.Value>)
    ensures var args := Gometalint.DefaultArgs + ToolArguments(a, tmp, config);
      var w := |Gometalint.DefaultArgs| + |a.args|;
      w < |args| && args[..|Gometalint.DefaultArgs|] == Gometalint.DefaultArgs &&
      args[|Gometalint.DefaultArgs|..w] == a.args && args[w] == tmp &&
      forall j :: w < j < |args| ==> LinterOptions.LineLengthFlag(args[j])
  {
    var args := Gometalint.DefaultArgs + ToolArguments(a, tmp, config);
    var w := |Gometalint.DefaultArgs| + |a.args|;
    var flags := LinterOptions.LinterFlags(config);
    LinterOptions.LinterFlagsAreLineLengths(config);
    forall j | w < j < |args|
      ensures LinterOptions.LineLengthFlag(args[j])
    {
      assert args[j] == flags[j - w - 1];
    }
  }

  /**
   * A diagnostic the tool prints against the flat copy of a repository file
   * becomes a comment on that repository file, on the same line, with every
   * flat name in its message restored.
   */
  lemma TranslateDiagnostic(file: string, tmp: string, lino: int, column: string, severity: string,
                            words: seq<string>, orig: seq<string>)
    requires PathCodec.IsRepoPath(file) && PathCodec.NoTripleUnderscore(file) && GoPath.IsCleanPath(tmp)
    requires ':' !in tmp && ':' !in file && ':' !in column && ':' !in severity
    requires |orig| == |words|
    requires forall i :: 0 <= i < |words| ==> words[i] != "" && NoSpace(words[i])
    requires forall i :: 0 <= i < |words| ==>
      (!PathCodec.Marked(words[i]) && orig[i] == words[i]) ||
      (PathCodec.Marked(words[i]) && PathCodec.IsRepoPath(orig[i]) && PathCodec.NoTripleUnderscore(orig[i]) &&
       words[i] == PathCodec.FlattenPath(orig[i], tmp))
    ensures var line := Gometalint.FormatLine(PathCodec.FlattenPath(file, tmp), Itoa(lino), column, severity,
                                             Join(words, " "));
      Gometalint.ParseLine(line).Some? && Translatable(Gometalint.ParseLine(line).value, tmp) &&
      TranslateComment(Gometalint.ParseLine(line).value, tmp) == PbComment(file, lino, Join(orig, " "))
  {
    var flat := PathCodec.FlattenPath(file, tmp);
    var name := ReplaceAll(file, '/', PathCodec.ArtificialSep);
    PathCodec.FlattenPathInWorkspace(file, tmp);
    assert flat == tmp + "/" + name;
    assert ':' !in name;
    assert ':' !in flat;
    Gometalint.ParseLineReadsNumber(flat, lino, column, severity, Join(words, " "));
    PathCodec.RevertFlattenPath(file, tmp);
    PathCodec.RevertMessage(words, orig, tmp);
  }
}
