/**
 * gometalint.go: running gometalinter over the workspace and turning each line
 * of its standard output, `file:line:column:severity:message`, into a comment
 * record. The program itself is a Tool object: a function from the binary name
 * and the argument list to the captured standard output, with a ghost log of
 * the runs made so far.
 */
module Gometalint {
  import opened Wrappers
  import opened GoStrings

  const Bin := "gometalinter.v2"

  /** The linters every run enables; the caller's arguments come after them. */
  const DefaultArgs: seq<string> := [
    "--disable-all", "--enable=dupl", "--enable=gas",
    "--enable=gofmt", "--enable=goimports", "--enable=lll", "--enable=misspell"
  ]

  /** The external program: what it prints for a call, and which calls were made. */
  class Tool {
    const output: (string, seq<string>) -> string
    ghost var runs: seq<(string, seq<string>)>

    constructor (output: (string, seq<string>) -> string)
      ensures this.output == output && runs == []
    {
      this.output := output;
      runs := [];
    }

    /** exec.Command(bin, args...).Output(): the captured standard output, one run logged. */
    method Run(bin: string, args: seq<string>) returns (out: string)
      modifies this
      ensures out == output(bin, args)
      ensures runs == old(runs) + [(bin, args)]
    {
      out := output(bin, args);
      runs := runs + [(bin, args)];
    }
  }

  /** One diagnostic as read from the tool; the column is not kept. */
  datatype Comment = Comment(level: string, file: string, lino: int, text: string)

  /** The line format the tool prints, with the line number given as text. */
  function FormatLine(file: string, line: string, column: string, severity: string, message: string): string {
    file + ":" + line + ":" + column + ":" + severity + ":" + message
  }

  /**
   * The body of the scanner loop for one line: split into at most five
   * colon-separated fields, skip the line when there are fewer, skip it when
   * the second field is not an integer for strconv.Atoi.
   */
  function ParseLine(line: string): Option<Comment> {
    var sp := SplitN(line, ":", 5);
    if |sp| != 5 then None
    else
      match Atoi(sp[1])
      case None => None
      case Some(lino) => Some(Comment(sp[3], sp[0], lino, sp[4]))
  }

  /** The comments one line contributes: none or one. */
  function Accepted(line: string): seq<Comment> {
    match ParseLine(line)
    case None => []
    case Some(c) => [c]
  }

  /** The comments of a sequence of lines, in line order. */
  function ParseLines(lines: seq<string>): (r: seq<Comment>)
    ensures |r| <= |lines|
  {
    if lines == [] then []
    else ParseLines(lines[..|lines| - 1]) + Accepted(lines[|lines| - 1])
  }

  /** What RunGometalinter returns for the captured output `out`: at most one comment per character, none for empty output. */
  function ParseOutput(out: string): (r: seq<Comment>)
    ensures |r| <= |out|
  {
    ParseLines(ScanLines(out))
  }

  /**
   * RunGometalinter: prepends the default arguments to a fresh copy of the
   * caller's, runs the tool (its exit status is ignored) and parses its output
   * line by line.
   */
  method RunGometalinter(args: seq<string>, gometalinter: Tool)
    returns (comments: seq<Comment>)
    modifies gometalinter
    ensures comments == ParseOutput(gometalinter.output(Bin, DefaultArgs + args))
    ensures gometalinter.runs == old(gometalinter.runs) + [(Bin, DefaultArgs + args)]
  {
    var dArgs := DefaultArgs;
    var withDefaults := dArgs + args;
    var out := gometalinter.Run(Bin, withDefaults);
    var lines := ScanLines(out);
    comments := [];
    var i := 0;
    while i < |lines|
      invariant 0 <= i <= |lines|
      invariant comments == ParseLines(lines[..i])
    {
      var text := lines[i];
      i := i + 1;
      assert lines[..i][..i - 1] == lines[..i - 1] && lines[..i][i - 1] == text;
      assert ParseLines(lines[..i]) == ParseLines(lines[..i - 1]) + Accepted(text);
      var sp := SplitN(text, ":", 5);
      if |sp| != 5 {
        assert Accepted(text) == [];
        continue;
      }
      var file, line, severity, msg := sp[0], sp[1], sp[3], sp[4];
      var c := Comment(severity, file, 0, msg);
      var lino := Atoi(line);
      if lino.None? {
        assert Accepted(text) == [];
        continue;
      }
      c := c.(lino := lino.value);
      assert Accepted(text) == [c];
      comments := comments + [c];
    }
    assert lines[..i] == lines;
  }

  /** Parsing a line in the tool's format reads back its fields; the message may hold colons. */
  lemma ParseFormattedLine(file: string, line: string, column: string, severity: string, message: string)
    requires ':' !in file && ':' !in line && ':' !in column && ':' !in severity
    ensures ParseLine(FormatLine(file, line, column, severity, message)) ==
      match Atoi(line)
      case None => None
      case Some(n) => Some(Comment(severity, file, n, message))
  {
    var parts := [file, line, column, severity, message];
    forall i | 0 <= i < 4
      ensures NoEarlyMatch(parts[i], ":")
    {
      NoEarlyMatchChar(parts[i], ':');
    }
    JoinFields(parts);
    SplitNJoin(parts, ":");
  }

  /** Every line number strconv.Itoa prints is read back, negative ones included. */
  lemma ParseLineReadsNumber(file: string, lino: int, column: string, severity: string, message: string)
    requires ':' !in file && ':' !in column && ':' !in severity
    ensures ParseLine(FormatLine(file, Itoa(lino), column, severity, message)) ==
      Some(Comment(severity, file, lino, message))
  {
    var num := Itoa(lino);
    ParseFormattedLine(file, num, column, severity, message);
  }

  /** An accepted line is exactly a line in the tool's format whose second field is an integer. */
  lemma ParsedLineShape(line: string)
    requires ParseLine(line).Some?
    ensures var c := ParseLine(line).value;
      exists num, column ::
        ':' !in c.file && ':' !in num && ':' !in column && ':' !in c.level
        && Atoi(num) == Some(c.lino)
        && line == FormatLine(c.file, num, column, c.level, c.text)
  {
    var sp := SplitN(line, ":", 5);
    assert |sp| == 5;
    var c := ParseLine(line).value;
    assert c == Comment(sp[3], sp[0], c.lino, sp[4]);
    ContainsChar(sp[0], ':');
    ContainsChar(sp[1], ':');
    ContainsChar(sp[2], ':');
    ContainsChar(sp[3], ':');
    JoinFields(sp);
    assert line == FormatLine(sp[0], sp[1], sp[2], sp[3], sp[4]);
    assert Atoi(sp[1]) == Some(c.lino);
  }

  /** Five fields joined with colons are a line in the tool's format. */
  lemma JoinFields(sp: seq<string>)
    requires |sp| == 5
    ensures Join(sp, ":") == FormatLine(sp[0], sp[1], sp[2], sp[3], sp[4])
  {
    assert Join(sp[4..], ":") == sp[4];
    assert Join(sp[3..], ":") == sp[3] + ":" + sp[4];
    assert Join(sp[2..], ":") == sp[2] + ":" + (sp[3] + ":" + sp[4]);
    assert Join(sp[1..], ":") == sp[1] + ":" + (sp[2] + ":" + (sp[3] + ":" + sp[4]));
  }

  /** A line with fewer than four colons is skipped. */
  lemma ShortLineSkipped(line: string)
    requires Count(line, ':') < 4
    ensures ParseLine(line) == None
  {
    SplitNCount(line, ':', 5);
  }

  /** Lines are parsed independently and their comments concatenated in order. */
  lemma {:induction false} ParseLinesConcat(a: seq<string>, b: seq<string>)
    ensures ParseLines(a + b) == ParseLines(a) + ParseLines(b)
    decreases |b|
  {
    if b == [] {
      assert a + b == a;
    } else {
      var b' := b[..|b| - 1];
      assert (a + b)[..|a + b| - 1] == a + b';
      ParseLinesConcat(a, b');
    }
  }

  /** A skipped line contributes nothing and parsing carries on with the next one. */
  lemma SkippedLine(before: seq<string>, line: string, after: seq<string>)
    requires ParseLine(line) == None
    ensures ParseLines(before + [line] + after) == ParseLines(before) + ParseLines(after)
  {
    assert [line][..0] == [];
    assert ParseLines([line]) == ParseLines([]) + Accepted(line);
    assert ParseLines([line]) == [];
    ParseLinesConcat(before, [line]);
    assert ParseLines(before + [line]) == ParseLines(before);
    ParseLinesConcat(before + [line], after);
  }

  /** Output printed as newline-terminated lines parses line by line. */
  lemma ParseTerminatedOutput(lines: seq<string>)
    requires forall i :: 0 <= i < |lines| ==> PlainLine(lines[i])
    ensures ParseOutput(Terminated(lines)) == ParseLines(lines)
  {
    ScanTerminated(lines);
  }
}
