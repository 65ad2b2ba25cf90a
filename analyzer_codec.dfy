/**
 * The path codec of analyzer.go. Every changed file is saved in one flat
 * workspace directory under a name in which each `/` of its repository path
 * is replaced by a marker; the diagnostics the tool reports against those
 * names are turned back into repository paths, both in the file field and in
 * any word of the message text that carries the marker.
 */
module PathCodec {
  import opened GoStrings
  import GoPath

  /** The marker that stands for `/` inside a flat file name. */
  const ArtificialSep := "___.___"

  /** A relative repository path whose segments Clean leaves alone. */
  predicate IsRepoPath(p: string) {
    GoPath.CleanSegments(Split(p, "/"))
  }

  /** No segment of the path contains three underscores in a row. */
  predicate NoTripleUnderscore(p: string) {
    var segs := Split(p, "/");
    forall i :: 0 <= i < |segs| ==> !Contains(segs[i], "___")
  }

  /**
   * flattenPath: the file's flat name joined under the workspace directory.
   * The flat name is the path with every `/` replaced by the marker, so it
   * holds no `/` at all.
   */
  function FlattenPath(file: string, tmp: string): (r: string)
    ensures r == GoPath.Join([tmp, ReplaceAll(file, '/', ArtificialSep)])
  {
    JoinSplitIsReplaceAll(file, '/', ArtificialSep);
    var nFile := Join(Split(file, "/"), ArtificialSep);
    GoPath.Join([tmp, nFile])
  }

  /** The slice in revertOriginalPath stays inside `file` (otherwise Go panics). */
  predicate Revertible(file: string, tmp: string) {
    0 <= Index(file, tmp) + |tmp| <= |file|
  }

  /**
   * revertOriginalPath: drops everything up to and including the first
   * occurrence of the workspace directory, turns each marker back into `/`,
   * joins with path.Join and trims leading slashes.
   */
  function RevertOriginalPath(file: string, tmp: string): (r: string)
    requires Revertible(file, tmp)
    ensures r == "" || r[0] != '/'
  {
    var noTmpFile := file[Index(file, tmp) + |tmp|..];
    TrimLeft(GoPath.Join(Split(noTmpFile, ArtificialSep)), '/')
  }

  /** The flat name of a clean path is a single clean path element. */
  lemma FlatNameIsSegment(file: string)
    requires IsRepoPath(file)
    ensures GoPath.CleanSegment(ReplaceAll(file, '/', ArtificialSep))
  {
    var segs := Split(file, "/");
    var name := Join(segs, ArtificialSep);
    JoinSplitIsReplaceAll(file, '/', ArtificialSep);
    assert name == ReplaceAll(file, '/', ArtificialSep);
    JoinHead(segs, ArtificialSep);
    if |segs| > 1 {
      assert |name| >= |segs[0]| + |ArtificialSep|;
    }
  }

  /**
   * For a clean workspace directory and a clean repository path the flat file
   * lies directly inside the workspace: `tmp + "/" + name`.
   */
  lemma FlattenPathInWorkspace(file: string, tmp: string)
    requires IsRepoPath(file) && GoPath.IsCleanPath(tmp)
    ensures FlattenPath(file, tmp) == tmp + "/" + ReplaceAll(file, '/', ArtificialSep)
  {
    FlatNameIsSegment(file);
    GoPath.JoinCleanName(tmp, ReplaceAll(file, '/', ArtificialSep));
  }

  /** A path without `/` flattens to `tmp + "/" + file`. */
  lemma FlattenTopLevelFile(file: string, tmp: string)
    requires GoPath.CleanSegment(file) && GoPath.IsCleanPath(tmp)
    ensures FlattenPath(file, tmp) == tmp + "/" + file
  {
    NoEarlyMatchChar(file, '/');
    SplitJoin([file], "/");
    assert IsRepoPath(file);
    ReplaceAllAbsent(file, '/', ArtificialSep);
    FlattenPathInWorkspace(file, tmp);
  }

  /**
   * Without three underscores in a row, the marker cannot begin inside a
   * segment and run into the marker that follows it, so a left-most split on
   * the marker cuts exactly where the joins were.
   */
  lemma MarkerStartsAfterSegment(p: string)
    requires !Contains(p, "___")
    ensures NoEarlyMatch(p, ArtificialSep)
  {
    forall k | 0 <= k < |p|
      ensures !MatchAt(p + ArtificialSep, ArtificialSep, k)
    {
      var s := p + ArtificialSep;
      if MatchAt(s, ArtificialSep, k) {
        var w := s[k..k + 7];
        assert w == ArtificialSep;
        assert w[0] == s[k] && w[1] == s[k + 1] && w[2] == s[k + 2] && w[3] == s[k + 3];
        if k + 3 <= |p| {
          assert p[k..k + 3] == [p[k], p[k + 1], p[k + 2]];
          assert p[k..k + 3] == "___";
          ContainsAt(p, "___", k);
          assert false;
        }
      }
    }
  }

  lemma SlashPrefixKeepsNoTriple(seg: string)
    requires !Contains(seg, "___")
    ensures !Contains("/" + seg, "___")
  {
    if Contains("/" + seg, "___") {
      var k := Index("/" + seg, "___");
      assert ("/" + seg)[k] == '_';
      assert k >= 1;
      MatchAtShift("/", seg, "___", k - 1);
      ContainsAt(seg, "___", k - 1);
      assert false;
    }
  }

  /** The segments after the workspace prefix, as Split on the marker sees them. */
  lemma SplitFlatName(segs: seq<string>)
    requires |segs| >= 1
    requires forall i :: 0 <= i < |segs| ==> !Contains(segs[i], "___")
    ensures Split("/" + Join(segs, ArtificialSep), ArtificialSep) == ["/" + segs[0]] + segs[1..]
  {
    var pieces := ["/" + segs[0]] + segs[1..];
    PrependToJoin("/", segs, ArtificialSep);
    SlashPrefixKeepsNoTriple(segs[0]);
    forall i | 0 <= i < |pieces|
      ensures NoEarlyMatch(pieces[i], ArtificialSep)
    {
      if i == 0 {
        MarkerStartsAfterSegment("/" + segs[0]);
      } else {
        assert pieces[i] == segs[i];
        MarkerStartsAfterSegment(segs[i]);
      }
    }
    SplitJoin(pieces, ArtificialSep);
  }

  /** A file directly inside the workspace reverts from its name alone. */
  lemma RevertInWorkspace(tmp: string, name: string)
    ensures Revertible(tmp + "/" + name, tmp)
    ensures RevertOriginalPath(tmp + "/" + name, tmp)
      == TrimLeft(GoPath.Join(Split("/" + name, ArtificialSep)), '/')
  {
    var flat := tmp + "/" + name;
    assert flat == tmp + ("/" + name);
    assert MatchAt(flat, tmp, 0) by {
      assert flat[..|tmp|] == tmp;
    }
    ContainsAt(flat, tmp, 0);
    assert Index(flat, tmp) == 0;
    assert flat[|tmp|..] == "/" + name;
  }

  /** Reverting the flat name of clean segments without `___` rejoins them with `/`. */
  lemma RevertFlatName(segs: seq<string>)
    requires |segs| >= 1 && GoPath.CleanSegments(segs)
    requires forall i :: 0 <= i < |segs| ==> !Contains(segs[i], "___")
    ensures TrimLeft(GoPath.Join(Split("/" + Join(segs, ArtificialSep), ArtificialSep)), '/') == Join(segs, "/")
  {
    var file := Join(segs, "/");
    SplitFlatName(segs);
    var pieces := ["/" + segs[0]] + segs[1..];
    PrependToJoin("/", segs, "/");
    assert Join(pieces, "/") == "/" + file;
    GoPath.CleanRooted(segs);
    assert GoPath.Join(pieces) == "/" + file;
    JoinHead(segs, "/");
    assert file != "" && file[0] != '/';
    assert ("/" + file)[1..] == file;
    assert TrimLeft("/" + file, '/') == TrimLeft(file, '/');
  }

  /**
   * The round trip: reverting the flat name of a clean repository path, none
   * of whose segments holds `___`, under a clean workspace gives the path back.
   */
  lemma RevertFlattenPath(file: string, tmp: string)
    requires IsRepoPath(file) && NoTripleUnderscore(file) && GoPath.IsCleanPath(tmp)
    ensures Revertible(FlattenPath(file, tmp), tmp)
    ensures RevertOriginalPath(FlattenPath(file, tmp), tmp) == file
  {
    var segs := Split(file, "/");
    var name := Join(segs, ArtificialSep);
    JoinSplitIsReplaceAll(file, '/', ArtificialSep);
    FlattenPathInWorkspace(file, tmp);
    assert FlattenPath(file, tmp) == tmp + "/" + name;
    RevertInWorkspace(tmp, name);
    RevertFlatName(segs);
  }

  /** Two clean repository paths without `___` in any segment never share a flat name. */
  lemma FlattenPathInjective(p1: string, p2: string, tmp: string)
    requires IsRepoPath(p1) && NoTripleUnderscore(p1)
    requires IsRepoPath(p2) && NoTripleUnderscore(p2)
    requires GoPath.IsCleanPath(tmp)
    requires p1 != p2
    ensures FlattenPath(p1, tmp) != FlattenPath(p2, tmp)
  {
    RevertFlattenPath(p1, tmp);
    RevertFlattenPath(p2, tmp);
  }

  /**
   * Marker-free segments are not enough: `x___.__/y` and `x/__.___y` hold no
   * marker, yet both flatten to the same name, and the first does not come
   * back from the round trip.
   *
   * This lemma and its helpers below take the example strings as parameters
   * pinned by `requires`, so that the solver never evaluates Split or Index on
   * a string literal (which it cannot do within its resource budget).
   */
  lemma MarkerFreePathsCollide(p1: string, p2: string, tmp: string)
    requires p1 == "x___.__/y" && p2 == "x/__.___y"
    ensures p1 != p2
    ensures !Contains("x___.__", ArtificialSep) && !Contains("__.___y", ArtificialSep)
    ensures FlattenPath(p1, tmp) == FlattenPath(p2, tmp)
  {
    var a, b := "x___.__", "__.___y";
    assert p1[1] != p2[1];
    CollidingSegmentsMarkerFree(a, b);
    CollidingNamesAgree(p1, p2, a, b);
  }

  lemma CollidingSegmentsMarkerFree(a: string, b: string)
    requires a == "x___.__" && b == "__.___y"
    ensures !Contains(a, ArtificialSep) && !Contains(b, ArtificialSep)
  {
    assert !Contains(a, ArtificialSep) by {
      assert a[0] == 'x' && !MatchAt(a, ArtificialSep, 0);
    }
    assert !Contains(b, ArtificialSep) by {
      assert b[2] == '.' && !MatchAt(b, ArtificialSep, 0);
    }
  }

  lemma CollidingNamesAgree(p1: string, p2: string, a: string, b: string)
    requires p1 == "x___.__/y" && p2 == "x/__.___y" && a == "x___.__" && b == "__.___y"
    ensures ReplaceAll(p1, '/', ArtificialSep) == ReplaceAll(p2, '/', ArtificialSep)
  {
    FirstCollidingName(p1, a);
    SecondCollidingName(p2, a, b);
  }

  lemma FirstCollidingName(p1: string, a: string)
    requires p1 == "x___.__/y" && a == "x___.__"
    ensures ReplaceAll(p1, '/', ArtificialSep) == a + ArtificialSep + "y"
  {
    assert p1 == a + "/" + "y";
    ReplaceAtSlash(a, "y");
  }

  lemma SecondCollidingName(p2: string, a: string, b: string)
    requires p2 == "x/__.___y" && a == "x___.__" && b == "__.___y"
    ensures ReplaceAll(p2, '/', ArtificialSep) == a + ArtificialSep + "y"
  {
    assert p2 == "x" + "/" + b;
    ReplaceAtSlash("x", b);
    assert "x" + ArtificialSep + b == a + ArtificialSep + "y";
  }

  /** ... and reverting that shared name gives the second path, so the first does not round-trip. */
  lemma MarkerFreePathMisreverted(p1: string, p2: string, tmp: string)
    requires p1 == "x___.__/y" && p2 == "x/__.___y" && GoPath.IsCleanPath(tmp)
    ensures Revertible(FlattenPath(p1, tmp), tmp)
    ensures RevertOriginalPath(FlattenPath(p1, tmp), tmp) == p2 != p1
  {
    var x, b := "x", "__.___y";
    MarkerFreePathsCollide(p1, p2, tmp);
    var name := x + ArtificialSep + b;
    assert FlattenPath(p2, tmp) == tmp + "/" + name by {
      CollidingPathShape(p2, x, b, tmp);
    }
    RevertInWorkspace(tmp, name);
    assert TrimLeft(GoPath.Join(Split("/" + name, ArtificialSep)), '/') == p2 by {
      CollidingNameReverts(p2, x, b);
    }
  }

  lemma CollidingPathShape(p2: string, x: string, b: string, tmp: string)
    requires p2 == "x/__.___y" && x == "x" && b == "__.___y" && GoPath.IsCleanPath(tmp)
    ensures FlattenPath(p2, tmp) == tmp + "/" + (x + ArtificialSep + b)
  {
    assert p2 == Join([x, b], "/");
    assert GoPath.CleanSegments([x, b]);
    GoPath.SplitCleanSegments([x, b]);
    assert IsRepoPath(p2);
    ReplaceAtSlash(x, b);
    FlattenPathInWorkspace(p2, tmp);
  }

  lemma CollidingNameReverts(p2: string, x: string, b: string)
    requires p2 == "x/__.___y" && x == "x" && b == "__.___y"
    ensures TrimLeft(GoPath.Join(Split("/" + (x + ArtificialSep + b), ArtificialSep)), '/') == p2
  {
    CollidingNameSplits(x, b);
    CollidingPiecesJoin(p2, x, b);
  }

  lemma CollidingNameSplits(x: string, b: string)
    requires x == "x" && b == "__.___y"
    ensures Split("/" + (x + ArtificialSep + b), ArtificialSep) == ["/" + x, b]
  {
    var head := "/" + x;
    assert "/" + (x + ArtificialSep + b) == Join([head, b], ArtificialSep);
    assert !Contains(head, "___") by {
      assert |head| == 2;
    }
    MarkerStartsAfterSegment(head);
    assert NoEarlyMatch(b, ArtificialSep) by {
      var t := b + ArtificialSep;
      forall k | 0 <= k < |b|
        ensures !MatchAt(t, ArtificialSep, k)
      {
        assert t[k + 3] != '.';
        assert ArtificialSep[3] == '.';
      }
    }
    SplitJoin([head, b], ArtificialSep);
  }

  lemma CollidingPiecesJoin(p2: string, x: string, b: string)
    requires p2 == "x/__.___y" && x == "x" && b == "__.___y"
    ensures TrimLeft(GoPath.Join(["/" + x, b]), '/') == p2
  {
    assert GoPath.CleanSegment(x) && GoPath.CleanSegment(b);
    assert GoPath.CleanSegments([x, b]);
    assert Join(["/" + x, b], "/") == "/" + Join([x, b], "/");
    GoPath.CleanRooted([x, b]);
    assert Join([x, b], "/") == p2;
    assert GoPath.Join(["/" + x, b]) == "/" + p2;
    assert ("/" + p2)[1..] == p2;
  }

  lemma ReplaceAtSlash(a: string, b: string)
    requires '/' !in a && '/' !in b
    ensures ReplaceAll(a + "/" + b, '/', ArtificialSep) == a + ArtificialSep + b
  {
    ReplaceAllConcat(a + "/", b, '/', ArtificialSep);
    ReplaceAllConcat(a, "/", '/', ArtificialSep);
    ReplaceAllAbsent(a, '/', ArtificialSep);
    ReplaceAllAbsent(b, '/', ArtificialSep);
    assert ReplaceAll("/", '/', ArtificialSep) == ArtificialSep;
  }

  /**
   * Only what follows the first occurrence of the workspace directory matters:
   * any text before it is dropped.
   */
  lemma RevertDropsPrefix(prefix: string, tmp: string, rest: string)
    requires Index(prefix + tmp, tmp) == |prefix|
    ensures Revertible(prefix + tmp + rest, tmp) && Revertible(tmp + rest, tmp)
    ensures RevertOriginalPath(prefix + tmp + rest, tmp) == RevertOriginalPath(tmp + rest, tmp)
  {
    var s := prefix + tmp + rest;
    MatchAtExtend(prefix + tmp, rest, tmp, |prefix|);
    var i := Index(s, tmp);
    if i < |prefix| {
      MatchAtPrefix(prefix + tmp, rest, tmp, i);
      assert false;
    }
    assert s[|prefix| + |tmp|..] == rest;
    assert MatchAt(tmp + rest, tmp, 0) by {
      assert (tmp + rest)[..|tmp|] == tmp;
    }
    ContainsAt(tmp + rest, tmp, 0);
    assert (tmp + rest)[|tmp|..] == rest;
  }

  /**
   * When the workspace directory does not occur, strings.Index returns -1 and
   * the slice starts at `len(tmp) - 1`: the code reverts whatever follows
   * that offset, as if the first `len(tmp) - 1` characters were the workspace.
   */
  lemma RevertWithoutWorkspace(file: string, tmp: string)
    requires !Contains(file, tmp) && |tmp| - 1 <= |file|
    ensures tmp != "" && Revertible(file, tmp) && Revertible(file[|tmp| - 1..], "")
    ensures RevertOriginalPath(file, tmp) == RevertOriginalPath(file[|tmp| - 1..], "")
  {
    IndexOfEmpty(file);
    IndexOfEmpty(file[|tmp| - 1..]);
  }

  /** A word of a message that revertOriginalPathIn rewrites: it carries the marker. */
  predicate Marked(word: string) {
    Contains(word, ArtificialSep)
  }

  /** Every marked word can be reverted without the slice in revertOriginalPath panicking. */
  predicate WordsRevertible(words: seq<string>, tmp: string) {
    forall i :: 0 <= i < |words| ==> Marked(words[i]) ==> Revertible(words[i], tmp)
  }

  /** What revertOriginalPathIn demands of a message so that none of its words panics. */
  predicate TextRevertible(text: string, tmp: string) {
    Marked(text) ==> WordsRevertible(Fields(text), tmp)
  }

  function RevertWord(word: string, tmp: string): string
    requires Marked(word) ==> Revertible(word, tmp)
  {
    if Index(word, ArtificialSep) >= 0 then RevertOriginalPath(word, tmp) else word
  }

  /** The words of a message with every marked word reverted, in their order. */
  function RevertWords(words: seq<string>, tmp: string): (r: seq<string>)
    requires WordsRevertible(words, tmp)
    ensures |r| == |words|
    ensures forall i :: 0 <= i < |words| ==> r[i] == RevertWord(words[i], tmp)
  {
    if words == [] then []
    else
      var init := words[..|words| - 1];
      assert WordsRevertible(init, tmp) by {
        assert forall i :: 0 <= i < |init| ==> init[i] == words[i];
      }
      RevertWords(init, tmp) + [RevertWord(words[|words| - 1], tmp)]
  }

  /**
   * revertOriginalPathIn, as a value: a message without the marker is kept
   * verbatim; otherwise it is split into fields, the marked ones are reverted,
   * and the fields are joined with single spaces.
   */
  function RevertedText(text: string, tmp: string): string
    requires TextRevertible(text, tmp)
  {
    if !Marked(text) then text else Join(RevertWords(Fields(text), tmp), " ")
  }

  /**
   * revertOriginalPathIn. The code tests for the marker with strings.LastIndex,
   * which is negative exactly when the marker does not occur at all.
   */
  method RevertOriginalPathIn(text: string, tmp: string) returns (r: string)
    requires TextRevertible(text, tmp)
    ensures r == RevertedText(text, tmp)
    ensures !Marked(text) ==> r == text
    ensures Marked(text) ==> r == Join(RevertWords(Fields(text), tmp), " ")
  {
    if !Contains(text, ArtificialSep) {
      return text;
    }
    var fields := Fields(text);
    var words: seq<string> := [];
    for i := 0 to |fields|
      invariant |words| == i
      invariant forall j :: 0 <= j < i ==> words[j] == RevertWord(fields[j], tmp)
    {
      var word := fields[i];
      if Index(word, ArtificialSep) >= 0 {
        word := RevertOriginalPath(word, tmp);
      }
      words := words + [word];
    }
    assert words == RevertWords(fields, tmp);
    r := Join(words, " ");
  }

  /**
   * A message made of words, each either free of the marker or the flat name
   * of a clean repository path, comes back with those paths restored and every
   * other word unchanged.
   */
  lemma RevertMessage(words: seq<string>, orig: seq<string>, tmp: string)
    requires GoPath.IsCleanPath(tmp) && |orig| == |words|
    requires forall i :: 0 <= i < |words| ==> words[i] != "" && NoSpace(words[i])
    requires forall i :: 0 <= i < |words| ==>
      (!Marked(words[i]) && orig[i] == words[i]) ||
      (Marked(words[i]) && IsRepoPath(orig[i]) && NoTripleUnderscore(orig[i]) &&
       words[i] == FlattenPath(orig[i], tmp))
    ensures TextRevertible(Join(words, " "), tmp)
    ensures RevertedText(Join(words, " "), tmp) == Join(orig, " ")
  {
    var text := Join(words, " ");
    FieldsOfJoin(words);
    forall i | 0 <= i < |words| && Marked(words[i])
      ensures Revertible(words[i], tmp) && RevertWord(words[i], tmp) == orig[i]
    {
      RevertFlattenPath(orig[i], tmp);
    }
    if Marked(text) {
      assert RevertWords(words, tmp) == orig;
    } else {
      forall i | 0 <= i < |words|
        ensures !Marked(words[i])
      {
        if Marked(words[i]) {
          FieldContainsImpliesText(text, ArtificialSep);
        }
      }
      assert words == orig;
    }
  }

  /** A word holding the marker holds three underscores in a row. */
  lemma MarkedHasTriple(w: string)
    requires Marked(w)
    ensures Contains(w, "___")
  {
    var k := Index(w, ArtificialSep);
    assert w[k..k + 3] == w[k..k + 7][..3];
    ContainsAt(w, "___", k);
  }

  /** A word without three underscores in a row is left alone by revertOriginalPathIn. */
  lemma PlainWord(w: string)
    requires !Contains(w, "___")
    ensures !Marked(w)
  {
    if Marked(w) {
      MarkedHasTriple(w);
    }
  }
}
