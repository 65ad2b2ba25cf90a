/**
 * Go's `path` package for slash-separated paths: Clean and Join. Clean is
 * modelled by its documented lexical rules applied segment by segment
 * (collapse repeated slashes, drop `.`, let `..` remove the segment before it,
 * drop `..` at the root, return `.` for an empty result) rather than by the
 * byte loop that implements them.
 */
module GoPath {
  import GoStrings

  /** A path element that Clean leaves alone: not empty, no slash, not `.` or `..`. */
  predicate CleanSegment(seg: string) {
    seg != "" && '/' !in seg && seg != "." && seg != ".."
  }

  predicate CleanSegments(segs: seq<string>) {
    forall i :: 0 <= i < |segs| ==> CleanSegment(segs[i])
  }

  /** A path made of clean segments only, rooted or relative. */
  predicate IsCleanPath(p: string) {
    if p != "" && p[0] == '/' then CleanSegments(GoStrings.Split(p[1..], "/"))
    else CleanSegments(GoStrings.Split(p, "/"))
  }

  /** Clean's treatment of one segment, given the segments kept so far. */
  function Step(kept: seq<string>, seg: string, rooted: bool): seq<string> {
    if seg == "" || seg == "." then kept
    else if seg == ".." then
      if |kept| > 0 && kept[|kept| - 1] != ".." then kept[..|kept| - 1]
      else if rooted then kept
      else kept + [".."]
    else kept + [seg]
  }

  function Resolve(kept: seq<string>, segs: seq<string>, rooted: bool): seq<string>
    decreases |segs|
  {
    if segs == [] then kept else Resolve(Step(kept, segs[0], rooted), segs[1..], rooted)
  }

  /** path.Clean */
  function Clean(p: string): (r: string)
    ensures r != ""
  {
    if p == "" then "."
    else
      var rooted := p[0] == '/';
      var body := GoStrings.Join(Resolve([], GoStrings.Split(p, "/"), rooted), "/");
      if rooted then "/" + body else if body == "" then "." else body
  }

  /** path.Join: skips leading empty elements, joins the rest with slashes and cleans. */
  function Join(elems: seq<string>): string {
    if elems == [] then ""
    else if elems[0] != "" then Clean(GoStrings.Join(elems, "/"))
    else Join(elems[1..])
  }

  /** Clean segments pass through Clean's rules unchanged. */
  lemma {:induction false} ResolveClean(kept: seq<string>, segs: seq<string>, rooted: bool)
    requires CleanSegments(segs)
    ensures Resolve(kept, segs, rooted) == kept + segs
    decreases |segs|
  {
    if segs != [] {
      ResolveClean(kept + [segs[0]], segs[1..], rooted);
      assert kept + [segs[0]] + segs[1..] == kept + segs;
    }
  }

  lemma SlashFree(segs: seq<string>)
    requires CleanSegments(segs)
    ensures forall i :: 0 <= i < |segs| ==> GoStrings.NoEarlyMatch(segs[i], "/")
  {
    forall i | 0 <= i < |segs|
      ensures GoStrings.NoEarlyMatch(segs[i], "/")
    {
      GoStrings.NoEarlyMatchChar(segs[i], '/');
    }
  }

  /** Splitting a path built from clean segments gives the segments back. */
  lemma SplitCleanSegments(segs: seq<string>)
    requires |segs| >= 1 && CleanSegments(segs)
    ensures GoStrings.Split(GoStrings.Join(segs, "/"), "/") == segs
    ensures GoStrings.Split("/" + GoStrings.Join(segs, "/"), "/") == [""] + segs
  {
    SlashFree(segs);
    GoStrings.SplitJoin(segs, "/");
    SplitRootedSegments(segs);
  }

  lemma SplitRootedSegments(segs: seq<string>)
    requires |segs| >= 1 && CleanSegments(segs)
    ensures GoStrings.Split("/" + GoStrings.Join(segs, "/"), "/") == [""] + segs
  {
    SlashFree(segs);
    var rooted := [""] + segs;
    assert rooted[1..] == segs;
    assert GoStrings.Join(rooted, "/") == "/" + GoStrings.Join(segs, "/");
    forall i | 0 <= i < |rooted|
      ensures GoStrings.NoEarlyMatch(rooted[i], "/")
    {
      if i > 0 {
        assert rooted[i] == segs[i - 1];
      }
    }
    GoStrings.SplitJoin(rooted, "/");
  }

  lemma CleanRooted(segs: seq<string>)
    requires |segs| >= 1 && CleanSegments(segs)
    ensures Clean("/" + GoStrings.Join(segs, "/")) == "/" + GoStrings.Join(segs, "/")
  {
    var p := "/" + GoStrings.Join(segs, "/");
    SplitCleanSegments(segs);
    var all := [""] + segs;
    assert GoStrings.Split(p, "/") == all;
    assert all[0] == "" && all[1..] == segs;
    assert Resolve([], all, true) == Resolve([], segs, true);
    ResolveClean([], segs, true);
    assert Resolve([], segs, true) == segs;
    assert p != "" && p[0] == '/';
  }

  lemma CleanRelative(segs: seq<string>)
    requires |segs| >= 1 && CleanSegments(segs)
    ensures Clean(GoStrings.Join(segs, "/")) == GoStrings.Join(segs, "/")
  {
    var p := GoStrings.Join(segs, "/");
    SplitCleanSegments(segs);
    assert GoStrings.Split(p, "/") == segs;
    ResolveClean([], segs, false);
    assert Resolve([], segs, false) == segs;
    GoStrings.JoinHead(segs, "/");
    assert p != "" && p[0] != '/';
  }

  /** Clean is the identity on clean paths. */
  lemma CleanFixesCleanPath(p: string)
    requires IsCleanPath(p)
    ensures Clean(p) == p
  {
    if p != "" && p[0] == '/' {
      var segs := GoStrings.Split(p[1..], "/");
      assert p == "/" + GoStrings.Join(segs, "/");
      CleanRooted(segs);
    } else {
      CleanRelative(GoStrings.Split(p, "/"));
    }
  }

  /** Appending a clean segment to a clean path keeps it clean. */
  lemma ExtendCleanPath(dir: string, name: string)
    requires IsCleanPath(dir) && CleanSegment(name)
    ensures IsCleanPath(dir + "/" + name)
  {
    var p := dir + "/" + name;
    if dir != "" && dir[0] == '/' {
      var segs := GoStrings.Split(dir[1..], "/");
      var segs' := segs + [name];
      assert CleanSegments(segs');
      GoStrings.JoinAppend(segs, "/", name);
      assert p[1..] == dir[1..] + "/" + name;
      assert p[1..] == GoStrings.Join(segs', "/");
      SplitCleanSegments(segs');
      assert GoStrings.Split(p[1..], "/") == segs';
    } else {
      var segs := GoStrings.Split(dir, "/");
      var segs' := segs + [name];
      assert CleanSegments(segs');
      GoStrings.JoinAppend(segs, "/", name);
      assert p == GoStrings.Join(segs', "/");
      SplitCleanSegments(segs');
      assert GoStrings.Split(p, "/") == segs';
      assert p[0] == dir[0];
    }
  }

  /** Joining a clean directory and a clean file name just puts a slash between them. */
  lemma JoinCleanName(dir: string, name: string)
    requires IsCleanPath(dir) && CleanSegment(name)
    ensures Join([dir, name]) == dir + "/" + name
    ensures IsCleanPath(dir + "/" + name)
  {
    var p := dir + "/" + name;
    assert GoStrings.Join([dir, name], "/") == p;
    ExtendCleanPath(dir, name);
    CleanFixesCleanPath(p);
  }
}
