/** The two ways main.go turns names into paths on disk: filepath.Join, which the
    handler uses before every os.Stat (main.go:275, 291, 322, 329), and the rooted
    cleaning http.FileServer applies to the URL path before serving it below its root
    (main.go:353). Both are modelled on lists of slash-separated segments. */
module Paths {
  import Strings

  /** A relative path as its list of segments. The working directory "." is []. The
      operations below are meant for clean paths (CleanPath), and keep them clean. */
  type Path = seq<string>

  /** A path as filepath.Clean leaves it: no segment is empty, "." or holds a slash, and
      ".." appears only at the front. */
  predicate CleanPath(p: Path) {
    && (forall i :: 0 <= i < |p| ==> p[i] != "" && p[i] != "." && '/' !in p[i])
    && (forall i, j :: 0 <= i < j < |p| && p[j] == ".." ==> p[i] == "..")
  }

  /** A segment that names an entry: not empty, not "." or "..", and without a slash. */
  predicate PlainName(s: string) {
    s != "" && s != "." && s != ".." && '/' !in s
  }

  /** A single path segment that names an entry. */
  type Name = s: string | PlainName(s) witness "index.html"

  /** One segment of filepath.Clean on a relative path: an empty segment or "." vanishes,
      ".." removes the last name (or stays when only ".." or nothing precedes it), and
      any other segment is appended. */
  function Step(dir: Path, seg: string): (p: Path)
    ensures p <= dir || p == dir + [seg]
    ensures CleanPath(dir) && '/' !in seg ==> CleanPath(p)
  {
    if seg == "" || seg == "." then dir
    else if seg == ".." then
      (if |dir| > 0 && dir[|dir| - 1] != ".." then dir[..|dir| - 1] else dir + [".."])
    else dir + [seg]
  }

  /** Cleaning a run of segments onto a clean directory, left to right. */
  function Extend(dir: Path, segs: seq<string>): (p: Path)
    ensures CleanPath(dir) && (forall i :: 0 <= i < |segs| ==> '/' !in segs[i]) ==> CleanPath(p)
    ensures |p| <= |dir| + |segs|
    decreases |segs|
  {
    if segs == [] then dir else Extend(Step(dir, segs[0]), segs[1..])
  }

  /** The slash-separated segments of several names, one after another. */
  function Segments(names: seq<string>): (segs: seq<string>)
    ensures forall i :: 0 <= i < |segs| ==> '/' !in segs[i]
  {
    if names == [] then [] else Strings.Split(names[0], '/') + Segments(names[1..])
  }

  /** filepath.Join(dir, names...): the names are joined on "/" after dir and the result
      is cleaned; empty names contribute nothing. */
  function JoinAll(dir: Path, names: seq<string>): (p: Path)
    ensures CleanPath(dir) ==> CleanPath(p)
  {
    Extend(dir, Segments(names))
  }

  /** filepath.Join(dir, name). A plain name is appended as one segment; anything else
      is split on "/" and cleaned onto dir (JoinIsClean shows the two agree). */
  function Join(dir: Path, name: string): (p: Path)
    ensures PlainName(name) ==> p == dir + [name]
    ensures CleanPath(dir) ==> CleanPath(p)
  {
    if PlainName(name) then dir + [name] else Extend(dir, Strings.Split(name, '/'))
  }

  /** Join is filepath.Join for every name: cleaning the name's segments onto dir. */
  lemma JoinIsClean(dir: Path, name: string)
    ensures Join(dir, name) == Extend(dir, Strings.Split(name, '/'))
  {
    if PlainName(name) {
      JoinPlain(dir, name);
    }
  }

  /** A plain name is a single segment that cleaning appends unchanged. */
  lemma JoinPlain(dir: Path, name: string)
    requires PlainName(name)
    ensures Extend(dir, Strings.Split(name, '/')) == dir + [name]
  {
    Strings.SplitOfPiece(name, '/');
    assert Step(dir, name) == dir + [name];
    assert [name][1..] == [];
    assert Extend(dir, [name]) == Extend(dir + [name], []);
  }

  /** Cleaning two runs in turn is cleaning their concatenation. */
  lemma {:induction false} ExtendAppend(dir: Path, a: seq<string>, b: seq<string>)
    ensures Extend(dir, a + b) == Extend(Extend(dir, a), b)
    decreases |a|
  {
    if a == [] {
      assert a + b == b;
    } else {
      assert (a + b)[0] == a[0];
      assert (a + b)[1..] == a[1..] + b;
      assert Extend(dir, a + b) == Extend(Step(dir, a[0]), a[1..] + b);
      assert Extend(dir, a) == Extend(Step(dir, a[0]), a[1..]);
      ExtendAppend(Step(dir, a[0]), a[1..], b);
    }
  }

  /** filepath.Join("./www", domain, "404.html") names the same path as joining
      "404.html" onto filepath.Join("./www", domain). */
  lemma JoinTwice(dir: Path, first: string, second: string)
    ensures JoinAll(dir, [first, second]) == Join(Join(dir, first), second)
  {
    assert [first, second][1..] == [second];
    assert [second][1..] == [];
    assert Segments([second]) == Strings.Split(second, '/') + Segments([]);
    assert Segments([second]) == Strings.Split(second, '/');
    assert Segments([first, second]) == Strings.Split(first, '/') + Segments([second]);
    JoinIsClean(dir, first);
    JoinIsClean(Join(dir, first), second);
    ExtendAppend(dir, Strings.Split(first, '/'), Strings.Split(second, '/'));
  }

  /** One segment of path.Clean on a rooted path: ".." at the root stays at the root. */
  function RootedStep(p: Path, seg: string): Path {
    if seg == "" || seg == "." then p
    else if seg == ".." then (if |p| > 0 then p[..|p| - 1] else p)
    else p + [seg]
  }

  /** Rooted cleaning of a run of segments: the result never holds a "..". */
  function RootedExtend(p: Path, segs: seq<string>): (r: Path)
    requires forall i :: 0 <= i < |p| ==> p[i] != ".."
    ensures forall i :: 0 <= i < |r| ==> r[i] != ".."
    decreases |segs|
  {
    if segs == [] then p else RootedExtend(RootedStep(p, segs[0]), segs[1..])
  }

  /** The file http.FileServer(http.Dir(root)) serves for a URL path: the path is cleaned
      as a rooted path, so no ".." survives, and the result is placed below root. */
  function FileServerPath(root: Path, urlPath: string): (p: Path)
    ensures root <= p
    ensures forall i :: |root| <= i < |p| ==> p[i] != ".."
  {
    root + RootedExtend([], Strings.Split(urlPath, '/'))
  }

  /** Without ".." segments, plain cleaning below p + q is rooted cleaning below q,
      placed after p. */
  lemma {:induction false} ExtendWithoutDotDot(p: Path, q: Path, segs: seq<string>)
    requires forall i :: 0 <= i < |q| ==> q[i] != ".."
    requires forall i :: 0 <= i < |segs| ==> segs[i] != ".."
    ensures Extend(p + q, segs) == p + RootedExtend(q, segs)
    decreases |segs|
  {
    if segs != [] {
      var q' := RootedStep(q, segs[0]);
      assert Step(p + q, segs[0]) == p + q';
      ExtendWithoutDotDot(p, q', segs[1..]);
    }
  }

  /** When the URL path has no ".." segment, the path the handler stats and the file the
      file server serves are the same. */
  lemma StatPathIsServedPath(root: Path, urlPath: string)
    requires forall i :: 0 <= i < |Strings.Split(urlPath, '/')| ==> Strings.Split(urlPath, '/')[i] != ".."
    ensures Join(root, urlPath) == FileServerPath(root, urlPath)
  {
    JoinIsClean(root, urlPath);
    ExtendWithoutDotDot(root, [], Strings.Split(urlPath, '/'));
    assert root + [] == root;
  }
}
