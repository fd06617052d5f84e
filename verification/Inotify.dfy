/** The event queue of the file notifier: processing the creation of a directory
    adds a watch and may put more events on the queue that is being drained. */
module Inotify {
  import opened Wrappers

  // ---------------------------------------------------------------- the directory tree

  datatype Node = File | Other | Directory(entries: seq<Entry>)
  datatype Entry = Entry(name: string, node: Node)

  /** A normalized path, by its components. */
  type Path = seq<string>

  function Find(entries: seq<Entry>, name: string): Option<Node> {
    if entries == [] then None
    else
      var n := |entries| - 1;
      if entries[n].name == name then Some(entries[n].node) else Find(entries[..n], name)
  }

  /** What is at a path. */
  function At(root: Node, path: Path): Option<Node>
    decreases |path|
  {
    if path == [] then Some(root)
    else
      var n := |path| - 1;
      var above := At(root, path[..n]);
      if above.Some? && above.value.Directory? then Find(above.value.entries, path[n]) else None
  }

  predicate DistinctNames(entries: seq<Entry>) {
    forall i, j | 0 <= i < j < |entries| :: entries[i].name != entries[j].name
  }

  /** Every name occurs once in its directory. */
  ghost predicate WellFormed(t: Node) {
    t.Directory? ==> DistinctNames(t.entries) && forall e | e in t.entries :: WellFormed(e.node)
  }

  lemma {:induction false} FindIs(entries: seq<Entry>, i: nat)
    requires i < |entries| && DistinctNames(entries)
    ensures Find(entries, entries[i].name) == Some(entries[i].node)
  {
    if i < |entries| - 1 {
      FindIs(entries[..|entries| - 1], i);
    }
  }

  lemma {:induction false} FoundIsEntry(entries: seq<Entry>, name: string)
    ensures Find(entries, name).Some? ==> Entry(name, Find(entries, name).value) in entries
  {
    if entries != [] {
      var n := |entries| - 1;
      FoundIsEntry(entries[..n], name);
      assert entries[n] == Entry(entries[n].name, entries[n].node);
    }
  }

  lemma {:induction false} PartsWellFormed(root: Node, path: Path)
    requires WellFormed(root)
    ensures At(root, path).Some? ==> WellFormed(At(root, path).value)
    decreases |path|
  {
    if path != [] {
      var n := |path| - 1;
      PartsWellFormed(root, path[..n]);
      var above := At(root, path[..n]);
      if above.Some? && above.value.Directory? {
        FoundIsEntry(above.value.entries, path[n]);
      }
    }
  }

  lemma AtEntry(root: Node, path: Path, i: nat)
    requires At(root, path).Some? && At(root, path).value.Directory? && i < |At(root, path).value.entries|
    requires DistinctNames(At(root, path).value.entries)
    ensures At(root, path + [At(root, path).value.entries[i].name]) == Some(At(root, path).value.entries[i].node)
  {
    var entries := At(root, path).value.entries;
    var longer := path + [entries[i].name];
    assert longer[..|longer| - 1] == path;
    FindIs(entries, i);
  }

  function Size(t: Node): nat
    decreases t
  {
    if t.Directory? then 1 + SizeAll(t.entries) else 1
  }

  function SizeAll(entries: seq<Entry>): nat
    decreases entries
  {
    if entries == [] then 0
    else SizeAll(entries[..|entries| - 1]) + Size(entries[|entries| - 1].node)
  }

  /** The directories from at down that can be reached through directories that
      are neither excluded nor refused by the kernel. */
  ghost function Coverage(t: Node, at: Path, closed: set<Path>): set<Path>
    decreases t
  {
    if t.Directory? && at !in closed then {at} + CoverageAll(t.entries, at, closed) else {}
  }

  ghost function CoverageAll(entries: seq<Entry>, at: Path, closed: set<Path>): set<Path>
    decreases entries
  {
    if entries == [] then {}
    else
      var n := |entries| - 1;
      CoverageAll(entries[..n], at, closed) + Coverage(entries[n].node, at + [entries[n].name], closed)
  }

  /** p is a directory, and so is everything from at down to it, all of it open. */
  ghost predicate Open(root: Node, closed: set<Path>, at: Path, p: Path) {
    at <= p && forall i | |at| <= i <= |p| :: OpenDirectory(root, closed, p[..i])
  }

  predicate OpenDirectory(root: Node, closed: set<Path>, p: Path) {
    At(root, p).Some? && At(root, p).value.Directory? && p !in closed
  }

  lemma {:induction false} CoverageAllIs(entries: seq<Entry>, at: Path, closed: set<Path>, p: Path)
    ensures p in CoverageAll(entries, at, closed) <==>
            exists i :: 0 <= i < |entries| && p in Coverage(entries[i].node, at + [entries[i].name], closed)
  {
    if entries != [] {
      CoverageAllIs(entries[..|entries| - 1], at, closed, p);
    }
  }

  lemma OpenStep(root: Node, closed: set<Path>, at: Path, p: Path, name: string)
    requires OpenDirectory(root, closed, at) && Open(root, closed, at + [name], p)
    ensures Open(root, closed, at, p)
  {
    forall i | |at| <= i <= |p| ensures OpenDirectory(root, closed, p[..i]) {
      if i == |at| {
        assert p[..i] == (at + [name])[..i] == at;
      }
    }
  }

  lemma OpenNext(root: Node, closed: set<Path>, at: Path, p: Path)
    requires Open(root, closed, at, p) && |p| > |at|
    ensures OpenDirectory(root, closed, at + [p[|at|]]) && Open(root, closed, at + [p[|at|]], p)
  {
    var n := |at|;
    assert p[..n + 1] == at + [p[n]];
    assert OpenDirectory(root, closed, p[..n + 1]);
  }

  /** What is covered is what can be reached. */
  lemma {:induction false} CoverageMeans(root: Node, at: Path, t: Node, closed: set<Path>, p: Path)
    requires WellFormed(root) && At(root, at) == Some(t)
    ensures p in Coverage(t, at, closed) <==> Open(root, closed, at, p)
    decreases t
  {
    assert at <= p ==> p[..|at|] == at;
    assert Open(root, closed, at, p) ==> OpenDirectory(root, closed, p[..|at|]);
    if OpenDirectory(root, closed, at) {
      PartsWellFormed(root, at);
      CoverageAllIs(t.entries, at, closed, p);
      forall i | 0 <= i < |t.entries|
        ensures p in Coverage(t.entries[i].node, at + [t.entries[i].name], closed) <==>
                Open(root, closed, at + [t.entries[i].name], p)
      {
        AtEntry(root, at, i);
        CoverageMeans(root, at + [t.entries[i].name], t.entries[i].node, closed, p);
      }
      if p in Coverage(t, at, closed) && p != at {
        var i :| 0 <= i < |t.entries| && p in Coverage(t.entries[i].node, at + [t.entries[i].name], closed);
        OpenStep(root, closed, at, p, t.entries[i].name);
      }
      if Open(root, closed, at, p) && p != at {
        CoveredNext(root, at, t, closed, p);
      }
    }
  }

  lemma CoveredNext(root: Node, at: Path, t: Node, closed: set<Path>, p: Path)
    requires At(root, at) == Some(t) && t.Directory? && DistinctNames(t.entries)
    requires Open(root, closed, at, p) && p != at
    ensures exists i :: 0 <= i < |t.entries| && Open(root, closed, at + [t.entries[i].name], p)
  {
    OpenNext(root, closed, at, p);
    var name := p[|at|];
    var next := at + [name];
    assert next[..|next| - 1] == at;
    FoundIsEntry(t.entries, name);
    var i :| 0 <= i < |t.entries| && t.entries[i] == Entry(name, Find(t.entries, name).value);
    assert Open(root, closed, at + [t.entries[i].name], p);
  }
}
