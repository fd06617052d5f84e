/** Draining the event queue of the file notifier, where processing the creation
    of a directory adds a watch and may put more events on the queue. */
module Notifier {
  import opened Wrappers
  import opened Inotify

  /** A watch; the paths its filter excludes are handed down to the watches it adds. */
  datatype Watch = Watch(path: Path, autoAdd: bool, excluded: set<Path>)

  /** A raw creation event; isDir is the flag for directories. */
  datatype Event = Event(wd: nat, isDir: bool, name: string)

  type Watches = map<nat, Watch>

  /** What the event says was created. */
  function PathOf(wmd: Watches, e: Event): Path
    requires e.wd in wmd
  {
    wmd[e.wd].path + [e.name]
  }

  /** The event is about a directory in a directory that adds watches by itself. */
  predicate Adds(wmd: Watches, e: Event) {
    e.isDir && e.wd in wmd && wmd[e.wd].autoAdd
  }

  // ---------------------------------------------------------------- the measure

  function Weight(root: Node, wmd: Watches, e: Event): nat {
    if e.isDir && e.wd in wmd && At(root, PathOf(wmd, e)).Some? then Size(At(root, PathOf(wmd, e)).value) else 1
  }

  function QueueWeight(root: Node, wmd: Watches, q: seq<Event>): nat {
    if q == [] then 0 else QueueWeight(root, wmd, q[..|q| - 1]) + Weight(root, wmd, q[|q| - 1])
  }

  lemma {:induction false} QueueWeightAppend(root: Node, wmd: Watches, q: seq<Event>, r: seq<Event>)
    ensures QueueWeight(root, wmd, q + r) == QueueWeight(root, wmd, q) + QueueWeight(root, wmd, r)
  {
    if r == [] {
      assert q + r == q;
    } else {
      assert (q + r)[..|q + r| - 1] == q + r[..|r| - 1];
      QueueWeightAppend(root, wmd, q, r[..|r| - 1]);
    }
  }

  ghost predicate KnownBefore(q: seq<Event>, next: nat) {
    forall e | e in q :: e.wd < next
  }

  /** A watch on a path may be replaced; descriptors from next on may be new. */
  ghost predicate SamePaths(wmd: Watches, wmd': Watches, next: nat) {
    forall wd | wd < next :: (wd in wmd <==> wd in wmd') && (wd in wmd ==> wmd'[wd].path == wmd[wd].path)
  }

  lemma {:induction false} QueueWeightKept(root: Node, wmd: Watches, wmd': Watches, q: seq<Event>, next: nat)
    requires KnownBefore(q, next) && SamePaths(wmd, wmd', next)
    ensures QueueWeight(root, wmd', q) == QueueWeight(root, wmd, q)
  {
    if q != [] {
      assert forall e | e in q[..|q| - 1] :: e in q;
      QueueWeightKept(root, wmd, wmd', q[..|q| - 1], next);
      assert q[|q| - 1] in q;
    }
  }

  // ---------------------------------------------------------------- simulated events

  /** The creation events made up for what a new directory already holds. */
  function ChildEvents(wd: nat, entries: seq<Entry>, path: Path, watched: set<Path>): seq<Event> {
    if entries == [] then []
    else
      var n := |entries| - 1;
      var rest, e := ChildEvents(wd, entries[..n], path, watched), entries[n];
      if path + [e.name] in watched || e.node.Other? then rest else rest + [Event(wd, e.node.Directory?, e.name)]
  }

  lemma {:induction false} ChildEventsWeigh(root: Node, wmd: Watches, wd: nat, path: Path, t: Node, n: nat,
                                            watched: set<Path>)
    requires wd in wmd && wmd[wd].path == path
    requires At(root, path) == Some(t) && t.Directory? && DistinctNames(t.entries) && n <= |t.entries|
    ensures QueueWeight(root, wmd, ChildEvents(wd, t.entries[..n], path, watched)) <= SizeAll(t.entries[..n])
  {
    if n > 0 {
      var some, x := t.entries[..n], t.entries[n - 1];
      assert some[..n - 1] == t.entries[..n - 1] && some[n - 1] == x;
      ChildEventsWeigh(root, wmd, wd, path, t, n - 1, watched);
      ChildWeighs(root, wmd, wd, path, t, n - 1);
      LastWeight(root, wmd, ChildEvents(wd, some[..n - 1], path, watched), Event(wd, x.node.Directory?, x.name));
    }
  }

  /** The event made up for an entry weighs no more than the entry. */
  lemma ChildWeighs(root: Node, wmd: Watches, wd: nat, path: Path, t: Node, i: nat)
    requires wd in wmd && wmd[wd].path == path
    requires At(root, path) == Some(t) && t.Directory? && DistinctNames(t.entries) && i < |t.entries|
    ensures var x := t.entries[i];
            x.node.Other? || Weight(root, wmd, Event(wd, x.node.Directory?, x.name)) <= Size(x.node)
  {
    AtEntry(root, path, i);
  }

  lemma LastWeight(root: Node, wmd: Watches, q: seq<Event>, e: Event)
    ensures QueueWeight(root, wmd, q + [e]) == QueueWeight(root, wmd, q) + Weight(root, wmd, e)
  {
    assert (q + [e])[..|q + [e]| - 1] == q;
  }

  lemma OneWeight(root: Node, wmd: Watches, e: Event)
    ensures QueueWeight(root, wmd, [e]) == Weight(root, wmd, e)
  {
    assert [e][..0] == [];
  }

  /** Exactly the files and directories that are not watched yet get an event. */
  lemma {:induction false} ChildEventsAre(wd: nat, entries: seq<Entry>, path: Path, watched: set<Path>)
    ensures forall e :: e in ChildEvents(wd, entries, path, watched) <==>
              exists x | x in entries ::
                !x.node.Other? && path + [x.name] !in watched && e == Event(wd, x.node.Directory?, x.name)
  {
    if entries != [] {
      var n := |entries| - 1;
      ChildEventsAre(wd, entries[..n], path, watched);
      assert forall x :: x in entries <==> x in entries[..n] || x == entries[n];
    }
  }

  lemma ChildEventsKnown(wd: nat, entries: seq<Entry>, path: Path, watched: set<Path>)
    ensures forall e | e in ChildEvents(wd, entries, path, watched) ::
              && e.wd == wd && path + [e.name] !in watched
              && exists x :: x in entries && x.name == e.name && (e.isDir <==> x.node.Directory?)
  {
    ChildEventsAre(wd, entries, path, watched);
  }

  /** What processing e comes to when its path gets the descriptor wd. */
  ghost predicate Processed(root: Node, wmd: Watches, next: nat, e: Event, rest: seq<Event>,
                            wd: nat, wmd': Watches, watched': set<Path>, q': seq<Event>)
    requires e.wd in wmd
  {
    var path := PathOf(wmd, e);
    && wmd' == wmd[wd := Watch(path, true, wmd[e.wd].excluded)]
    && (wd >= next || (wd in wmd && wmd[wd].path == path))
    && At(root, path).Some?
    && q' == rest + if At(root, path).value.Directory?
                    then ChildEvents(wd, At(root, path).value.entries, path, watched') else []
  }

  /** The events added weigh less than the one taken. */
  lemma ProcessedWeighs(root: Node, wmd: Watches, next: nat, e: Event, rest: seq<Event>,
                        wd: nat, wmd': Watches, watched': set<Path>, q': seq<Event>)
    requires WellFormed(root) && KnownBefore([e] + rest, next) && e.isDir && e.wd in wmd
    requires Processed(root, wmd, next, e, rest, wd, wmd', watched', q')
    ensures QueueWeight(root, wmd', q') < QueueWeight(root, wmd, [e] + rest)
    ensures forall f | f in q' :: f in rest || f.wd == wd
  {
    var path := PathOf(wmd, e);
    var t := At(root, path).value;
    QueueWeightAppend(root, wmd, [e], rest);
    OneWeight(root, wmd, e);
    assert forall f | f in rest :: f in [e] + rest;
    QueueWeightKept(root, wmd, wmd', rest, next);
    if t.Directory? {
      PartsWellFormed(root, path);
      ChildEventsWeigh(root, wmd', wd, path, t, |t.entries|, watched');
      assert t.entries[..|t.entries|] == t.entries;
      ChildEventsKnown(wd, t.entries, path, watched');
      QueueWeightAppend(root, wmd', rest, ChildEvents(wd, t.entries, path, watched'));
    } else {
      assert q' == rest;
    }
  }

  // ---------------------------------------------------------------- what is still to be watched

  ghost function PendingOf(root: Node, refused: set<Path>, wmd: Watches, e: Event): set<Path> {
    if Adds(wmd, e) && At(root, PathOf(wmd, e)).Some? then
      Coverage(At(root, PathOf(wmd, e)).value, PathOf(wmd, e), wmd[e.wd].excluded + refused)
    else {}
  }

  /** The directories that the events on the queue will lead to. */
  ghost function Pending(root: Node, refused: set<Path>, wmd: Watches, q: seq<Event>): set<Path> {
    if q == [] then {} else Pending(root, refused, wmd, q[..|q| - 1]) + PendingOf(root, refused, wmd, q[|q| - 1])
  }

  lemma {:induction false} PendingAppend(root: Node, refused: set<Path>, wmd: Watches, q: seq<Event>, r: seq<Event>)
    ensures Pending(root, refused, wmd, q + r) == Pending(root, refused, wmd, q) + Pending(root, refused, wmd, r)
  {
    if r == [] {
      assert q + r == q;
    } else {
      assert (q + r)[..|q + r| - 1] == q + r[..|r| - 1];
      PendingAppend(root, refused, wmd, q, r[..|r| - 1]);
    }
  }

  lemma OnePending(root: Node, refused: set<Path>, wmd: Watches, e: Event)
    ensures Pending(root, refused, wmd, [e]) == PendingOf(root, refused, wmd, e)
  {
    assert [e][..0] == [];
  }

  /** Watches with descriptors before next are the same. */
  ghost predicate SameWatches(wmd: Watches, wmd': Watches, next: nat) {
    forall wd | wd < next :: (wd in wmd <==> wd in wmd') && (wd in wmd ==> wmd'[wd] == wmd[wd])
  }

  lemma {:induction false} PendingKept(root: Node, refused: set<Path>, wmd: Watches, wmd': Watches, q: seq<Event>,
                                       next: nat)
    requires KnownBefore(q, next) && SameWatches(wmd, wmd', next)
    ensures Pending(root, refused, wmd', q) == Pending(root, refused, wmd, q)
  {
    if q != [] {
      assert forall e | e in q[..|q| - 1] :: e in q;
      PendingKept(root, refused, wmd, wmd', q[..|q| - 1], next);
      assert q[|q| - 1] in q;
    }
  }

  /** The simulated events lead to everything the directory leads to, as long as none of its entries is watched. */
  lemma {:induction false} ChildrenPending(root: Node, refused: set<Path>, wmd: Watches, wd: nat, t: Node, n: nat,
                                           watched: set<Path>)
    requires wd in wmd && wmd[wd].autoAdd
    requires At(root, wmd[wd].path) == Some(t) && t.Directory? && DistinctNames(t.entries) && n <= |t.entries|
    requires forall name: string :: wmd[wd].path + [name] !in watched
    ensures Pending(root, refused, wmd, ChildEvents(wd, t.entries[..n], wmd[wd].path, watched))
         == CoverageAll(t.entries[..n], wmd[wd].path, wmd[wd].excluded + refused)
  {
    if n > 0 {
      var some, path := t.entries[..n], wmd[wd].path;
      assert some[..n - 1] == t.entries[..n - 1];
      ChildrenPending(root, refused, wmd, wd, t, n - 1, watched);
      AtEntry(root, path, n - 1);
      var e := Event(wd, some[n - 1].node.Directory?, some[n - 1].name);
      PendingAppend(root, refused, wmd, ChildEvents(wd, some[..n - 1], path, watched), [e]);
      OnePending(root, refused, wmd, e);
    }
  }

  // ---------------------------------------------------------------- events about separate, unwatched subtrees

  ghost predicate Unwatched(watched: set<Path>, p: Path) {
    forall w | w in watched :: !(p <= w)
  }

  ghost predicate NewSubtree(root: Node, watched: set<Path>, wmd: Watches, e: Event) {
    Adds(wmd, e) ==>
      Unwatched(watched, PathOf(wmd, e)) && At(root, PathOf(wmd, e)).Some? && At(root, PathOf(wmd, e)).value.Directory?
  }

  ghost predicate Separate(wmd: Watches, e: Event, f: Event) {
    Adds(wmd, e) && Adds(wmd, f) ==> !(PathOf(wmd, e) <= PathOf(wmd, f))
  }

  /** The events that add watches are about directories that nothing in is watched, none inside another. */
  ghost predicate Apart(root: Node, watched: set<Path>, wmd: Watches, q: seq<Event>) {
    && (forall e | e in q :: NewSubtree(root, watched, wmd, e))
    && forall i, j | 0 <= i < |q| && 0 <= j < |q| && i != j :: Separate(wmd, q[i], q[j])
  }

  lemma ApartRest(root: Node, watched: set<Path>, wmd: Watches, q: seq<Event>)
    requires q != [] && Apart(root, watched, wmd, q)
    ensures Apart(root, watched, wmd, q[1..])
    ensures forall f | f in q[1..] :: Separate(wmd, q[0], f) && Separate(wmd, f, q[0])
  {
    var rest := q[1..];
    forall i, j | 0 <= i < |rest| && 0 <= j < |rest| && i != j ensures Separate(wmd, rest[i], rest[j]) {
      assert Separate(wmd, q[i + 1], q[j + 1]);
    }
    forall f | f in rest ensures Separate(wmd, q[0], f) && Separate(wmd, f, q[0]) {
      var i :| 0 <= i < |rest| && rest[i] == f;
      assert q[i + 1] == f;
    }
  }

  /** The rest of the queue stays apart when p is watched and p's entries are added. */
  lemma RestStaysApart(root: Node, watched: set<Path>, wmd: Watches, wmd': Watches, next: nat, e: Event,
                       rest: seq<Event>)
    requires Apart(root, watched, wmd, rest) && KnownBefore(rest, next) && SameWatches(wmd, wmd', next) && e.wd in wmd
    requires Adds(wmd, e) && forall f | f in rest :: Separate(wmd, e, f) && Separate(wmd, f, e)
    ensures Apart(root, watched + {PathOf(wmd, e)}, wmd', rest)
  {
    forall f | f in rest ensures NewSubtree(root, watched + {PathOf(wmd, e)}, wmd', f) {
      assert NewSubtree(root, watched, wmd, f) && Separate(wmd, f, e);
    }
    forall i, j | 0 <= i < |rest| && 0 <= j < |rest| && i != j ensures Separate(wmd', rest[i], rest[j]) {
      assert Separate(wmd, rest[i], rest[j]) && rest[i] in rest && rest[j] in rest;
    }
  }

  lemma {:induction false} ChildrenApart(root: Node, watched: set<Path>, wmd: Watches, wd: nat, t: Node, n: nat)
    requires wd in wmd && At(root, wmd[wd].path) == Some(t) && t.Directory? && DistinctNames(t.entries)
    requires n <= |t.entries| && forall w | w in watched :: wmd[wd].path <= w ==> w == wmd[wd].path
    ensures var q := ChildEvents(wd, t.entries[..n], wmd[wd].path, watched);
            && Apart(root, watched, wmd, q)
            && forall e | e in q :: exists i :: 0 <= i < n && t.entries[i].name == e.name
  {
    if n > 0 {
      var some, path := t.entries[..n], wmd[wd].path;
      assert some[..n - 1] == t.entries[..n - 1];
      ChildrenApart(root, watched, wmd, wd, t, n - 1);
      AtEntry(root, path, n - 1);
      var rest := ChildEvents(wd, some[..n - 1], path, watched);
      var q := ChildEvents(wd, some, path, watched);
      if |q| > |rest| {
        ChildEventsKnown(wd, some[..n - 1], path, watched);
        LastApart(root, watched, wmd, rest, Event(wd, some[n - 1].node.Directory?, some[n - 1].name));
      }
    }
  }

  lemma LastApart(root: Node, watched: set<Path>, wmd: Watches, q: seq<Event>, e: Event)
    requires Apart(root, watched, wmd, q) && NewSubtree(root, watched, wmd, e)
    requires forall f | f in q :: f.wd == e.wd && f.name != e.name
    ensures Apart(root, watched, wmd, q + [e])
  {
    var r := q + [e];
    forall i, j | 0 <= i < |r| && 0 <= j < |r| && i != j ensures Separate(wmd, r[i], r[j]) {
      if i < |q| && j < |q| {
        assert Separate(wmd, q[i], q[j]);
      } else if e.wd in wmd {
        var n := |wmd[e.wd].path|;
        assert r[i].name != r[j].name;
        assert PathOf(wmd, r[i])[n] != PathOf(wmd, r[j])[n];
      }
    }
  }

  lemma ApartTogether(root: Node, watched: set<Path>, wmd: Watches, q: seq<Event>, r: seq<Event>)
    requires Apart(root, watched, wmd, q) && Apart(root, watched, wmd, r)
    requires forall e, f | e in q && f in r :: Separate(wmd, e, f) && Separate(wmd, f, e)
    ensures Apart(root, watched, wmd, q + r)
  {
    var s := q + r;
    forall i, j | 0 <= i < |s| && 0 <= j < |s| && i != j ensures Separate(wmd, s[i], s[j]) {
      if i < |q| && j < |q| {
        assert Separate(wmd, q[i], q[j]);
      } else if i >= |q| && j >= |q| {
        assert Separate(wmd, r[i - |q|], r[j - |q|]);
      } else {
        assert s[i] in q || s[i] in r;
      }
    }
  }

  /** What processing e does when its directory gets a watch: the watch and the simulated events. */
  ghost predicate Stepped(root: Node, watched: set<Path>, wmd: Watches, next: nat, e: Event, rest: seq<Event>,
                          wd: nat, wmd': Watches, q': seq<Event>)
    requires e.wd in wmd
  {
    var path := PathOf(wmd, e);
    && wd >= next && SameWatches(wmd, wmd', next)
    && wd in wmd' && wmd'[wd] == Watch(path, true, wmd[e.wd].excluded)
    && At(root, path).Some? && At(root, path).value.Directory?
    && q' == rest + ChildEvents(wd, At(root, path).value.entries, path, watched + {path})
  }

  lemma StepKeepsApart(root: Node, watched: set<Path>, wmd: Watches, next: nat,
                       e: Event, rest: seq<Event>, wd: nat, wmd': Watches, q': seq<Event>)
    requires WellFormed(root) && Apart(root, watched, wmd, [e] + rest) && KnownBefore([e] + rest, next)
    requires Adds(wmd, e) && Stepped(root, watched, wmd, next, e, rest, wd, wmd', q')
    ensures Apart(root, watched + {PathOf(wmd, e)}, wmd', q')
  {
    var path := PathOf(wmd, e);
    var t := At(root, path).value;
    var watched' := watched + {path};
    ApartRest(root, watched, wmd, [e] + rest);
    assert ([e] + rest)[1..] == rest && ([e] + rest)[0] == e;
    assert forall f | f in rest :: f in [e] + rest;
    RestStaysApart(root, watched, wmd, wmd', next, e, rest);
    PartsWellFormed(root, path);
    assert NewSubtree(root, watched, wmd, e);
    ChildrenApart(root, watched', wmd', wd, t, |t.entries|);
    assert t.entries[..|t.entries|] == t.entries;
    var children := ChildEvents(wd, t.entries, path, watched');
    ChildEventsKnown(wd, t.entries, path, watched');
    forall f, c | f in rest && c in children ensures Separate(wmd', f, c) && Separate(wmd', c, f) {
      assert Separate(wmd, e, f) && Separate(wmd, f, e);
      if Adds(wmd', f) && Adds(wmd', c) {
        BelowIsSeparate(path, c.name, PathOf(wmd, f));
      }
    }
    ApartTogether(root, watched', wmd', rest, children);
  }

  lemma BelowIsSeparate(path: Path, name: string, other: Path)
    ensures !(path <= other) && !(other <= path) ==> !(path + [name] <= other) && !(other <= path + [name])
  {
    assert path + [name] <= other ==> other[..|path|] == path;
    assert other <= path + [name] && |other| <= |path| ==> path[..|other|] == other;
  }

  /** Nothing that is to be watched is lost by a step. */
  lemma StepKeepsGoal(root: Node, refused: set<Path>, watched: set<Path>, wmd: Watches, next: nat,
                      e: Event, rest: seq<Event>, wd: nat, wmd': Watches, q': seq<Event>)
    requires WellFormed(root) && Apart(root, watched, wmd, [e] + rest) && KnownBefore([e] + rest, next)
    requires Adds(wmd, e) && PathOf(wmd, e) !in wmd[e.wd].excluded + refused
    requires Stepped(root, watched, wmd, next, e, rest, wd, wmd', q')
    ensures watched + {PathOf(wmd, e)} + Pending(root, refused, wmd', q') ==
            watched + Pending(root, refused, wmd, [e] + rest)
  {
    var path := PathOf(wmd, e);
    var t := At(root, path).value;
    PartsWellFormed(root, path);
    assert NewSubtree(root, watched, wmd, e) by { assert e in [e] + rest; }
    ChildrenPending(root, refused, wmd', wd, t, |t.entries|, watched + {path});
    assert t.entries[..|t.entries|] == t.entries;
    PendingAppend(root, refused, wmd', rest, ChildEvents(wd, t.entries, path, watched + {path}));
    assert forall f | f in rest :: f in [e] + rest;
    PendingKept(root, refused, wmd, wmd', rest, next);
    PendingAppend(root, refused, wmd, [e], rest);
    OnePending(root, refused, wmd, e);
  }

  /** An event that adds no watch leads to nothing. */
  lemma IdleKeeps(root: Node, refused: set<Path>, watched: set<Path>, wmd: Watches, e: Event, rest: seq<Event>)
    requires Apart(root, watched, wmd, [e] + rest)
    requires Adds(wmd, e) ==> PathOf(wmd, e) in wmd[e.wd].excluded + refused
    ensures Apart(root, watched, wmd, rest)
    ensures Pending(root, refused, wmd, [e] + rest) == Pending(root, refused, wmd, rest)
  {
    ApartRest(root, watched, wmd, [e] + rest);
    assert ([e] + rest)[1..] == rest;
    PendingAppend(root, refused, wmd, [e], rest);
    OnePending(root, refused, wmd, e);
  }

  // ---------------------------------------------------------------- the watch manager

  class WatchManager {
    const root: Node              // what is on disk
    const refused: set<Path>      // what the kernel will not watch
    var wmd: Watches
    var kernel: map<Path, nat>    // the descriptors the kernel has given out
    var next: nat
    var ignoreEvents: bool

    ghost predicate Valid()
      reads this
    {
      && WellFormed(root) && next > 0
      && (forall p | p in kernel :: kernel[p] in wmd && wmd[kernel[p]].path == p)
      && (forall wd | wd in wmd :: 0 < wd < next && wmd[wd].path in kernel && kernel[wmd[wd].path] == wd)
    }

    /** `inotify_add_watch`: the descriptor of a watched path is given again. */
    method KernelAdd(path: Path) returns (wd: int)
      requires next > 0
      modifies this`kernel, this`next
      ensures At(root, path).None? || path in refused ==> wd == -1 && kernel == old(kernel) && next == old(next)
      ensures At(root, path).Some? && path !in refused ==>
                && wd >= 0 && kernel == old(kernel)[path := wd as nat]
                && (if path in old(kernel) then wd == old(kernel)[path] && next == old(next)
                    else wd == old(next) && next == old(next) + 1)
    {
      if At(root, path).None? || path in refused {
        return -1;
      }
      if path in kernel {
        return kernel[path];
      }
      wd := next;
      kernel, next := kernel[path := next], next + 1;
    }

    /** `add_watch` on one path that is not to be walked. */
    method AddWatch(path: Path, autoAdd: bool, excluded: set<Path>) returns (wd: int)
      requires Valid()
      modifies this`wmd, this`kernel, this`next
      ensures Valid() && next >= old(next)
      ensures wd > 0 <==> path !in excluded && path !in refused && At(root, path).Some?
      ensures wd > 0 ==> wmd == old(wmd)[wd as nat := Watch(path, autoAdd, excluded)]
      ensures wd > 0 ==> kernel.Keys == old(kernel).Keys + {path}
      ensures wd > 0 && path !in old(kernel) ==> wd as nat == old(next) && next == old(next) + 1
      ensures wd > 0 && path in old(kernel) ==>
                wd as nat in old(wmd) && old(wmd)[wd as nat].path == path && next == old(next)
      ensures wd <= 0 ==> wmd == old(wmd) && kernel == old(kernel) && next == old(next)
    {
      if path in excluded {
        return -2;
      }
      wd := KernelAdd(path);
      if wd < 0 {
        return;
      }
      wmd := wmd[wd as nat := Watch(path, autoAdd, excluded)];
    }

    /** `get_wd`: a search through all watches. */
    method GetWd(path: Path) returns (found: Option<nat>)
      requires Valid()
      ensures found.Some? <==> path in kernel
    {
      var todo := wmd.Keys;
      found := None;
      while todo != {}
        invariant todo <= wmd.Keys
        invariant forall wd | wd in wmd && wd !in todo :: wmd[wd].path != path
        decreases todo
      {
        var wd :| wd in todo;
        todo := todo - {wd};
        if wmd[wd].path == path {
          return Some(wd);
        }
      }
    }
  }

  class Notifier {
    const wm: WatchManager
    var eventq: seq<Event>

    constructor (wm: WatchManager)
      ensures this.wm == wm && eventq == []
    {
      this.wm := wm;
      eventq := [];
    }

    /** The simulation of creation events for what a new directory holds. */
    method Simulate(wd: nat, path: Path, entries: seq<Entry>)
      requires wm.Valid()
      modifies this
      ensures eventq == old(eventq) + ChildEvents(wd, entries, path, wm.kernel.Keys)
    {
      for i := 0 to |entries|
        invariant eventq == old(eventq) + ChildEvents(wd, entries[..i], path, wm.kernel.Keys)
      {
        assert entries[..i + 1][..i] == entries[..i];
        var inner := wm.GetWd(path + [entries[i].name]);
        if inner.Some? || entries[i].node.Other? {
          continue;
        }
        eventq := eventq + [Event(wd, entries[i].node.Directory?, entries[i].name)];
      }
      assert entries[..|entries|] == entries;
    }

    /** The event leads to a new watch. */
    ghost predicate GetsWatch(e: Event)
      reads wm
    {
      && Adds(wm.wmd, e) && PathOf(wm.wmd, e) !in wm.wmd[e.wd].excluded
      && PathOf(wm.wmd, e) !in wm.refused && At(wm.root, PathOf(wm.wmd, e)).Some?
    }

    /** `process_IN_CREATE` */
    method ProcessCreate(e: Event)
      requires wm.Valid() && e.wd in wm.wmd
      modifies this, wm`wmd, wm`kernel, wm`next
      ensures wm.Valid() && wm.next >= old(wm.next)
      ensures !old(GetsWatch(e)) ==> eventq == old(eventq) && wm.wmd == old(wm.wmd) && wm.kernel == old(wm.kernel)
      ensures old(GetsWatch(e)) ==>
                var path := old(PathOf(wm.wmd, e));
                && wm.kernel.Keys == old(wm.kernel).Keys + {path} && wm.kernel[path] < wm.next
                && (path !in old(wm.kernel) ==> wm.kernel[path] >= old(wm.next))
                && Processed(wm.root, old(wm.wmd), old(wm.next), e, old(eventq),
                             wm.kernel[path], wm.wmd, wm.kernel.Keys, eventq)
    {
      if !e.isDir {
        return;
      }
      var watch := wm.wmd[e.wd];
      var createdDir := watch.path + [e.name];
      if watch.autoAdd && createdDir !in watch.excluded {
        var wd := wm.AddWatch(createdDir, watch.autoAdd, watch.excluded);
        if wd > 0 {
          assert wm.kernel[createdDir] == wd as nat;
          var node := At(wm.root, createdDir).value;
          if node.Directory? {
            Simulate(wd as nat, createdDir, node.entries);
          }
        }
      }
    }

    ghost function Measure(): nat
      reads this, wm
    {
      QueueWeight(wm.root, wm.wmd, eventq)
    }

    /** The paths watched now and those that the queue leads to. */
    ghost function Goal(): set<Path>
      reads this, wm
    {
      wm.kernel.Keys + Pending(wm.root, wm.refused, wm.wmd, eventq)
    }

    ghost predicate ApartNow()
      reads this, wm
    {
      Apart(wm.root, wm.kernel.Keys, wm.wmd, eventq)
    }

    /** Processing one event leaves less to do, although it may put events on the queue. */
    method ProcessOne()
      requires wm.Valid() && eventq != [] && KnownBefore(eventq, wm.next)
      modifies this, wm`wmd, wm`kernel, wm`next
      ensures wm.Valid() && KnownBefore(eventq, wm.next)
      ensures Measure() < old(Measure())
      ensures old(wm.kernel).Keys <= wm.kernel.Keys
      ensures wm.ignoreEvents ==> wm.kernel == old(wm.kernel)
      ensures !wm.ignoreEvents && old(ApartNow()) ==> ApartNow() && Goal() == old(Goal())
    {
      ghost var wmd, next, watched := wm.wmd, wm.next, wm.kernel.Keys;
      var e := eventq[0];
      ghost var rest := eventq[1..];
      assert eventq == [e] + rest;
      IdleStep(wm.root, wm.refused, watched, wmd, next, e, rest);
      eventq := eventq[1..];
      if wm.ignoreEvents || e.wd !in wm.wmd {
        return;
      }
      ProcessCreate(e);
      if old(GetsWatch(e)) {
        WatchStep(wm.root, wm.refused, watched, wmd, next, e, rest, wm.kernel[PathOf(wmd, e)], wm.wmd, eventq);
      }
    }

    /** `process_events`: the queue is drained, whatever is on it. */
    method ProcessEvents()
      requires wm.Valid() && KnownBefore(eventq, wm.next)
      modifies this, wm`wmd, wm`kernel, wm`next
      ensures wm.Valid() && eventq == []
      ensures old(wm.kernel).Keys <= wm.kernel.Keys
      ensures wm.ignoreEvents ==> wm.kernel == old(wm.kernel)
      ensures !wm.ignoreEvents && old(ApartNow()) ==> wm.kernel.Keys == old(Goal())
    {
      while eventq != []
        invariant wm.Valid() && KnownBefore(eventq, wm.next)
        invariant old(wm.kernel).Keys <= wm.kernel.Keys
        invariant wm.ignoreEvents == old(wm.ignoreEvents)
        invariant wm.ignoreEvents ==> wm.kernel == old(wm.kernel)
        invariant !wm.ignoreEvents && old(ApartNow()) ==> ApartNow() && Goal() == old(Goal())
        decreases Measure()
      {
        ProcessOne();
      }
    }

    /** After one event for a new directory in whose tree nothing is watched, exactly
        the directories that can be reached from it through directories that are
        neither excluded nor refused are watched as well. */
    method DirectoryCreated(e: Event)
      requires wm.Valid() && eventq == [] && !wm.ignoreEvents
      requires Adds(wm.wmd, e) && NewSubtree(wm.root, wm.kernel.Keys, wm.wmd, e)
      modifies this, wm`wmd, wm`kernel, wm`next
      ensures wm.Valid() && eventq == []
      ensures forall p :: p in wm.kernel <==>
                || p in old(wm.kernel)
                || Open(wm.root, old(wm.wmd)[e.wd].excluded + wm.refused, old(PathOf(wm.wmd, e)), p)
    {
      ghost var path, closed := PathOf(wm.wmd, e), wm.wmd[e.wd].excluded + wm.refused;
      eventq := eventq + [e];
      assert eventq == [e];
      OnePending(wm.root, wm.refused, wm.wmd, e);
      assert ApartNow();
      ProcessEvents();
      forall p ensures p in Coverage(At(wm.root, path).value, path, closed) <==> Open(wm.root, closed, path, p) {
        CoverageMeans(wm.root, path, At(wm.root, path).value, closed, p);
      }
    }
  }

  /** An event that adds no watch, or that is ignored, is just taken off the queue. */
  lemma IdleStep(root: Node, refused: set<Path>, watched: set<Path>, wmd: Watches, next: nat, e: Event,
                 rest: seq<Event>)
    requires KnownBefore([e] + rest, next)
    ensures KnownBefore(rest, next) && QueueWeight(root, wmd, rest) < QueueWeight(root, wmd, [e] + rest)
    ensures Apart(root, watched, wmd, [e] + rest) &&
            (Adds(wmd, e) ==> PathOf(wmd, e) in wmd[e.wd].excluded + refused || At(root, PathOf(wmd, e)).None?) ==>
              && Apart(root, watched, wmd, rest)
              && Pending(root, refused, wmd, [e] + rest) == Pending(root, refused, wmd, rest)
  {
    QueueWeightAppend(root, wmd, [e], rest);
    OneWeight(root, wmd, e);
    assert forall f | f in rest :: f in [e] + rest;
    assert e in [e] + rest;
    if Apart(root, watched, wmd, [e] + rest) && (Adds(wmd, e) ==> PathOf(wmd, e) in wmd[e.wd].excluded + refused) {
      IdleKeeps(root, refused, watched, wmd, e, rest);
    }
  }

  /** An event that adds a watch. */
  lemma WatchStep(root: Node, refused: set<Path>, watched: set<Path>, wmd: Watches, next: nat, e: Event,
                  rest: seq<Event>,
                  wd: nat, wmd': Watches, q': seq<Event>)
    requires WellFormed(root) && KnownBefore([e] + rest, next) && Adds(wmd, e)
    requires PathOf(wmd, e) !in wmd[e.wd].excluded + refused
    requires Processed(root, wmd, next, e, rest, wd, wmd', watched + {PathOf(wmd, e)}, q')
    requires PathOf(wmd, e) !in watched ==> wd >= next
    ensures QueueWeight(root, wmd', q') < QueueWeight(root, wmd, [e] + rest)
    ensures forall f | f in q' :: f.wd < next || f.wd == wd
    ensures Apart(root, watched, wmd, [e] + rest) ==>
              && Apart(root, watched + {PathOf(wmd, e)}, wmd', q')
              && watched + {PathOf(wmd, e)} + Pending(root, refused, wmd', q') ==
                 watched + Pending(root, refused, wmd, [e] + rest)
  {
    var path := PathOf(wmd, e);
    ProcessedWeighs(root, wmd, next, e, rest, wd, wmd', watched + {path}, q');
    assert forall f | f in rest :: f in [e] + rest;
    if Apart(root, watched, wmd, [e] + rest) {
      assert NewSubtree(root, watched, wmd, e) by { assert e in [e] + rest; }
      assert Stepped(root, watched, wmd, next, e, rest, wd, wmd', q');
      StepKeepsApart(root, watched, wmd, next, e, rest, wd, wmd', q');
      StepKeepsGoal(root, refused, watched, wmd, next, e, rest, wd, wmd', q');
    }
  }
}
