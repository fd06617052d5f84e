/** The variables each task depends on: `build_dependencies` for one variable,
    and the two worklists that follow its result. */
module Dependencies {
  import opened Wrappers
  import opened Store
  import opened OverrideLists
  import opened Failures
  import opened Datastore
  import opened ReadGraph
  import opened Reachability

  /** What dependencies are computed from: a store, its override list, and the
      names that other parsers or flags add for a variable. */
  datatype Source = Source(m: View, overrides: seq<string>, extra: map<string, set<string>>)

  function Extra(extra: map<string, set<string>>, k: string): set<string> {
    if k in extra then extra[k] else {}
  }

  /** k can be read. */
  ghost predicate Readable(s: Source, k: string) {
    exists r :: Reads(s.m, s.overrides, k, false, r)
  }

  ghost function ReadIn(s: Source, k: string): Read
    requires Readable(s, k)
  {
    var r :| Reads(s.m, s.overrides, k, false, r);
    r
  }

  ghost function DepsIn(s: Source, k: string): set<string> {
    if Readable(s, k) then ReadIn(s, k).parser.references + Extra(s.extra, k) else {}
  }

  /** The value recorded for k: an undefined one is recorded as the empty one. */
  ghost function RecordedIn(s: Source, k: string): Value {
    if Readable(s, k) then OrEmpty(ReadIn(s, k).raw) else []
  }

  ghost function GraphOf(s: Source): Graph {
    imap k: string | true :: DepsIn(s, k)
  }

  lemma ReadInIs(s: Source, k: string, r: Read)
    requires Reads(s.m, s.overrides, k, false, r)
    ensures Readable(s, k) && ReadIn(s, k) == r
  {
    ReadsOne(s.m, s.overrides, k, false, r, ReadIn(s, k));
  }

  // ---------------------------------------------------------------- the names a read reports

  lemma {:induction false} PassNames(m: View, overrides: seq<string>, n: nat, self: Option<string>, v: Value)
    requires Pass(m, overrides, n, self, v).Some? && Refs(v) <= NamesIn(m)
    ensures Refs(Pass(m, overrides, n, self, v).value) <= NamesIn(m)
    decreases n, 1, |v|
  {
    if v != [] {
      var init, t := v[..|v| - 1], v[|v| - 1];
      RefsStep(v);
      PassNames(m, overrides, n, self, init);
      var p := Pass(m, overrides, n, self, init).value;
      match t
      case Ch(_) => RefsAppend(p, [t]);
      case Ref(x) =>
        EvalNames(m, overrides, n, x, true);
        RefsAppend(p, Substitute(x, Eval(m, overrides, n, x, true).value));
    }
  }

  lemma {:induction false} ExpandNames(m: View, overrides: seq<string>, n: nat, self: Option<string>, v: Value)
    requires Expand(m, overrides, n, self, v).Some? && Refs(v) <= NamesIn(m)
    ensures var x := Expand(m, overrides, n, self, v).value;
            Refs(x.value) <= NamesIn(m) && x.refs <= NamesIn(m)
    decreases n, 2, 0
  {
    PassNames(m, overrides, n, self, v);
    var p := Pass(m, overrides, n, self, v).value;
    if p != v {
      PassNames(m, overrides, n, self, p);
    }
  }

  /** Every name that a read reports is mentioned somewhere in the store. */
  lemma {:induction false} EvalNames(m: View, overrides: seq<string>, n: nat, k: string, exp: bool)
    requires Eval(m, overrides, n, k, exp).Some?
    ensures var r := Eval(m, overrides, n, k, exp).value;
            && r.parser.references <= NamesIn(m) && Refs(OrEmpty(r.raw)) <= NamesIn(m)
            && Refs(OrEmpty(r.parser.value)) <= NamesIn(m)
    decreases n, 0, 0
  {
    var sub := EvalChosen(m, overrides, n - 1, k).value;
    if Chosen(m, overrides, k).Some? {
      EvalNames(m, overrides, n - 1, Chosen(m, overrides, k).value, false);
    }
    FinishNames(m, overrides, n - 1, k, exp, sub);
  }

  lemma {:induction false} FinishNames(m: View, overrides: seq<string>, n: nat, k: string, exp: bool, sub: Read)
    requires Finish(m, overrides, n, k, exp, sub).Some? && Refs(OrEmpty(sub.raw)) <= NamesIn(m)
    ensures var r := Finish(m, overrides, n, k, exp, sub).value;
            && r.parser.references <= NamesIn(m) && Refs(OrEmpty(r.raw)) <= NamesIn(m)
            && Refs(OrEmpty(r.parser.value)) <= NamesIn(m)
    decreases n, 4, 0
  {
    AssembleNames(m, overrides, k, sub);
    var raw := Assemble(m, overrides, k, sub);
    if raw.Some? {
      ExpandNames(m, overrides, n, Some(k), raw.value);
      var x := Expand(m, overrides, n, Some(k), raw.value).value;
      RemovedNames(m, overrides, n, raw.value, x, ToRemove(m, overrides, k, sub, if exp then x.value else raw.value));
    }
  }

  lemma RemovedNames(m: View, overrides: seq<string>, n: nat, raw: Value, x: Expansion, removes: set<Value>)
    requires Removed(m, overrides, n, raw, x, removes).Some?
    ensures var r := Removed(m, overrides, n, raw, x, removes).value;
            && r.raw == Some(raw) && r.parser.references == x.refs
            && Refs(OrEmpty(r.parser.value)) <= Refs(x.value)
  {
    RemovedKeepsTokens(m, overrides, n, raw, x, removes);
  }

  ghost function Universe(s: Source): set<string> {
    NamesIn(s.m) + set k, x | k in s.extra && x in s.extra[k] :: x
  }

  lemma DepsInUniverse(s: Source, k: string)
    ensures DepsIn(s, k) <= Universe(s)
  {
    if Readable(s, k) {
      var r := ReadIn(s, k);
      var n: nat :| Eval(s.m, s.overrides, n, k, false) == Some(r);
      EvalNames(s.m, s.overrides, n, k, false);
    }
  }

  // ---------------------------------------------------------------- the first pass

  type Deps = map<string, set<string>>

  /** Every entry holds what the source gives for its variable. */
  ghost predicate Entered(s: Source, deps: Deps, values: map<string, Value>) {
    deps.Keys == values.Keys && forall k | k in deps :: EnteredAt(s, k, deps[k], values[k])
  }

  ghost predicate EnteredAt(s: Source, k: string, own: set<string>, value: Value) {
    Readable(s, k) && own == DepsIn(s, k) && value == RecordedIn(s, k)
  }

  /** The store being read and its computed list. */
  ghost predicate IsSource(d: DataSmart, s: Source)
    reads d`overrides, d`inOverride, d`due, d`expandCache, d`overrideData, d`recorded
    reads d.overrideData.Values`items, d.dict.chain`flags, d.dict.chain`vars, d.dict.chain`held
    reads (set x, l | x in d.dict.chain && l in x.held :: l)`ops
  {
    d.Valid() && d.Ready() && d.overrides.Some? && d.Coherent() && s.m == d.Now() && s.overrides == d.overrides.value
  }

  /** `build_dependencies` on the path of a plain variable. */
  method BuildDependencies(d: DataSmart, k: string, depth: nat, ghost s: Source, extra: map<string, set<string>>)
    returns (r: Result<(set<string>, Value), Error>)
    requires IsSource(d, s) && s.extra == extra
    modifies d`expandCache, d`overrides, d`inOverride
    ensures r.Ok? ==> IsSource(d, s) && EnteredAt(s, k, r.value.0, r.value.1)
    ensures r.Err? ==> Eval(s.m, s.overrides, depth, k, false).None?
  {
    assert d.Live(s.overrides);
    var read := d.Compute(k, false, depth, RIGHT);
    if read.Err? {
      return Err(read.error);
    }
    assert d.Live(s.overrides);
    ReadInIs(s, k, read.value);
    r := Ok((read.value.parser.references + Extra(extra, k), OrEmpty(read.value.raw)));
  }

  /** Enter dep unless it is there. */
  method EnterDep(d: DataSmart, dep: string, deps0: Deps, values0: map<string, Value>, depth: nat,
                  ghost s: Source, extra: map<string, set<string>>)
    returns (r: Result<(), Error>, deps: Deps, values: map<string, Value>)
    requires IsSource(d, s) && s.extra == extra && Entered(s, deps0, values0)
    modifies d`expandCache, d`overrides, d`inOverride
    ensures r.Ok? ==> IsSource(d, s) && Entered(s, deps, values) && deps.Keys == deps0.Keys + {dep}
    ensures r.Err? ==> Eval(s.m, s.overrides, depth, dep, false).None?
  {
    deps, values := deps0, values0;
    r := Ok(());
    if dep !in deps {
      var built := BuildDependencies(d, dep, depth, s, extra);
      if built.Err? { return Err(built.error), deps, values; }
      deps, values := deps[dep := built.value.0], values[dep := built.value.1];
    }
  }

  /** What one round has done so far. */
  ghost predicate RoundDone(s: Source, deps0: Deps, deps: Deps, done: set<string>, found: set<string>) {
    deps.Keys == deps0.Keys + done && found == DepsOfAll(GraphOf(s), done) && found <= Universe(s)
  }

  lemma RoundMoves(s: Source, deps0: Deps, deps: Deps, values: map<string, Value>, deps': Deps,
                   done: set<string>, found: set<string>, dep: string)
    requires RoundDone(s, deps0, deps, done, found) && Entered(s, deps', values) && deps'.Keys == deps.Keys + {dep}
    ensures dep in deps' && RoundDone(s, deps0, deps', done + {dep}, found + deps'[dep])
  {
    DepsInUniverse(s, dep);
    DepsOfOneMore(GraphOf(s), done, dep);
    assert EnteredAt(s, dep, deps'[dep], values[dep]);
  }

  /** One round: enter the names of nextdeps and collect what they depend on. */
  method EnterRound(d: DataSmart, nextdeps: set<string>, deps0: Deps, values0: map<string, Value>, depth: nat,
                    ghost s: Source, extra: map<string, set<string>>)
    returns (r: Result<(), Error>, deps: Deps, values: map<string, Value>, found: set<string>)
    requires IsSource(d, s) && s.extra == extra && Entered(s, deps0, values0)
    modifies d`expandCache, d`overrides, d`inOverride
    ensures r.Ok? ==> IsSource(d, s) && Entered(s, deps, values) && RoundDone(s, deps0, deps, nextdeps, found)
    ensures r.Err? ==> exists x :: x in nextdeps && Eval(s.m, s.overrides, depth, x, false).None?
  {
    deps, values, found := deps0, values0, {};
    var todo := nextdeps;
    ghost var done: set<string> := {};
    while todo != {}
      invariant IsSource(d, s) && Entered(s, deps, values) && done + todo == nextdeps
      invariant RoundDone(s, deps0, deps, done, found)
      decreases todo
    {
      var dep :| dep in todo;
      todo := todo - {dep};
      ghost var before := deps;
      r, deps, values := EnterDep(d, dep, deps, values, depth, s, extra);
      if r.Err? { return; }
      RoundMoves(s, deps0, before, values, deps, done, found, dep);
      found := found + deps[dep];
      done := done + {dep};
    }
    assert done == nextdeps;
    r := Ok(());
  }

  /** Some name that is reached cannot be read at this depth. */
  ghost predicate CannotEnter(s: Source, ignored: set<string>, task: string, depth: nat) {
    exists x :: Reaches(GraphOf(s), ignored, task, x) && Eval(s.m, s.overrides, depth, x, false).None?
  }

  /** What the worklist has done so far. */
  ghost predicate WorkDone(s: Source, ignored: set<string>, task: string, deps0: Deps, deps: Deps,
                           seen: set<string>, newdeps: set<string>) {
    && Frontier(GraphOf(s), ignored, task, seen, newdeps) && seen !! newdeps && newdeps <= Universe(s)
    && deps.Keys == deps0.Keys + seen
  }

  lemma WorkStarts(s: Source, ignored: set<string>, task: string, deps: Deps, values: map<string, Value>)
    requires Entered(s, deps, values) && task in deps
    ensures WorkDone(s, ignored, task, deps, deps, {}, deps[task])
  {
    DepsInUniverse(s, task);
    assert EnteredAt(s, task, deps[task], values[task]);
    ReachFirst(GraphOf(s), ignored, task);
  }

  lemma WorkMoves(s: Source, ignored: set<string>, task: string, deps0: Deps, deps: Deps, deps': Deps,
                  seen: set<string>, newdeps: set<string>, found: set<string>)
    requires WorkDone(s, ignored, task, deps0, deps, seen, newdeps)
    requires RoundDone(s, deps, deps', newdeps - ignored, found)
    ensures var seen' := seen + (newdeps - ignored);
            && WorkDone(s, ignored, task, deps0, deps', seen', found - seen')
            && (newdeps <= ignored ==> seen' == seen && found == {})
            && (!(newdeps <= ignored) ==> Universe(s) - seen' < Universe(s) - seen)
  {
    FrontierMoves(GraphOf(s), ignored, task, seen, newdeps, found);
    assert newdeps <= ignored <==> newdeps - ignored == {};
    if !(newdeps <= ignored) {
      FewerLeft(Universe(s), seen, newdeps - ignored);
    }
  }

  lemma FewerLeft(names: set<string>, seen: set<string>, next: set<string>)
    requires next <= names && next !! seen && next != {}
    ensures names - (seen + next) < names - seen
  {
    var x :| x in next;
    assert x in names - seen && x !in names - (seen + next);
  }

  lemma WorkEnds(s: Source, ignored: set<string>, task: string, deps0: Deps, deps: Deps, seen: set<string>)
    requires WorkDone(s, ignored, task, deps0, deps, seen, {})
    ensures forall x :: x in deps <==> x in deps0 || Reaches(GraphOf(s), ignored, task, x)
  {
    FrontierEmpty(GraphOf(s), ignored, task, seen);
  }

  /** The worklist of `generate_dependencies` for one task that is already entered. */
  method EnterReachable(d: DataSmart, task: string, deps0: Deps, values0: map<string, Value>, ignored: set<string>,
                        depth: nat, ghost s: Source, extra: map<string, set<string>>)
    returns (r: Result<(), Error>, deps: Deps, values: map<string, Value>)
    requires IsSource(d, s) && s.extra == extra && Entered(s, deps0, values0) && task in deps0
    modifies d`expandCache, d`overrides, d`inOverride
    ensures r.Ok? ==> IsSource(d, s) && Entered(s, deps, values)
    ensures r.Ok? ==> forall x :: x in deps <==> x in deps0 || Reaches(GraphOf(s), ignored, task, x)
    ensures r.Err? ==> CannotEnter(s, ignored, task, depth)
  {
    deps, values := deps0, values0;
    var newdeps := deps[task];
    var seen: set<string> := {};
    WorkStarts(s, ignored, task, deps, values);
    while newdeps != {}
      invariant IsSource(d, s) && Entered(s, deps, values)
      invariant WorkDone(s, ignored, task, deps0, deps, seen, newdeps)
      decreases Universe(s) - seen, newdeps
    {
      ghost var before, todo, done := deps, newdeps, seen;
      var nextdeps := newdeps - ignored;
      seen := seen + nextdeps;
      r, deps, values, newdeps := EnterRound(d, nextdeps, deps, values, depth, s, extra);
      if r.Err? { return; }
      WorkMoves(s, ignored, task, deps0, before, deps, done, todo, newdeps);
      newdeps := newdeps - seen;
    }
    WorkEnds(s, ignored, task, deps0, deps, seen);
    r := Ok(());
  }

  ghost predicate ReachedFrom(s: Source, ignored: set<string>, tasks: seq<string>, x: string) {
    exists t | t in tasks :: IsOrReaches(s, ignored, t, x)
  }

  ghost predicate IsOrReaches(s: Source, ignored: set<string>, t: string, x: string) {
    x == t || Reaches(GraphOf(s), ignored, t, x)
  }

  /** The task, or some name that it reaches, cannot be read at this depth. */
  ghost predicate CannotEnterTask(s: Source, ignored: set<string>, t: string, depth: nat) {
    exists x :: IsOrReaches(s, ignored, t, x) && Eval(s.m, s.overrides, depth, x, false).None?
  }

  /** Exactly the tasks and the names they reach are entered. */
  ghost predicate AllEntered(s: Source, ignored: set<string>, tasks: seq<string>, deps: Deps) {
    forall x :: x in deps <==> ReachedFrom(s, ignored, tasks, x)
  }

  lemma TaskEntered(s: Source, ignored: set<string>, tasks: seq<string>, task: string, deps: Deps, deps': Deps)
    requires AllEntered(s, ignored, tasks, deps)
    requires forall x :: x in deps' <==> x in deps || IsOrReaches(s, ignored, task, x)
    ensures AllEntered(s, ignored, tasks + [task], deps')
  {
    forall x ensures x in deps' <==> ReachedFrom(s, ignored, tasks + [task], x) {
      assert x in deps <==> ReachedFrom(s, ignored, tasks, x);
      assert task in tasks + [task];
      if ReachedFrom(s, ignored, tasks, x) {
        var t :| t in tasks && IsOrReaches(s, ignored, t, x);
        assert t in tasks + [task];
      }
    }
  }

  /** `generate_dependencies`. Iterating over the store comes first, and has the override list computed. */
  method GenerateDependencies(d: DataSmart, tasks: seq<string>, ignored: set<string>, depth: nat,
                              extra: map<string, set<string>>)
    returns (r: Result<(), Error>, deps: Deps, values: map<string, Value>, ghost s: Source)
    requires d.Valid() && d.Ready() && d.Coherent()
    modifies d`expandCache, d`overrides, d`inOverride
    ensures r.Ok? ==> IsSource(d, s) && s.extra == extra
    ensures r.Ok? ==> Entered(s, deps, values) && AllEntered(s, ignored, tasks, deps)
    ensures r.Err? ==>
              || KeepsChanging(old(d.Now())) || !ListReads(old(d.Now()), depth)
              || (s.m == old(d.Now()) && exists t | t in tasks :: CannotEnterTask(s, ignored, t, depth))
  {
    deps, values, s := map[], map[], Source(View(map[], map[]), [], extra);
    var keys := d.Iterate(depth, RIGHT);
    if keys.Err? { return Err(keys.error), deps, values, s; }
    s := Source(d.Now(), d.overrides.value, extra);
    r, deps, values := EnterTasks(d, tasks, ignored, depth, s, extra);
  }

  method EnterTasks(d: DataSmart, tasks: seq<string>, ignored: set<string>, depth: nat, ghost s: Source,
                    extra: map<string, set<string>>)
    returns (r: Result<(), Error>, deps: Deps, values: map<string, Value>)
    requires IsSource(d, s) && s.extra == extra
    modifies d`expandCache, d`overrides, d`inOverride
    ensures r.Ok? ==> IsSource(d, s) && Entered(s, deps, values) && AllEntered(s, ignored, tasks, deps)
    ensures r.Err? ==> exists t | t in tasks :: CannotEnterTask(s, ignored, t, depth)
  {
    deps, values := map[], map[];
    for i := 0 to |tasks|
      invariant IsSource(d, s) && Entered(s, deps, values) && AllEntered(s, ignored, tasks[..i], deps)
    {
      ghost var before := deps;
      r, deps, values := EnterTask(d, tasks[i], deps, values, ignored, depth, s, extra);
      if r.Err? {
        assert tasks[i] in tasks;
        return;
      }
      TaskEntered(s, ignored, tasks[..i], tasks[i], before, deps);
      assert tasks[..i + 1] == tasks[..i] + [tasks[i]];
    }
    assert tasks[..|tasks|] == tasks;
    r := Ok(());
  }

  /** One task: it is built even if it has been entered before. */
  method EnterTask(d: DataSmart, task: string, deps0: Deps, values0: map<string, Value>, ignored: set<string>,
                   depth: nat, ghost s: Source, extra: map<string, set<string>>)
    returns (r: Result<(), Error>, deps: Deps, values: map<string, Value>)
    requires IsSource(d, s) && s.extra == extra && Entered(s, deps0, values0)
    modifies d`expandCache, d`overrides, d`inOverride
    ensures r.Ok? ==> IsSource(d, s) && Entered(s, deps, values)
    ensures r.Ok? ==> forall x :: x in deps <==> x in deps0 || IsOrReaches(s, ignored, task, x)
    ensures r.Err? ==> CannotEnterTask(s, ignored, task, depth)
  {
    deps, values := deps0, values0;
    var built := BuildDependencies(d, task, depth, s, extra);
    if built.Err? {
      assert IsOrReaches(s, ignored, task, task);
      return Err(built.error), deps, values;
    }
    deps, values := deps[task := built.value.0], values[task := built.value.1];
    r, deps, values := EnterReachable(d, task, deps, values, ignored, depth, s, extra);
    if r.Err? {
      ghost var x :| Reaches(GraphOf(s), ignored, task, x) && Eval(s.m, s.overrides, depth, x, false).None?;
      assert IsOrReaches(s, ignored, task, x);
    }
  }
}
