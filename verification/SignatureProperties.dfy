/** What equal signature lists say about two stores: when a task expands to the
    same value in both. */
module SignatureProperties {
  import opened Wrappers
  import opened Store
  import opened ReadGraph
  import opened Reachability
  import opened Dependencies
  import opened Signature
  import opened OverrideLists
  import opened Failures
  import opened Datastore

  /** The expanded value of k, or nothing when it is undefined. */
  ghost function ValueIn(s: Source, k: string): Option<Value>
    requires Readable(s, k)
  {
    ReadIn(s, k).parser.value
  }

  ghost predicate Defined(s: Source, k: string)
    requires Readable(s, k)
  {
    ReadIn(s, k).raw.Some?
  }

  /** k, read in both stores, has one expanded value. */
  ghost predicate SameValue(s: Source, s': Source, k: string) {
    forall r, r' | Reads(s.m, s.overrides, k, true, r) && Reads(s'.m, s'.overrides, k, true, r') ::
      r.parser.value == r'.parser.value
  }

  ghost predicate RecordedAlike(s: Source, s': Source, k: string) {
    Readable(s, k) && Readable(s', k) && RecordedIn(s, k) == RecordedIn(s', k)
  }

  /** The values recorded for names agree, and refer only to names and to ignored
      names, whose expanded values agree. */
  ghost predicate Alike(s: Source, s': Source, names: set<string>, ignored: set<string>) {
    && NoRemoves(s.m) && NoRemoves(s'.m)
    && (forall k | k in names :: RecordedAlike(s, s', k) && Refs(RecordedIn(s, k)) <= names + ignored)
    && (forall k | k in ignored :: SameValue(s, s', k))
  }

  // ---------------------------------------------------------------- what is recorded

  /** The read that is recorded is also the read of the expanded value. */
  lemma RecordedRead(s: Source, k: string)
    requires Readable(s, k)
    ensures Reads(s.m, s.overrides, k, true, ReadIn(s, k))
  {
    var n: nat :| Eval(s.m, s.overrides, n, k, false) == Some(ReadIn(s, k));
    KindsAgree(s.m, s.overrides, n, k);
  }

  // ---------------------------------------------------------------- equal definedness gives equal values

  lemma {:induction false} SamePass(s: Source, s': Source, names: set<string>, ignored: set<string>,
                                    n: nat, n': nat, self: Option<string>, v: Value)
    requires Alike(s, s', names, ignored) && Refs(v) <= names + ignored
    requires forall k | k in names :: Defined(s, k) <==> Defined(s', k)
    requires Pass(s.m, s.overrides, n, self, v).Some? && Pass(s'.m, s'.overrides, n', self, v).Some?
    ensures Pass(s.m, s.overrides, n, self, v) == Pass(s'.m, s'.overrides, n', self, v)
    decreases n, 1, |v|
  {
    if v != [] {
      var init, t := v[..|v| - 1], v[|v| - 1];
      assert v == init + [t];
      RefsAppend(init, [t]);
      SamePass(s, s', names, ignored, n, n', self, init);
      if t.Ref? {
        assert t.name in Refs(v);
        SameEval(s, s', names, ignored, n, n', t.name);
      }
    }
  }

  lemma {:induction false} SameEval(s: Source, s': Source, names: set<string>, ignored: set<string>,
                                    n: nat, n': nat, k: string)
    requires Alike(s, s', names, ignored) && k in names + ignored
    requires forall k | k in names :: Defined(s, k) <==> Defined(s', k)
    requires Eval(s.m, s.overrides, n, k, true).Some? && Eval(s'.m, s'.overrides, n', k, true).Some?
    ensures Eval(s.m, s.overrides, n, k, true).value.parser.value
         == Eval(s'.m, s'.overrides, n', k, true).value.parser.value
    decreases n, 0, 0
  {
    var r, r' := Eval(s.m, s.overrides, n, k, true).value, Eval(s'.m, s'.overrides, n', k, true).value;
    if k in names {
      assert RecordedAlike(s, s', k);
      RecordedRead(s, k);
      RecordedRead(s', k);
      ReadsOne(s.m, s.overrides, k, true, r, ReadIn(s, k));
      ReadsOne(s'.m, s'.overrides, k, true, r', ReadIn(s', k));
      ValueIsPass(s.m, s.overrides, n, k, r);
      ValueIsPass(s'.m, s'.overrides, n', k, r');
      if r.raw.Some? {
        SamePass(s, s', names, ignored, n - 1, n' - 1, Some(k), r.raw.value);
      }
    } else {
      assert SameValue(s, s', k);
    }
  }

  // ---------------------------------------------------------------- equal values give equal definedness

  lemma {:induction false} PassEmbeds(m: View, overrides: seq<string>, n: nat, self: Option<string>, v: Value,
                                      x: string, t: Tok)
    requires Pass(m, overrides, n, self, v).Some? && Ref(x) in v
    requires Eval(m, overrides, n, x, true).Some? ==> t in Substitute(x, Eval(m, overrides, n, x, true).value)
    ensures t in Pass(m, overrides, n, self, v).value
  {
    var init, last := v[..|v| - 1], v[|v| - 1];
    assert v == init + [last];
    if Ref(x) in init {
      PassEmbeds(m, overrides, n, self, init, x, t);
    }
  }

  /** The references in recorded values. */
  ghost function RecordedGraph(s: Source): Graph {
    imap k: string | true :: Refs(RecordedIn(s, k))
  }

  /** A reference to an undefined name stays in every value that leads to it. */
  lemma {:induction false} UndefinedStays(s: Source, s': Source, names: set<string>, ignored: set<string>,
                                          k: string, walk: seq<string>)
    requires Alike(s, s', names, ignored) && k in names && walk != []
    requires IsWalk(RecordedGraph(s), ignored, k, walk)
    ensures walk[|walk| - 1] in names
    ensures !Defined(s, walk[|walk| - 1]) ==>
              ValueIn(s, k).Some? && Ref(walk[|walk| - 1]) in ValueIn(s, k).value
    decreases |walk|
  {
    var x, y := walk[0], walk[|walk| - 1];
    assert RecordedAlike(s, s', k);
    assert Linked(RecordedGraph(s), ignored, k, walk, 0);
    assert x in names;
    if |walk| > 1 {
      WalkFromFirst(RecordedGraph(s), ignored, k, walk);
      UndefinedStays(s, s', names, ignored, x, walk[1..]);
    }
    assert RecordedAlike(s, s', x) && RecordedAlike(s, s', y);
    if !Defined(s, y) {
      UndefinedHasNone(s, y);
      EmbedsIn(s, k, x, Ref(y));
    }
  }

  lemma WalkFromFirst(g: Graph, ignored: set<string>, from: string, walk: seq<string>)
    requires |walk| > 1 && IsWalk(g, ignored, from, walk)
    ensures IsWalk(g, ignored, walk[0], walk[1..]) && walk[1..][|walk| - 2] == walk[|walk| - 1]
  {
    var rest := walk[1..];
    forall i | 0 <= i < |rest| ensures Linked(g, ignored, walk[0], rest, i) {
      assert Linked(g, ignored, from, walk, i + 1);
    }
  }

  lemma UndefinedHasNone(s: Source, k: string)
    requires NoRemoves(s.m) && Readable(s, k)
    ensures Defined(s, k) <==> ValueIn(s, k).Some?
    ensures !Defined(s, k) ==> ReadIn(s, k) == UNDEFINED
  {
    RecordedRead(s, k);
    var n: nat :| Eval(s.m, s.overrides, n, k, true) == Some(ReadIn(s, k));
    ValueIsPass(s.m, s.overrides, n, k, ReadIn(s, k));
  }

  /** What a reference in the recorded value of k stands for is part of the value of k. */
  lemma EmbedsIn(s: Source, k: string, x: string, t: Tok)
    requires NoRemoves(s.m) && Readable(s, k) && Readable(s, x)
    requires Ref(x) in RecordedIn(s, k) && t in Substitute(x, ReadIn(s, x))
    ensures ValueIn(s, k).Some? && t in ValueIn(s, k).value
  {
    RecordedRead(s, k);
    RecordedRead(s, x);
    var r := ReadIn(s, k);
    var n: nat :| Eval(s.m, s.overrides, n, k, true) == Some(r);
    ValueIsPass(s.m, s.overrides, n, k, r);
    var g := Eval(s.m, s.overrides, n - 1, x, true);
    if g.Some? {
      ReadsOne(s.m, s.overrides, x, true, g.value, ReadIn(s, x));
    }
    PassEmbeds(s.m, s.overrides, n - 1, Some(k), r.raw.value, x, t);
  }

  lemma LeftIsUndefined(s: Source, k: string, y: string)
    requires NoRemoves(s.m) && Readable(s, k) && Readable(s, y)
    requires ValueIn(s, k).Some? && Ref(y) in ValueIn(s, k).value
    ensures !Defined(s, y)
  {
    RecordedRead(s, k);
    var n: nat :| Eval(s.m, s.overrides, n, k, true) == Some(ReadIn(s, k));
    EvalUnresolved(s.m, s.overrides, n, k, true);
    assert Eval(s.m, s.overrides, n, y, true) == Some(UNDEFINED);
    RecordedRead(s, y);
    ReadsOne(s.m, s.overrides, y, true, UNDEFINED, ReadIn(s, y));
  }

  // ---------------------------------------------------------------- both directions

  ghost predicate BothDefinedOrNot(s: Source, s': Source, k: string) {
    Readable(s, k) && Readable(s', k) && (Defined(s, k) <==> Defined(s', k))
  }

  /** k is the task or stands in a value that the task's value leads to. */
  ghost predicate UsedBy(s: Source, ignored: set<string>, task: string, k: string) {
    k == task || Reaches(RecordedGraph(s), ignored, task, k)
  }

  /** The stores agree on which of the variables that the task's value leads to are defined. */
  ghost predicate DefinedAlike(s: Source, s': Source, ignored: set<string>, task: string) {
    forall k | UsedBy(s, ignored, task, k) :: BothDefinedOrNot(s, s', k)
  }

  lemma SameValueWhenDefinedAlike(s: Source, s': Source, names: set<string>, ignored: set<string>, task: string)
    requires Alike(s, s', names, ignored) && task in names && DefinedAlike(s, s', ignored, task)
    ensures RecordedAlike(s, s', task) && ValueIn(s, task) == ValueIn(s', task)
  {
    var g := RecordedGraph(s);
    var used := set k | k in names && UsedBy(s, ignored, task, k);
    forall k | k in used ensures RecordedAlike(s, s', k) && Refs(RecordedIn(s, k)) <= used + ignored {
      ReachFirst(g, ignored, task);
      if k != task {
        ReachMore(g, ignored, task, k);
      }
      forall x | x in Refs(RecordedIn(s, k)) ensures x in used + ignored {
        assert x in At(g, k);
      }
    }
    forall k | k in used ensures Defined(s, k) <==> Defined(s', k) {
      assert BothDefinedOrNot(s, s', k);
    }
    RecordedRead(s, task);
    RecordedRead(s', task);
    var n: nat :| Eval(s.m, s.overrides, n, task, true) == Some(ReadIn(s, task));
    var n': nat :| Eval(s'.m, s'.overrides, n', task, true) == Some(ReadIn(s', task));
    SameEval(s, s', used, ignored, n, n', task);
  }

  /** A walk over recorded values is one in both stores. */
  lemma WalkInBoth(s: Source, s': Source, names: set<string>, ignored: set<string>, k: string, walk: seq<string>)
    requires Alike(s, s', names, ignored) && k in names && IsWalk(RecordedGraph(s), ignored, k, walk)
    ensures IsWalk(RecordedGraph(s'), ignored, k, walk)
  {
    forall i | 0 <= i < |walk| ensures Linked(RecordedGraph(s'), ignored, k, walk, i) {
      StepInBoth(s, s', names, ignored, k, walk, i);
    }
  }

  lemma {:induction false} StepInBoth(s: Source, s': Source, names: set<string>, ignored: set<string>,
                                      k: string, walk: seq<string>, i: nat)
    requires Alike(s, s', names, ignored) && k in names && IsWalk(RecordedGraph(s), ignored, k, walk) && i < |walk|
    ensures Linked(RecordedGraph(s'), ignored, k, walk, i) && walk[i] in names
  {
    if i > 0 {
      StepInBoth(s, s', names, ignored, k, walk, i - 1);
    }
    assert Linked(RecordedGraph(s), ignored, k, walk, i);
    SameEdges(s, s', names, ignored, Before(k, walk, i));
  }

  lemma SameEdges(s: Source, s': Source, names: set<string>, ignored: set<string>, k: string)
    requires Alike(s, s', names, ignored) && k in names
    ensures At(RecordedGraph(s'), k) == At(RecordedGraph(s), k) <= names + ignored
  {
    assert RecordedAlike(s, s', k);
  }

  lemma AlikeBothWays(s: Source, s': Source, names: set<string>, ignored: set<string>)
    requires Alike(s, s', names, ignored)
    ensures Alike(s', s, names, ignored)
  {
    forall k | k in names ensures RecordedAlike(s', s, k) && Refs(RecordedIn(s', k)) <= names + ignored {
      assert RecordedAlike(s, s', k);
    }
    forall k | k in ignored ensures SameValue(s', s, k) {
      assert SameValue(s, s', k);
    }
  }

  lemma UndefinedInOne(s: Source, s': Source, names: set<string>, ignored: set<string>, task: string, walk: seq<string>)
    requires Alike(s, s', names, ignored) && task in names && walk != []
    requires IsWalk(RecordedGraph(s), ignored, task, walk)
    requires Readable(s, task) && Readable(s', task) && ValueIn(s, task) == ValueIn(s', task)
    ensures var k := walk[|walk| - 1];
            Readable(s, k) && Readable(s', k) && (!Defined(s, k) ==> !Defined(s', k))
  {
    var k := walk[|walk| - 1];
    UndefinedStays(s, s', names, ignored, task, walk);
    assert RecordedAlike(s, s', k);
    if !Defined(s, k) {
      LeftIsUndefined(s', task, k);
    }
  }

  lemma DefinedAlikeWhenSameValue(s: Source, s': Source, names: set<string>, ignored: set<string>, task: string)
    requires Alike(s, s', names, ignored) && task in names
    requires RecordedAlike(s, s', task) && ValueIn(s, task) == ValueIn(s', task)
    ensures DefinedAlike(s, s', ignored, task)
  {
    AlikeBothWays(s, s', names, ignored);
    forall k | UsedBy(s, ignored, task, k) ensures BothDefinedOrNot(s, s', k) {
      if k == task {
        UndefinedHasNone(s, task);
        UndefinedHasNone(s', task);
      } else {
        var walk :| walk != [] && walk[|walk| - 1] == k && IsWalk(RecordedGraph(s), ignored, task, walk);
        UndefinedInOne(s, s', names, ignored, task, walk);
        WalkInBoth(s, s', names, ignored, task, walk);
        UndefinedInOne(s', s, names, ignored, task, walk);
      }
    }
  }

  // ---------------------------------------------------------------- from the lists

  lemma ClosureIsAlike(s: Source, s': Source, ignored: set<string>, task: string, deps: seq<string>,
                       gen: Deps, values: map<string, Value>, gen': Deps, values': map<string, Value>)
    requires Entered(s, gen, values) && Entered(s', gen', values')
    requires task in values && task in values' && values[task] == values'[task]
    requires forall x | x in deps :: x in values && x in values' && values[x] == values'[x]
    requires IsClosure(GraphOf(s), ignored, task, deps)
    requires NoRemoves(s.m) && NoRemoves(s'.m) && forall k | k in ignored :: SameValue(s, s', k)
    ensures Alike(s, s', (set x | x in deps) + {task}, ignored)
  {
    var names := (set x | x in deps) + {task};
    var g := GraphOf(s);
    forall k | k in names ensures RecordedAlike(s, s', k) && Refs(RecordedIn(s, k)) <= names + ignored {
      assert EnteredAt(s, k, gen[k], values[k]) && EnteredAt(s', k, gen'[k], values'[k]);
      RecordedRefs(s, k);
      ReachFirst(g, ignored, task);
      if k != task {
        ReachMore(g, ignored, task, k);
      }
      forall x | x in Refs(RecordedIn(s, k)) ensures x in names + ignored {
        assert x in At(g, k);
      }
    }
  }

  lemma RecordedRefs(s: Source, k: string)
    requires Readable(s, k) && NoRemoves(s.m)
    ensures Refs(RecordedIn(s, k)) <= DepsIn(s, k)
  {
    var n: nat :| Eval(s.m, s.overrides, n, k, false) == Some(ReadIn(s, k));
    var sub := EvalChosen(s.m, s.overrides, n - 1, k).value;
    if Chosen(s.m, s.overrides, k).Some? {
      NothingRemoved(s.m, s.overrides, n - 1, Chosen(s.m, s.overrides, k).value, false);
    }
    FinishWithoutRemoves(s.m, s.overrides, n - 1, k, false, sub);
    var raw := Assemble(s.m, s.overrides, k, sub);
    if raw.Some? {
      ExpansionIsPass(s.m, s.overrides, n - 1, Some(k), raw.value);
    }
  }

  /** k can be read in both stores and expands to the same value, or to none. */
  ghost predicate SameExpansion(s: Source, s': Source, k: string) {
    Readable(s, k) && Readable(s', k) && ValueIn(s, k) == ValueIn(s', k)
  }

  /** Two stores give a task the same list. When nothing is removed and ignored variables expand
      alike, the task then expands alike exactly when the stores agree on which of the variables
      that its value leads to are defined. */
  lemma SameSignatureSameValue(s: Source, s': Source, ignored: set<string>, task: string,
                               gen: Deps, values: map<string, Value>, deps: seq<string>, data: seq<Item>,
                               gen': Deps, values': map<string, Value>, deps': seq<string>, data': seq<Item>)
    requires NoRemoves(s.m) && NoRemoves(s'.m) && forall k | k in ignored :: SameValue(s, s', k)
    requires Entered(s, gen, values) && IsTaskData(GraphOf(s), ignored, values, task, deps, data)
    requires Entered(s', gen', values') && IsTaskData(GraphOf(s'), ignored, values', task, deps', data')
    requires data == data'
    ensures SameExpansion(s, s', task) <==> DefinedAlike(s, s', ignored, task)
  {
    DataDetermines(values, task, deps, values', deps');
    ClosureIsAlike(s, s', ignored, task, deps, gen, values, gen', values');
    var names := (set x | x in deps) + {task};
    assert RecordedAlike(s, s', task);
    if ValueIn(s, task) == ValueIn(s', task) {
      DefinedAlikeWhenSameValue(s, s', names, ignored, task);
    }
    if DefinedAlike(s, s', ignored, task) {
      SameValueWhenDefinedAlike(s, s', names, ignored, task);
    }
  }

  /** `_build_data`: both passes, with a set object for every entry of the first. */
  method BuildData(d: DataSmart, tasks: seq<string>, ignored: set<string>, depth: nat, extra: map<string, set<string>>)
    returns (r: Result<(map<string, seq<string>>, map<string, seq<Item>>), Error>,
             ghost s: Source, ghost gen: Deps, ghost values: map<string, Value>)
    requires d.Valid() && d.Ready() && d.Coherent()
    modifies d`expandCache, d`overrides, d`inOverride
    ensures r.Ok? ==> IsSource(d, s) && Entered(s, gen, values)
    ensures r.Ok? ==> AllTaskData(GraphOf(s), ignored, values, tasks, r.value.0, r.value.1)
    ensures r.Err? ==>
              || KeepsChanging(old(d.Now())) || !ListReads(old(d.Now()), depth)
              || (s.m == old(d.Now()) && exists t | t in tasks :: CannotEnterTask(s, ignored, t, depth))
  {
    var done, gendeps, lookupcache;
    done, gendeps, lookupcache, s := GenerateDependencies(d, tasks, ignored, depth, extra);
    gen, values := gendeps, lookupcache;
    if done.Err? { return Err(done.error), s, gen, values; }
    var taskdeps, datas := HashEntered(tasks, gendeps, lookupcache, ignored, s);
    r := Ok((taskdeps, datas));
  }

  /** The second pass over what the first one entered. */
  method HashEntered(tasks: seq<string>, gendeps: Deps, lookupcache: map<string, Value>, ignored: set<string>,
                     ghost s: Source)
    returns (taskdeps: map<string, seq<string>>, datas: map<string, seq<Item>>)
    requires Entered(s, gendeps, lookupcache) && AllEntered(s, ignored, tasks, gendeps)
    ensures AllTaskData(GraphOf(s), ignored, lookupcache, tasks, taskdeps, datas)
  {
    var sets := SetObjects(gendeps);
    forall k | k in sets ensures TrimmedAt(GraphOf(s), ignored, k, sets[k]) {
      assert EnteredAt(s, k, gendeps[k], lookupcache[k]);
    }
    forall t | t in tasks ensures Complete(GraphOf(s), ignored, sets.Keys, t) {
      EnteredIsComplete(s, ignored, tasks, gendeps, t);
    }
    taskdeps, datas := GenerateDependencyHash(tasks, sets, lookupcache, ignored, GraphOf(s));
  }

  lemma EnteredIsComplete(s: Source, ignored: set<string>, tasks: seq<string>, gen: Deps, t: string)
    requires AllEntered(s, ignored, tasks, gen) && t in tasks
    ensures Complete(GraphOf(s), ignored, gen.Keys, t)
  {
    forall x | IsOrReaches(s, ignored, t, x) ensures x in gen {
      assert ReachedFrom(s, ignored, tasks, x);
    }
    assert IsOrReaches(s, ignored, t, t);
    forall x | Reaches(GraphOf(s), ignored, t, x) ensures x in gen {
      assert IsOrReaches(s, ignored, t, x);
    }
  }

  method SetObjects(gen: Deps) returns (sets: NameSets)
    ensures sets.Keys == gen.Keys && fresh(sets.Values) && forall k | k in sets :: sets[k].names == gen[k]
  {
    sets := map[];
    var todo := gen.Keys;
    while todo != {}
      invariant todo <= gen.Keys && sets.Keys == gen.Keys - todo
      invariant forall k | k in sets :: fresh(sets[k]) && sets[k].names == gen[k]
      decreases todo
    {
      var k :| k in todo;
      var own := new NameSet(gen[k]);
      sets := sets[k := own];
      todo := todo - {k};
    }
  }

  // ---------------------------------------------------------------- undefined and empty look alike

  const V := "V"
  const U := "U"

  /** V refers to U, which is undefined or empty. */
  function Using(empty: bool): Source {
    var v := NO_ENTRY.(content := Some([Ref(U)]));
    var u := NO_ENTRY.(content := Some([]));
    Source(View(if empty then map[V := v, U := u] else map[V := v], map[]), [], map[])
  }

  lemma ReadU(empty: bool, exp: bool)
    ensures var s, text: Value := Using(empty), [];
            Eval(s.m, [], 1, U, exp) == Some(if empty then Read(Some(text), Parser(Some(text), {}, {})) else UNDEFINED)
  {
    var s, text: Value := Using(empty), [];
    assert EvalChosen(s.m, [], 0, U) == Some(UNDEFINED);
    assert EntryOf(s.m, U) == Entry(if empty then Some(text) else None, None, [], [], [], map[]);
    assert Appended(Base(EntryOf(s.m, U)), [], []) == Base(EntryOf(s.m, U));
    assert Assemble(s.m, [], U, UNDEFINED) == if empty then Some(text) else None;
    if empty {
      assert Pass(s.m, [], 0, Some(U), text) == Some(text);
      assert Refs(text) == {};
      assert Expand(s.m, [], 0, Some(U), text) == Some(Expansion(text, {}));
      assert ToRemove(s.m, [], U, UNDEFINED, text) == {};
    }
  }

  /** What the reference to U stands for. */
  function InV(empty: bool): Value {
    if empty then [] else [Ref(U)]
  }

  lemma ExpandV(empty: bool)
    ensures Expand(Using(empty).m, [], 1, Some(V), [Ref(U)]) == Some(Expansion(InV(empty), {U}))
  {
    var m, raw: Value := Using(empty).m, [Ref(U)];
    ReadU(empty, true);
    assert [] + [Ref(U)] == raw;
    assert Pass(m, [], 1, Some(V), []) == Some([]);
    PassStep(m, [], 1, Some(V), [], [], U, Eval(m, [], 1, U, true).value);
    assert [] + InV(empty) == InV(empty);
    assert Refs(raw) == {U} && Refs(raw) + Refs(InV(empty)) == {U};
  }

  lemma ReadV(empty: bool)
    ensures Eval(Using(empty).m, [], 2, V, false) ==
            Some(Read(Some([Ref(U)]), Parser(Some(InV(empty)), {U}, {})))
  {
    var m, raw: Value := Using(empty).m, [Ref(U)];
    assert EvalChosen(m, [], 1, V) == Some(UNDEFINED);
    assert EntryOf(m, V) == Entry(Some(raw), None, [], [], [], map[]);
    assert Appended(Some(raw), [], []) == Some(raw);
    assert Assemble(m, [], V, UNDEFINED) == Some(raw);
    ExpandV(empty);
    assert forall k | k in m.vars :: m.vars[k].removes == [];
    var x := Expansion(InV(empty), {U});
    assert ActiveRemoves([], []) == {};
    assert Finish(m, [], 1, V, false, UNDEFINED) == Removed(m, [], 1, raw, x, {});
    assert Removed(m, [], 1, raw, x, {}) == Some(Read(Some(raw), Parser(Some(x.value), {U}, {})));
  }

  /** With U undefined in one store and empty in the other, V has the same closure
      and the same recorded values, and so the same list, but another value. */
  lemma UndefinedLooksEmpty()
    ensures var s, s' := Using(false), Using(true);
            && RecordedAlike(s, s', V) && RecordedAlike(s, s', U)
            && DepsIn(s, V) == DepsIn(s', V) == {U} && DepsIn(s, U) == DepsIn(s', U) == {}
            && ValueIn(s, V) != ValueIn(s', V)
  {
    forall empty: bool
      ensures var s := Using(empty);
              && Readable(s, V) && ReadIn(s, V) == Read(Some([Ref(U)]), Parser(Some(InV(empty)), {U}, {}))
              && Readable(s, U) && ReadIn(s, U).parser.references == {} && OrEmpty(ReadIn(s, U).raw) == []
    {
      ReadV(empty);
      ReadU(empty, false);
      var s := Using(empty);
      ReadInIs(s, V, Eval(s.m, [], 2, V, false).value);
      ReadInIs(s, U, Eval(s.m, [], 1, U, false).value);
    }
  }
}
