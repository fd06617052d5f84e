/** `generate_dependency_hash`: the closure of each task's dependencies, over
    sets that are shared between tasks and trimmed in place, and the list that
    the task's base hash is computed from. */
module Signature {
  import opened Store
  import opened Reachability
  import opened NameOrder

  /** One element of the list before joining: a name, or the value recorded for one. */
  datatype Item = Name(name: string) | Text(value: Value)

  /** A set object, which its holders change in place. */
  class NameSet {
    var names: set<string>

    constructor (names: set<string>)
      ensures this.names == names
    {
      this.names := names;
    }
  }

  type NameSets = map<string, NameSet>

  /** Every set holds the dependencies of its name, with or without the ignored ones. */
  ghost predicate Trimmed(g: Graph, ignored: set<string>, sets: NameSets)
    reads sets.Values
  {
    forall k | k in sets :: TrimmedAt(g, ignored, k, sets[k])
  }

  ghost predicate TrimmedAt(g: Graph, ignored: set<string>, k: string, own: NameSet)
    reads own
  {
    own.names == At(g, k) || own.names == At(g, k) - ignored
  }

  /** `gendeps[k] -= ignored` */
  method TrimSet(sets: NameSets, k: string, ignored: set<string>, ghost g: Graph)
    requires Trimmed(g, ignored, sets) && k in sets
    modifies sets.Values
    ensures Trimmed(g, ignored, sets) && sets[k].names == At(g, k) - ignored
    ensures forall o | o in sets.Values && old(o.names) !! ignored :: o.names == old(o.names)
  {
    var own := sets[k];
    ghost var before := own.names;
    own.names := own.names - ignored;
    forall x | x in sets ensures TrimmedAt(g, ignored, x, sets[x]) {
      assert old(TrimmedAt(g, ignored, x, sets[x]));
    }
    assert old(TrimmedAt(g, ignored, k, sets[k]));
    assert before !! ignored ==> own.names == before;
  }

  /** One round over the names of next, which is not changed although it may be one of the sets trimmed. */
  method FollowRound(sets: NameSets, next: NameSet, ignored: set<string>, ghost g: Graph) returns (newdeps: NameSet)
    requires Trimmed(g, ignored, sets) && next.names <= sets.Keys && next.names !! ignored
    modifies sets.Values
    ensures Trimmed(g, ignored, sets) && next.names == old(next.names)
    ensures fresh(newdeps) && newdeps.names == DepsOfAll(g, next.names) - ignored
  {
    newdeps := new NameSet({});
    var todo := next.names;
    ghost var done: set<string> := {};
    while todo != {}
      invariant Trimmed(g, ignored, sets) && next.names == old(next.names) == done + todo
      invariant newdeps !in sets.Values && newdeps != next && newdeps.names == DepsOfAll(g, done) - ignored
      decreases todo
    {
      var dep :| dep in todo;
      todo := todo - {dep};
      if dep !in ignored {
        TrimSet(sets, dep, ignored, g);
        newdeps.names := newdeps.names + sets[dep].names;
      }
      DepsOfOneMore(g, done, dep);
      done := done + {dep};
    }
    assert done == next.names;
  }

  lemma FrontierTrimmed(g: Graph, ignored: set<string>, from: string, seen: set<string>, next: set<string>,
                        found: set<string>)
    requires Frontier(g, ignored, from, seen, next) && next !! ignored && found == DepsOfAll(g, next) - ignored
    ensures Frontier(g, ignored, from, seen + next, found - (seen + next))
  {
    assert next - ignored == next;
    FrontierMoves(g, ignored, from, seen, next, DepsOfAll(g, next));
  }

  /** What the worklist has done so far. */
  ghost predicate Following(g: Graph, ignored: set<string>, task: string, names: set<string>,
                            seen: set<string>, next: set<string>) {
    Frontier(g, ignored, task, seen, next) && next !! ignored && seen !! next && seen + next <= names
  }

  lemma FollowStarts(g: Graph, ignored: set<string>, task: string, names: set<string>)
    requires forall x | Reaches(g, ignored, task, x) :: x in names
    ensures Following(g, ignored, task, names, {}, At(g, task) - ignored)
  {
    ReachFirst(g, ignored, task);
  }

  lemma FollowMoves(g: Graph, ignored: set<string>, task: string, names: set<string>,
                    seen: set<string>, next: set<string>, found: set<string>)
    requires Following(g, ignored, task, names, seen, next) && next != {}
    requires forall x | Reaches(g, ignored, task, x) :: x in names
    requires found == DepsOfAll(g, next) - ignored
    ensures Following(g, ignored, task, names, seen + next, found - (seen + next))
    ensures names - (seen + next) < names - seen
  {
    FrontierTrimmed(g, ignored, task, seen, next, found);
    var x :| x in next;
    assert x in names - seen && x !in names - (seen + next);
  }

  /** The worklist of `generate_dependency_hash` for one task. */
  method FollowDeps(sets: NameSets, task: string, ignored: set<string>, ghost g: Graph) returns (seen: set<string>)
    requires Trimmed(g, ignored, sets) && task in sets
    requires forall x | Reaches(g, ignored, task, x) :: x in sets
    modifies sets.Values
    ensures Trimmed(g, ignored, sets)
    ensures forall x :: x in seen <==> Reaches(g, ignored, task, x)
  {
    TrimSet(sets, task, ignored, g);
    var newdeps := sets[task];
    seen := {};
    FollowStarts(g, ignored, task, sets.Keys);
    while newdeps.names != {}
      invariant Trimmed(g, ignored, sets) && (newdeps in sets.Values || fresh(newdeps))
      invariant Following(g, ignored, task, sets.Keys, seen, newdeps.names)
      decreases sets.Keys - seen
    {
      var nextdeps := newdeps;
      ghost var done, next := seen, nextdeps.names;
      seen := seen + nextdeps.names;
      newdeps := FollowRound(sets, nextdeps, ignored, g);
      FollowMoves(g, ignored, task, sets.Keys, done, next, newdeps.names);
      newdeps.names := newdeps.names - seen;
    }
    FrontierEmpty(g, ignored, task, seen);
  }

  // ---------------------------------------------------------------- the list

  function Pairs(values: map<string, Value>, deps: seq<string>): seq<Item>
    requires forall x | x in deps :: x in values
  {
    if deps == [] then []
    else
      var n := |deps| - 1;
      assert deps[n] in deps && forall x | x in deps[..n] :: x in deps;
      Pairs(values, deps[..n]) + [Name(deps[n]), Text(values[deps[n]])]
  }

  /** The list that is joined and hashed: the task's value, then each dependency with its value. */
  function DataOf(values: map<string, Value>, task: string, deps: seq<string>): seq<Item>
    requires task in values && forall x | x in deps :: x in values
  {
    [Text(values[task])] + Pairs(values, deps)
  }

  method CollectData(values: map<string, Value>, task: string, deps: seq<string>) returns (data: seq<Item>)
    requires task in values && forall x | x in deps :: x in values
    ensures data == DataOf(values, task, deps)
  {
    data := [Text(values[task])];
    for i := 0 to |deps|
      invariant forall x | x in deps[..i] :: x in deps
      invariant data == DataOf(values, task, deps[..i])
    {
      assert deps[..i + 1][..i] == deps[..i];
      data := data + [Name(deps[i])];
      data := data + [Text(values[deps[i]])];
    }
    assert deps[..|deps|] == deps;
  }

  lemma {:induction false} PairsLength(values: map<string, Value>, deps: seq<string>)
    requires forall x | x in deps :: x in values
    ensures |Pairs(values, deps)| == 2 * |deps|
  {
    if deps != [] {
      PairsLength(values, deps[..|deps| - 1]);
    }
  }

  /** The list of pairs says which names are in it and what is recorded for them. */
  lemma {:induction false} PairsDetermine(values: map<string, Value>, deps: seq<string>,
                                          values': map<string, Value>, deps': seq<string>)
    requires forall x | x in deps :: x in values
    requires forall x | x in deps' :: x in values'
    requires Pairs(values, deps) == Pairs(values', deps')
    ensures deps == deps' && forall x | x in deps :: values[x] == values'[x]
  {
    PairsLength(values, deps);
    PairsLength(values', deps');
    if deps != [] {
      var n := |deps| - 1;
      var p, p' := Pairs(values, deps), Pairs(values', deps');
      assert forall x | x in deps[..n] :: x in deps;
      assert forall x | x in deps'[..n] :: x in deps';
      PairsLength(values, deps[..n]);
      PairsLength(values', deps'[..n]);
      assert p[2 * n] == Name(deps[n]) && p'[2 * n] == Name(deps'[n]);
      assert p[2 * n + 1] == Text(values[deps[n]]) && p'[2 * n + 1] == Text(values'[deps'[n]]);
      assert p[..2 * n] == Pairs(values, deps[..n]) && p'[..2 * n] == Pairs(values', deps'[..n]);
      PairsDetermine(values, deps[..n], values', deps'[..n]);
      assert deps == deps[..n] + [deps[n]] && deps' == deps'[..n] + [deps'[n]];
      assert forall x | x in deps :: x in deps[..n] || x == deps[n];
    }
  }

  lemma DataDetermines(values: map<string, Value>, task: string, deps: seq<string>,
                       values': map<string, Value>, deps': seq<string>)
    requires task in values && forall x | x in deps :: x in values
    requires task in values' && forall x | x in deps' :: x in values'
    ensures DataOf(values, task, deps) == DataOf(values', task, deps') <==>
            deps == deps' && values[task] == values'[task] && forall x | x in deps :: values[x] == values'[x]
  {
    var d, d' := DataOf(values, task, deps), DataOf(values', task, deps');
    assert d[0] == Text(values[task]) && d'[0] == Text(values'[task]);
    assert d[1..] == Pairs(values, deps) && d'[1..] == Pairs(values', deps');
    if d == d' {
      PairsDetermine(values, deps, values', deps');
    } else if deps == deps' && forall x | x in deps :: values[x] == values'[x] {
      PairsSame(values, values', deps);
    }
  }

  lemma {:induction false} PairsSame(values: map<string, Value>, values': map<string, Value>, deps: seq<string>)
    requires forall x | x in deps :: x in values && x in values' && values[x] == values'[x]
    ensures Pairs(values, deps) == Pairs(values', deps)
  {
    if deps != [] {
      var n := |deps| - 1;
      assert deps[n] in deps && forall x | x in deps[..n] :: x in deps;
      PairsSame(values, values', deps[..n]);
    }
  }

  // ---------------------------------------------------------------- all tasks

  ghost predicate IsClosure(g: Graph, ignored: set<string>, task: string, deps: seq<string>) {
    Sorted(deps) && forall x :: x in deps <==> Reaches(g, ignored, task, x)
  }

  /** The sorted closure is one list, whatever order sets and tasks are visited in. */
  lemma ClosureIsUnique(g: Graph, ignored: set<string>, task: string, deps: seq<string>, deps': seq<string>)
    requires IsClosure(g, ignored, task, deps) && IsClosure(g, ignored, task, deps')
    ensures deps == deps'
  {
    forall x ensures x in deps <==> x in deps' {
      assert x in deps <==> Reaches(g, ignored, task, x);
    }
    SortedIsUnique(deps, deps');
  }

  ghost predicate IsTaskData(g: Graph, ignored: set<string>, values: map<string, Value>, task: string,
                             deps: seq<string>, data: seq<Item>) {
    && IsClosure(g, ignored, task, deps)
    && task in values && (forall x | x in deps :: x in values)
    && data == DataOf(values, task, deps)
  }

  /** Everything a task reaches has been entered. */
  ghost predicate Complete(g: Graph, ignored: set<string>, names: set<string>, task: string) {
    task in names && forall x | Reaches(g, ignored, task, x) :: x in names
  }

  /** The closure and the list of one task. */
  method TaskData(task: string, gendeps: NameSets, lookupcache: map<string, Value>, ignored: set<string>,
                  ghost g: Graph)
    returns (alldeps: seq<string>, data: seq<Item>)
    requires Trimmed(g, ignored, gendeps) && gendeps.Keys == lookupcache.Keys
    requires Complete(g, ignored, gendeps.Keys, task)
    modifies gendeps.Values
    ensures Trimmed(g, ignored, gendeps) && IsTaskData(g, ignored, lookupcache, task, alldeps, data)
  {
    var seen := FollowDeps(gendeps, task, ignored, g);
    alldeps := Sort(seen);
    assert IsClosure(g, ignored, task, alldeps);
    data := CollectData(lookupcache, task, alldeps);
  }

  ghost predicate AllTaskData(g: Graph, ignored: set<string>, values: map<string, Value>, tasks: seq<string>,
                              taskdeps: map<string, seq<string>>, datas: map<string, seq<Item>>) {
    && (forall t :: t in tasks <==> t in taskdeps)
    && taskdeps.Keys == datas.Keys
    && forall t | t in taskdeps :: IsTaskData(g, ignored, values, t, taskdeps[t], datas[t])
  }

  lemma AllTaskDataMore(g: Graph, ignored: set<string>, values: map<string, Value>, tasks: seq<string>,
                        taskdeps: map<string, seq<string>>, datas: map<string, seq<Item>>,
                        t: string, deps: seq<string>, data: seq<Item>)
    requires AllTaskData(g, ignored, values, tasks, taskdeps, datas) && IsTaskData(g, ignored, values, t, deps, data)
    ensures AllTaskData(g, ignored, values, tasks + [t], taskdeps[t := deps], datas[t := data])
  {
  }

  /** `generate_dependency_hash`, up to joining the lists and hashing them. */
  method GenerateDependencyHash(tasks: seq<string>, gendeps: NameSets, lookupcache: map<string, Value>,
                                ignored: set<string>, ghost g: Graph)
    returns (taskdeps: map<string, seq<string>>, datas: map<string, seq<Item>>)
    requires Trimmed(g, ignored, gendeps) && gendeps.Keys == lookupcache.Keys
    requires forall t | t in tasks :: Complete(g, ignored, gendeps.Keys, t)
    modifies gendeps.Values
    ensures Trimmed(g, ignored, gendeps) && AllTaskData(g, ignored, lookupcache, tasks, taskdeps, datas)
  {
    taskdeps, datas := map[], map[];
    for i := 0 to |tasks|
      invariant Trimmed(g, ignored, gendeps) && AllTaskData(g, ignored, lookupcache, tasks[..i], taskdeps, datas)
    {
      var task := tasks[i];
      assert task in tasks;
      var alldeps, data := TaskData(task, gendeps, lookupcache, ignored, g);
      AllTaskDataMore(g, ignored, lookupcache, tasks[..i], taskdeps, datas, task, alldeps, data);
      assert tasks[..i + 1] == tasks[..i] + [task];
      taskdeps, datas := taskdeps[task := alldeps], datas[task := data];
    }
    assert tasks[..|tasks|] == tasks;
  }
}
