/** The dependency lists of a recipe's tasks, and the tasks between two tasks. */
module TaskGraph {
  import opened Wrappers
  import opened Text

  // ---------------------------------------------------------------- the lists that addtask and deltask maintain

  function TaskName(task: string): string {
    if StartsWith(task, "do_") then task else "do_" + task
  }

  /** The name begins with `do_`, and it makes no difference whether this is written. */
  lemma TaskNameIs(task: string)
    ensures StartsWith(TaskName(task), "do_") && TaskName(TaskName(task)) == TaskName(task)
    ensures !StartsWith(task, "do_") ==> TaskName("do_" + task) == TaskName(task)
  {
    assert ("do_" + task)[..3] == "do_";
  }

  /** y has a list that names x. */
  predicate Names(deps: map<string, seq<string>>, y: string, x: string) {
    y in deps && x in deps[y]
  }

  /** The part of a recipe's datastore that describes its tasks: `__BBTASKS` and
      the flags `task` and `deps`. */
  class Recipe {
    var bbtasks: seq<string>
    var taskFlags: set<string>
    var deps: map<string, seq<string>>

    constructor ()
      ensures bbtasks == [] && taskFlags == {} && deps == map[] && Valid()
    {
      bbtasks, taskFlags, deps := [], {}, map[];
    }

    /** Tasks are listed once, are flagged, and have a dependency list without repetitions. */
    ghost predicate Valid()
      reads this
    {
      && Distinct(bbtasks)
      && (forall t :: t in bbtasks <==> t in taskFlags)
      && (forall t | t in bbtasks :: t in deps)
      && (forall t | t in deps :: Distinct(deps[t]))
    }

    /** y's list names x. */
    predicate DependsOn(y: string, x: string)
      reads this
    {
      Names(deps, y, x)
    }

    /** `addtask name after ... before ...` */
    method AddTask(name: string, before: seq<string>, after: seq<string>)
      requires Valid()
      modifies this
      ensures Valid()
      ensures var task := TaskName(name);
              && (forall t :: t in bbtasks <==> t in old(bbtasks) || t == task)
              && old(bbtasks) <= bbtasks
              && (forall x, y :: DependsOn(y, x) <==>
                    old(DependsOn(y, x)) || (y == task && x in after) || (x == task && y in before))
    {
      var task := TaskName(name);
      taskFlags := taskFlags + {task};
      if task !in bbtasks {
        bbtasks := bbtasks + [task];
      }
      var existing := if task in deps then deps[task] else [];
      for i := 0 to |after|
        invariant Distinct(existing)
        invariant forall x :: x in existing <==> old(DependsOn(task, x)) || x in after[..i]
      {
        if after[i] !in existing {
          existing := existing + [after[i]];
        }
        assert after[..i + 1] == after[..i] + [after[i]];
      }
      assert after[..|after|] == after;
      deps := deps[task := existing];
      AddBefore(task, before);
    }

    /** The second loop of `addtask`: what comes after the task depends on it. */
    method AddBefore(task: string, before: seq<string>)
      requires Valid()
      modifies this`deps
      ensures Valid()
      ensures forall x, y :: DependsOn(y, x) <==> old(DependsOn(y, x)) || (x == task && y in before)
    {
      for i := 0 to |before|
        invariant Valid()
        invariant forall x, y :: DependsOn(y, x) <==> old(DependsOn(y, x)) || (x == task && y in before[..i])
      {
        var entry := before[i];
        var own := if entry in deps then deps[entry] else [];
        if task !in own {
          deps := deps[entry := [task] + own];
        }
        assert before[..i + 1] == before[..i] + [entry];
      }
      assert before[..|before|] == before;
    }

    /** `deltask name` */
    method DelTask(name: string)
      requires Valid()
      modifies this
      ensures Valid()
      ensures var task := TaskName(name);
              && (forall t :: t in bbtasks <==> t in old(bbtasks) && t != task)
              && (forall x, y | y in bbtasks :: DependsOn(y, x) <==> old(DependsOn(y, x)) && x != task)
              && task !in deps
    {
      var task := TaskName(name);
      if task in bbtasks {
        RemovedOnce(bbtasks, task);
        RemovedDistinct(bbtasks, task);
        bbtasks := Remove(bbtasks, task);
        taskFlags := taskFlags - {task};
      }
      deps := deps - {task};
      RemoveFromLists(task);
    }

    /** The loop of `deltask`: no task depends on the deleted one. */
    method RemoveFromLists(task: string)
      requires Valid() && task !in bbtasks && task !in deps
      modifies this`deps
      ensures Valid() && task !in deps
      ensures forall x, y | y in bbtasks :: DependsOn(y, x) <==> old(DependsOn(y, x)) && x != task
    {
      ghost var was := deps;
      for i := 0 to |bbtasks|
        invariant Valid() && task !in deps
        invariant forall y | y in deps :: y in was
        invariant forall k | i <= k < |bbtasks| :: deps[bbtasks[k]] == was[bbtasks[k]]
        invariant forall k, x | 0 <= k < i :: Names(deps, bbtasks[k], x) <==> Names(was, bbtasks[k], x) && x != task
      {
        var t := bbtasks[i];
        assert t in deps;
        if task in deps[t] {
          RemovedOnce(deps[t], task);
          RemovedDistinct(deps[t], task);
          deps := deps[t := Remove(deps[t], task)];
        }
      }
      forall x, y | y in bbtasks ensures Names(deps, y, x) <==> Names(was, y, x) && x != task {
        var k :| 0 <= k < |bbtasks| && bbtasks[k] == y;
      }
    }
  }

  /** `list.remove`: the first occurrence. */
  function Remove(s: seq<string>, x: string): seq<string> {
    if s == [] then []
    else if s[0] == x then s[1..]
    else [s[0]] + Remove(s[1..], x)
  }

  lemma {:induction false} RemovedOnce(s: seq<string>, x: string)
    requires Distinct(s)
    ensures forall y :: y in Remove(s, x) <==> y in s && y != x
  {
    if s != [] {
      assert forall y :: y in s <==> y == s[0] || y in s[1..];
      RemovedOnce(s[1..], x);
    }
  }

  lemma {:induction false} RemovedDistinct(s: seq<string>, x: string)
    requires Distinct(s)
    ensures Distinct(Remove(s, x))
  {
    if s != [] && s[0] != x {
      RemovedOnce(s[1..], x);
      RemovedDistinct(s[1..], x);
      var rest := Remove(s[1..], x);
      forall i | 0 <= i < |rest| ensures rest[i] != s[0] {
        assert rest[i] in rest;
      }
    }
  }

  // ---------------------------------------------------------------- the tasks between two tasks

  datatype PathError = Circular(chain: seq<string>) | NoList(task: string)

  /** The tasks of a recipe and their lists. */
  datatype Graph = Graph(tasks: seq<string>, deps: map<string, seq<string>>)

  predicate Edge(g: Graph, x: string, y: string) {
    y in g.tasks && y != x && Names(g.deps, y, x)
  }

  predicate Follows(g: Graph, end: string, walk: seq<string>, i: nat)
    requires 0 < i < |walk|
  {
    walk[i - 1] != end && Edge(g, walk[i - 1], walk[i])
  }

  /** A chain of dependent tasks that stops at end if it gets there. */
  ghost predicate IsWalk(g: Graph, end: string, walk: seq<string>) {
    forall i | 0 < i < |walk| :: Follows(g, end, walk, i)
  }

  /** A walk that goes on from c. */
  ghost predicate Extends(g: Graph, end: string, c: seq<string>, walk: seq<string>) {
    c <= walk && IsWalk(g, end, walk)
  }

  /** The same, and what comes next is one of some. */
  ghost predicate ExtendsBy(g: Graph, end: string, c: seq<string>, some: seq<string>, walk: seq<string>) {
    Extends(g, end, c, walk) && (|walk| > |c| ==> walk[|c|] in some)
  }

  predicate Ends(walk: seq<string>, end: string) {
    walk != [] && walk[|walk| - 1] == end
  }

  /** The loop that reports a chain runs once for every task but end. */
  predicate OtherThan(tasks: seq<string>, end: string) {
    exists t | t in tasks :: t != end
  }

  /** t lies on a walk from c to end, and the walk is reported. */
  ghost predicate OnRoute(g: Graph, end: string, c: seq<string>, some: seq<string>, t: string) {
    OtherThan(g.tasks, end) && exists walk :: ExtendsBy(g, end, c, some, walk) && Ends(walk, end) && t in walk
  }

  ghost predicate NoCycle(g: Graph, end: string, c: seq<string>, some: seq<string>) {
    forall walk | ExtendsBy(g, end, c, some, walk) :: Distinct(walk)
  }

  ghost predicate Repeats(g: Graph, end: string, c: seq<string>) {
    exists walk :: Extends(g, end, c, walk) && !Distinct(walk)
  }

  /** What has been found from c on, over the next tasks in some. */
  ghost predicate FoundAlong(g: Graph, end: string, c: seq<string>, some: seq<string>,
                             before: seq<string>, found: seq<string>) {
    && before <= found && Distinct(found)
    && (forall t :: t in found <==> t in before || OnRoute(g, end, c, some, t))
    && NoCycle(g, end, c, some)
  }

  /** Walks from c over more next tasks are walks over the earlier ones or walks from c with the new task. */
  lemma OneMore(g: Graph, end: string, c: seq<string>, some: seq<string>, y: string, walk: seq<string>)
    requires c != []
    ensures ExtendsBy(g, end, c, some + [y], walk) <==>
            ExtendsBy(g, end, c, some, walk) || Extends(g, end, c + [y], walk)
  {
    if c <= walk && |walk| > |c| {
      assert walk[|c|] == y <==> c + [y] <= walk;
    }
  }

  lemma FoundOneMore(g: Graph, end: string, c: seq<string>, some: seq<string>, y: string,
                     before: seq<string>, found: seq<string>, found': seq<string>)
    requires c != [] && FoundAlong(g, end, c, some, before, found)
    requires FoundAlong(g, end, c + [y], g.tasks, found, found')
    ensures FoundAlong(g, end, c, some + [y], before, found')
  {
    forall walk ensures ExtendsBy(g, end, c, some + [y], walk) <==>
                        ExtendsBy(g, end, c, some, walk) || Extends(g, end, c + [y], walk)
    {
      OneMore(g, end, c, some, y, walk);
    }
    forall walk ensures Extends(g, end, c + [y], walk) <==> ExtendsBy(g, end, c + [y], g.tasks, walk) {
      NextIsTask(g, end, c + [y], walk);
    }
    forall t ensures t in found' <==> t in before || OnRoute(g, end, c, some + [y], t) {
      if OnRoute(g, end, c, some + [y], t) {
        var walk :| ExtendsBy(g, end, c, some + [y], walk) && Ends(walk, end) && t in walk;
        assert ExtendsBy(g, end, c, some, walk) || ExtendsBy(g, end, c + [y], g.tasks, walk);
        assert OnRoute(g, end, c, some, t) || OnRoute(g, end, c + [y], g.tasks, t);
      }
      if OnRoute(g, end, c, some, t) {
        var walk :| ExtendsBy(g, end, c, some, walk) && Ends(walk, end) && t in walk;
        assert ExtendsBy(g, end, c, some + [y], walk);
      }
      if OnRoute(g, end, c + [y], g.tasks, t) {
        var walk :| ExtendsBy(g, end, c + [y], g.tasks, walk) && Ends(walk, end) && t in walk;
        assert ExtendsBy(g, end, c, some + [y], walk);
      }
    }
  }

  lemma NextIsTask(g: Graph, end: string, c: seq<string>, walk: seq<string>)
    requires c != []
    ensures Extends(g, end, c, walk) <==> ExtendsBy(g, end, c, g.tasks, walk)
  {
    if Extends(g, end, c, walk) && |walk| > |c| {
      assert Follows(g, end, walk, |c|);
    }
  }

  /** A task that does not depend on the last one of c is not next on any walk. */
  lemma SkipOne(g: Graph, end: string, c: seq<string>, some: seq<string>, y: string,
                before: seq<string>, found: seq<string>)
    requires c != [] && FoundAlong(g, end, c, some, before, found) && !Edge(g, c[|c| - 1], y)
    ensures FoundAlong(g, end, c, some + [y], before, found)
  {
    forall walk ensures ExtendsBy(g, end, c, some + [y], walk) <==> ExtendsBy(g, end, c, some, walk) {
      if Extends(g, end, c, walk) && |walk| > |c| {
        assert Follows(g, end, walk, |c|);
      }
    }
    forall t ensures OnRoute(g, end, c, some + [y], t) <==> OnRoute(g, end, c, some, t) {
      if OnRoute(g, end, c, some + [y], t) {
        var walk :| ExtendsBy(g, end, c, some + [y], walk) && Ends(walk, end) && t in walk;
        assert ExtendsBy(g, end, c, some, walk);
      }
      if OnRoute(g, end, c, some, t) {
        var walk :| ExtendsBy(g, end, c, some, walk) && Ends(walk, end) && t in walk;
        assert ExtendsBy(g, end, c, some + [y], walk);
      }
    }
  }

  /** Before any next task is tried, the only walk is c itself. */
  lemma FoundNothing(g: Graph, end: string, c: seq<string>, found: seq<string>)
    requires c != [] && c[|c| - 1] != end && Distinct(c) && Distinct(found)
    ensures FoundAlong(g, end, c, [], found, found)
  {
  }

  /** From end no walk goes on. */
  lemma NothingAfterEnd(g: Graph, end: string, c: seq<string>, walk: seq<string>)
    requires Ends(c, end)
    ensures Extends(g, end, c, walk) ==> walk == c
  {
    if |walk| > |c| {
      StepOf(g, end, walk, |c|);
    }
  }

  lemma StepOf(g: Graph, end: string, walk: seq<string>, i: nat)
    requires 0 < i < |walk|
    ensures IsWalk(g, end, walk) ==> Follows(g, end, walk, i)
  {
  }

  lemma FoundAtEnd(g: Graph, end: string, c: seq<string>, before: seq<string>, found: seq<string>)
    requires Ends(c, end) && IsWalk(g, end, c) && Distinct(c)
    requires before <= found && Distinct(found)
    requires forall t :: t in found <==> t in before || (OtherThan(g.tasks, end) && t in c)
    ensures FoundAlong(g, end, c, g.tasks, before, found)
  {
    forall walk ensures ExtendsBy(g, end, c, g.tasks, walk) <==> walk == c {
      NothingAfterEnd(g, end, c, walk);
    }
    assert ExtendsBy(g, end, c, g.tasks, c) && Ends(c, end);
  }

  lemma WalkGrows(g: Graph, end: string, c: seq<string>, y: string)
    requires c != [] && IsWalk(g, end, c) && c[|c| - 1] != end && Edge(g, c[|c| - 1], y)
    ensures IsWalk(g, end, c + [y])
  {
    forall i | 0 < i < |c + [y]| ensures Follows(g, end, c + [y], i) {
      if i < |c| { assert Follows(g, end, c, i); }
    }
  }

  lemma RepeatsEarlier(g: Graph, end: string, c: seq<string>, y: string)
    requires Repeats(g, end, c + [y])
    ensures Repeats(g, end, c)
  {
    var walk :| Extends(g, end, c + [y], walk) && !Distinct(walk);
    assert Extends(g, end, c, walk);
  }

  /** The search of `tasksbetween`, with the chain and the result that its calls share. */
  class Search {
    const g: Graph
    const end: string
    var chain: seq<string>
    var outtasks: seq<string>

    constructor (g: Graph, end: string)
      ensures this.g == g && this.end == end && chain == [] && outtasks == []
    {
      this.g, this.end := g, end;
      chain, outtasks := [], [];
    }

    /** The loop over the chain when end is reached. */
    method Report()
      requires Distinct(outtasks)
      modifies this`outtasks
      ensures old(outtasks) <= outtasks && Distinct(outtasks)
      ensures forall t :: t in outtasks <==> t in old(outtasks) || t in chain
    {
      for i := 0 to |chain|
        invariant old(outtasks) <= outtasks && Distinct(outtasks)
        invariant forall t :: t in outtasks <==> t in old(outtasks) || t in chain[..i]
      {
        assert chain[..i + 1] == chain[..i] + [chain[i]];
        if chain[i] !in outtasks {
          outtasks := outtasks + [chain[i]];
        }
      }
      assert chain[..|chain|] == chain;
    }

    /** At end, the chain is reported once for every other task. */
    method ReachEnd()
      requires Ends(chain, end) && IsWalk(g, end, chain) && Distinct(chain) && Distinct(outtasks)
      modifies this`outtasks
      ensures FoundAlong(g, end, chain, g.tasks, old(outtasks), outtasks)
    {
      for i := 0 to |g.tasks|
        invariant old(outtasks) <= outtasks && Distinct(outtasks)
        invariant forall t :: t in outtasks <==> t in old(outtasks) || (OtherThan(g.tasks[..i], end) && t in chain)
      {
        assert g.tasks[..i + 1] == g.tasks[..i] + [g.tasks[i]];
        OtherOneMore(g.tasks[..i], g.tasks[i], end);
        if g.tasks[i] != end {
          Report();
        }
      }
      assert g.tasks[..|g.tasks|] == g.tasks;
      FoundAtEnd(g, end, chain, old(outtasks), outtasks);
    }

    /** `follow_chain`; names bounds what a chain can hold. */
    method FollowChain(task: string, ghost names: set<string>) returns (r: Result<(), PathError>)
      requires Distinct(chain) && Distinct(outtasks) && IsWalk(g, end, chain + [task])
      requires task in names && (forall t | t in g.tasks :: t in names) && (forall t | t in chain :: t in names)
      modifies this
      ensures r.Ok? ==> chain == old(chain)
                        && FoundAlong(g, end, old(chain) + [task], g.tasks, old(outtasks), outtasks)
      ensures r.Err? && r.error.Circular? ==> Repeats(g, end, old(chain) + [task])
      ensures r.Err? && r.error.NoList? ==> r.error.task in g.tasks && r.error.task !in g.deps
      decreases names - (set t | t in chain), 0
    {
      if task in chain {
        ghost var c := chain + [task];
        var i :| 0 <= i < |chain| && chain[i] == task;
        assert c[i] == c[|chain|] && Extends(g, end, c, c);
        return Err(Circular(chain));
      }
      ghost var members := set t | t in chain;
      chain := chain + [task];
      assert (set t | t in chain) == members + {task} && task !in members;
      if task == end {
        ReachEnd();
      } else {
        r := TryNext(task, names);
        if r.Err? { return; }
      }
      chain := chain[..|chain| - 1];
      r := Ok(());
    }

    /** The loop over the other tasks. */
    method TryNext(task: string, ghost names: set<string>) returns (r: Result<(), PathError>)
      requires chain != [] && chain[|chain| - 1] == task != end
      requires Distinct(chain) && Distinct(outtasks) && IsWalk(g, end, chain)
      requires (forall t | t in g.tasks :: t in names) && (forall t | t in chain :: t in names)
      modifies this
      ensures r.Ok? ==> chain == old(chain) && FoundAlong(g, end, chain, g.tasks, old(outtasks), outtasks)
      ensures r.Err? && r.error.Circular? ==> Repeats(g, end, old(chain))
      ensures r.Err? && r.error.NoList? ==> r.error.task in g.tasks && r.error.task !in g.deps
      decreases names - (set t | t in chain), 1
    {
      ghost var c, start := chain, outtasks;
      FoundNothing(g, end, c, outtasks);
      for i := 0 to |g.tasks|
        invariant chain == c && FoundAlong(g, end, c, g.tasks[..i], start, outtasks)
      {
        var othertask := g.tasks[i];
        ghost var found := outtasks;
        assert g.tasks[..i + 1] == g.tasks[..i] + [othertask];
        if othertask == task {
          SkipOne(g, end, c, g.tasks[..i], othertask, start, found);
        } else if othertask !in g.deps {
          return Err(NoList(othertask));
        } else if task in g.deps[othertask] {
          WalkGrows(g, end, c, othertask);
          r := FollowChain(othertask, names);
          if r.Err? {
            if r.error.Circular? { RepeatsEarlier(g, end, c, othertask); }
            return;
          }
          FoundOneMore(g, end, c, g.tasks[..i], othertask, start, found, outtasks);
        } else {
          SkipOne(g, end, c, g.tasks[..i], othertask, start, found);
        }
      }
      assert g.tasks[..|g.tasks|] == g.tasks;
      r := Ok(());
    }
  }

  lemma OtherOneMore(tasks: seq<string>, t: string, end: string)
    ensures OtherThan(tasks + [t], end) <==> OtherThan(tasks, end) || t != end
  {
    assert t in tasks + [t];
    assert forall x :: x in tasks + [t] <==> x in tasks || x == t;
  }

  ghost predicate WalkFrom(g: Graph, start: string, end: string, walk: seq<string>) {
    walk != [] && walk[0] == start && IsWalk(g, end, walk)
  }

  /** t lies on a chain of dependent tasks from start to end. */
  ghost predicate Between(g: Graph, start: string, end: string, t: string) {
    exists walk :: WalkFrom(g, start, end, walk) && Ends(walk, end) && t in walk
  }

  /** A chain of dependent tasks from start comes back to a task on it. */
  ghost predicate Cyclic(g: Graph, start: string, end: string) {
    exists walk :: WalkFrom(g, start, end, walk) && !Distinct(walk)
  }

  lemma WalksFromStart(g: Graph, start: string, end: string)
    ensures forall walk :: WalkFrom(g, start, end, walk) <==> ExtendsBy(g, end, [start], g.tasks, walk)
  {
    forall walk ensures WalkFrom(g, start, end, walk) <==> ExtendsBy(g, end, [start], g.tasks, walk) {
      assert [start] <= walk <==> walk != [] && walk[0] == start;
      NextIsTask(g, end, [start], walk);
    }
  }

  lemma SearchMeans(g: Graph, start: string, end: string, found: seq<string>)
    requires FoundAlong(g, end, [start], g.tasks, [], found)
    ensures !Cyclic(g, start, end)
    ensures forall t :: t in found <==> OtherThan(g.tasks, end) && Between(g, start, end, t)
  {
    WalksFromStart(g, start, end);
    forall t ensures OnRoute(g, end, [start], g.tasks, t) <==> OtherThan(g.tasks, end) && Between(g, start, end, t) {
      if Between(g, start, end, t) {
        var walk :| WalkFrom(g, start, end, walk) && Ends(walk, end) && t in walk;
        assert ExtendsBy(g, end, [start], g.tasks, walk);
      }
      if OnRoute(g, end, [start], g.tasks, t) {
        var walk :| ExtendsBy(g, end, [start], g.tasks, walk) && Ends(walk, end) && t in walk;
        assert WalkFrom(g, start, end, walk);
      }
    }
  }

  lemma RepeatMeans(g: Graph, start: string, end: string)
    requires Repeats(g, end, [start])
    ensures Cyclic(g, start, end)
  {
    var walk :| Extends(g, end, [start], walk) && !Distinct(walk);
    assert WalkFrom(g, start, end, walk);
  }

  /** `tasksbetween` on the tasks in g, in the order they are listed. */
  method FindBetween(start: string, end: string, g: Graph) returns (r: Result<seq<string>, PathError>)
    requires forall t | t in g.tasks :: t in g.deps
    ensures r.Ok? <==> !Cyclic(g, start, end)
    ensures r.Ok? ==> Distinct(r.value)
    ensures r.Ok? ==> forall t :: t in r.value <==> OtherThan(g.tasks, end) && Between(g, start, end, t)
  {
    var search := new Search(g, end);
    assert [] + [start] == [start];
    var done := search.FollowChain(start, (set t | t in g.tasks) + {start});
    if done.Err? {
      RepeatMeans(g, start, end);
      return Err(done.error);
    }
    SearchMeans(g, start, end, search.outtasks);
    r := Ok(search.outtasks);
  }

  /** `tasksbetween` on a recipe: every task has a list, because `addtask` and `deltask` see to it. */
  method TasksBetween(start: string, end: string, recipe: Recipe)
    returns (r: Result<seq<string>, PathError>, ghost g: Graph)
    requires recipe.Valid()
    ensures g.deps == recipe.deps && forall t :: t in g.tasks <==> t in recipe.bbtasks
    ensures r.Ok? <==> !Cyclic(g, start, end)
    ensures r.Ok? ==> Distinct(r.value)
    ensures r.Ok? ==> forall t :: t in r.value <==> OtherThan(g.tasks, end) && Between(g, start, end, t)
  {
    var tasks: seq<string> := [];
    var todo := recipe.taskFlags;
    while todo != {}
      invariant todo <= recipe.taskFlags
      invariant forall t :: t in tasks <==> t in recipe.taskFlags && t !in todo
      decreases todo
    {
      var t :| t in todo;
      todo := todo - {t};
      tasks := tasks + [t];
    }
    g := Graph(tasks, recipe.deps);
    r := FindBetween(start, end, Graph(tasks, recipe.deps));
  }
}
