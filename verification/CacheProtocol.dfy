/** The cache files under interleaving: every saver and the merger take their
    steps one at a time, in any order, and no entry that was saved is lost. */
module CacheProtocol {
  import opened Wrappers
  import opened MultiProcessCache

  /** A process, by its number. Its entries go to files by index. */
  type Pid = nat

  /** Where a saver is in `save_extras`. */
  datatype Point =
    | Waiting                      // before the shared lock
    | Probing(index: nat)          // holds the shared lock, tries an index
    | Locked(index: nat)           // has the lock of that index as well
    | Free(index: nat)             // has seen that no file has that index
    | Writing(index: nat)          // has opened the file
    | Closed(index: nat)           // has written and closed it
    | Leaving                      // has let go of the index lock

  datatype Saver = Saver(entries: Tables, at: Point)

  /** Where the merger is in `save_merge`. */
  datatype Merger =
    | Idle
    | Merging(todo: set<nat>)                          // holds the exclusive lock; files not looked at yet
    | Loaded(todo: set<nat>, index: nat, found: File)  // has read a file
    | Taken(todo: set<nat>, index: nat)                // has merged it or found it unusable
    | Written                                          // has written the cache file

  datatype State = State(
    shared: set<Pid>,              // holders of the shared lock
    indexLocks: map<nat, Pid>,
    files: map<nat, File>,
    savers: map<Pid, Saver>,
    merger: Merger,
    data: Tables,                  // the merger's own cache
    main: Option<Tables>,          // the cache file
    saved: set<Tables>)            // what has been saved so far, for the specification only

  datatype Step =
    | Start(p: Pid, entries: Tables)
    | TakeShared(p: Pid, from: nat)
    | LockIndex(p: Pid)
    | NextIndex(p: Pid)            // the index lock was not to be had
    | SeeFree(p: Pid)
    | SeeTaken(p: Pid)
    | Open(p: Pid)
    | Close(p: Pid)
    | UnlockIndex(p: Pid)
    | Leave(p: Pid)
    | TakeExclusive
    | Load(index: nat)
    | Merge
    | Unlink
    | WriteMain
    | Release

  predicate At(s: State, p: Pid, at: Point) {
    p in s.savers && s.savers[p].at == at
  }

  function Move(s: State, p: Pid, at: Point): State
    requires p in s.savers
  {
    s.(savers := s.savers[p := s.savers[p].(at := at)])
  }

  /** The state after a step, if it can be taken. width is the number of dictionaries. */
  function Take(s: State, t: Step, width: nat): Option<State> {
    match t
    case Start(p, entries) =>
      if p !in s.savers && |entries| == width then Some(s.(savers := s.savers[p := Saver(entries, Waiting)])) else None
    case TakeShared(p, from) =>
      if At(s, p, Waiting) && s.merger.Idle? then Some(Move(s, p, Probing(from)).(shared := s.shared + {p})) else None
    case LockIndex(p) =>
      if p in s.savers && s.savers[p].at.Probing? && s.savers[p].at.index !in s.indexLocks then
        var i := s.savers[p].at.index;
        Some(Move(s, p, Locked(i)).(indexLocks := s.indexLocks[i := p]))
      else None
    case NextIndex(p) =>
      if p in s.savers && s.savers[p].at.Probing? then Some(Move(s, p, Probing(s.savers[p].at.index + 1))) else None
    case SeeFree(p) =>
      if p in s.savers && s.savers[p].at.Locked? && s.savers[p].at.index !in s.files then
        Some(Move(s, p, Free(s.savers[p].at.index)))
      else None
    case SeeTaken(p) =>
      if p in s.savers && s.savers[p].at.Locked? && s.savers[p].at.index in s.files then
        var i := s.savers[p].at.index;
        Some(Move(s, p, Probing(i + 1)).(indexLocks := s.indexLocks - {i}))
      else None
    case Open(p) =>
      if p in s.savers && s.savers[p].at.Free? then
        var i := s.savers[p].at.index;
        Some(Move(s, p, Writing(i)).(files := s.files[i := Partial]))
      else None
    case Close(p) =>
      if p in s.savers && s.savers[p].at.Writing? then
        var i, entries := s.savers[p].at.index, s.savers[p].entries;
        Some(Move(s, p, Closed(i)).(files := s.files[i := Whole(entries)], saved := s.saved + {entries}))
      else None
    case UnlockIndex(p) =>
      if p in s.savers && s.savers[p].at.Closed? then
        Some(Move(s, p, Leaving).(indexLocks := s.indexLocks - {s.savers[p].at.index}))
      else None
    case Leave(p) =>
      if At(s, p, Leaving) then Some(s.(savers := s.savers - {p}, shared := s.shared - {p})) else None
    case TakeExclusive =>
      if s.merger.Idle? && s.shared == {} then Some(s.(merger := Merging(s.files.Keys))) else None
    case Load(i) =>
      if s.merger.Merging? && i in s.merger.todo && i in s.files then
        Some(s.(merger := Loaded(s.merger.todo - {i}, i, s.files[i])))
      else None
    case Merge =>
      if s.merger.Loaded? then
        var next := s.(merger := Taken(s.merger.todo, s.merger.index));
        match s.merger.found
        case Whole(tables) =>
          if |tables| == |s.data| then Some(next.(data := MergedAll(tables, s.data))) else None
        case _ => Some(next)
      else None
    case Unlink =>
      if s.merger.Taken? then
        Some(s.(merger := Merging(s.merger.todo), files := s.files - {s.merger.index}))
      else None
    case WriteMain =>
      if s.merger.Merging? && s.merger.todo == {} then Some(s.(merger := Written, main := Some(s.data))) else None
    case Release =>
      if s.merger.Written? then Some(s.(merger := Idle)) else None
  }

  /** The state after a run of steps, if each can be taken. */
  function Run(s: State, steps: seq<Step>, width: nat): Option<State> {
    if steps == [] then Some(s)
    else
      var before := Run(s, steps[..|steps| - 1], width);
      if before.None? then None else Take(before.value, steps[|steps| - 1], width)
  }

  // ---------------------------------------------------------------- what every step keeps

  /** A saver past Waiting holds the shared lock, and nobody does while the merger works. */
  ghost predicate LocksHeld(s: State) {
    && (forall p :: p in s.shared <==> p in s.savers && !s.savers[p].at.Waiting?)
    && (!s.merger.Idle? ==> s.shared == {})
  }

  predicate HoldsIndex(at: Point) {
    at.Locked? || at.Free? || at.Writing? || at.Closed?
  }

  /** Who is at an index has its lock; who has seen it free can rely on that; who writes has a partial file there. */
  ghost predicate IndexHeld(s: State, p: Pid)
    requires p in s.savers
  {
    var at := s.savers[p].at;
    && (HoldsIndex(at) ==> at.index in s.indexLocks && s.indexLocks[at.index] == p)
    && (at.Free? ==> at.index !in s.files)
    && (at.Writing? ==> at.index in s.files && s.files[at.index] == Partial)
  }

  ghost predicate IndexesHeld(s: State) {
    forall p | p in s.savers :: IndexHeld(s, p)
  }

  /** Only a file that is being written is partial. */
  ghost predicate PartialIsOwned(s: State) {
    forall i | i in s.files && s.files[i] == Partial :: exists p :: At(s, p, Writing(i))
  }

  ghost predicate Pending(s: State, t: Tables) {
    exists i :: i in s.files && s.files[i] == Whole(t)
  }

  /** What was saved is in a pending file or in the merger's data. */
  ghost predicate NothingLost(s: State) {
    forall t | t in s.saved :: Pending(s, t) || Covers(s.data, t)
  }

  ghost predicate Widths(s: State, width: nat) {
    && |s.data| == width
    && (forall p | p in s.savers :: |s.savers[p].entries| == width)
    && (forall i | i in s.files && s.files[i].Whole? :: |s.files[i].tables| == width)
  }

  /** The files the merger has not removed are those it has still to look at, and the one it is at. */
  ghost predicate MergerKnows(s: State) {
    match s.merger
    case Idle => true
    case Merging(todo) => s.files.Keys == todo
    case Loaded(todo, i, found) => s.files.Keys == todo + {i} && i !in todo && s.files[i] == found
    case Taken(todo, i) =>
      s.files.Keys == todo + {i} && i !in todo && (s.files[i].Whole? ==> Covers(s.data, s.files[i].tables))
    case Written => s.files == map[]
  }

  ghost predicate Inv(s: State, width: nat) {
    LocksHeld(s) && IndexesHeld(s) && PartialIsOwned(s) && NothingLost(s) && Widths(s, width) && MergerKnows(s)
  }

  /** Every whole file was saved, and every entry of the merger was in its cache at first or comes
      from what was saved. */
  ghost predicate NothingMadeUp(s: State, first: Tables) {
    && (forall i | i in s.files && s.files[i].Whole? :: s.files[i].tables in s.saved)
    && |first| == |s.data|
    && forall j, h | 0 <= j < |s.data| && h in s.data[j] ::
         (h in first[j] && first[j][h] == s.data[j][h]) || exists t :: t in s.saved && Holds(t, j, h, s.data[j][h])
  }

  predicate Holds(t: Tables, j: nat, h: string, v: string) {
    j < |t| && h in t[j] && t[j][h] == v
  }

  // ---------------------------------------------------------------- steps of savers

  lemma LocksAfterSaver(s: State, t: Step, width: nat)
    requires LocksHeld(s) && Take(s, t, width).Some? && IsSaverStep(t)
    ensures LocksHeld(Take(s, t, width).value)
  {
  }

  predicate IsSaverStep(t: Step) {
    !(t.TakeExclusive? || t.Load? || t.Merge? || t.Unlink? || t.WriteMain? || t.Release?)
  }

  lemma IndexesAfterSaver(s: State, t: Step, width: nat)
    requires IndexesHeld(s) && Take(s, t, width).Some? && IsSaverStep(t)
    ensures IndexesHeld(Take(s, t, width).value)
  {
    var s' := Take(s, t, width).value;
    forall q | q in s'.savers ensures IndexHeld(s', q) {
      assert q in s.savers ==> IndexHeld(s, q);
      assert t.p in s.savers ==> IndexHeld(s, t.p);
    }
  }

  lemma FilesAfterSaver(s: State, t: Step, width: nat)
    requires PartialIsOwned(s) && IndexesHeld(s) && Take(s, t, width).Some? && IsSaverStep(t)
    ensures PartialIsOwned(Take(s, t, width).value)
  {
    var s' := Take(s, t, width).value;
    forall i | i in s'.files && s'.files[i] == Partial ensures exists p :: At(s', p, Writing(i)) {
      if t.Open? && i == s.savers[t.p].at.index {
        assert At(s', t.p, Writing(i));
      } else {
        var p :| At(s, p, Writing(i));
        assert At(s', p, Writing(i));
      }
    }
  }

  lemma SavedAfterSaver(s: State, t: Step, width: nat)
    requires NothingLost(s) && IndexesHeld(s) && Take(s, t, width).Some? && IsSaverStep(t)
    ensures NothingLost(Take(s, t, width).value)
  {
    var s' := Take(s, t, width).value;
    forall e | e in s'.saved ensures Pending(s', e) || Covers(s'.data, e) {
      assert t.p in s.savers ==> IndexHeld(s, t.p);
      if t.Close? && e == s.savers[t.p].entries {
        assert s'.files[s.savers[t.p].at.index] == Whole(e);
      } else if Pending(s, e) {
        var i :| i in s.files && s.files[i] == Whole(e);
        assert i in s'.files && s'.files[i] == Whole(e);
      }
    }
  }

  /** A saver that may touch a file keeps the merger out. */
  lemma MergerAfterSaver(s: State, t: Step, width: nat)
    requires MergerKnows(s) && LocksHeld(s) && Take(s, t, width).Some? && IsSaverStep(t)
    ensures MergerKnows(Take(s, t, width).value)
  {
    if t.Open? || t.Close? {
      assert t.p in s.shared;
    }
  }

  lemma SaverStepKeeps(s: State, t: Step, width: nat)
    requires Inv(s, width) && Take(s, t, width).Some? && IsSaverStep(t)
    ensures Inv(Take(s, t, width).value, width) && Take(s, t, width).value.data == s.data
  {
    LocksAfterSaver(s, t, width);
    IndexesAfterSaver(s, t, width);
    FilesAfterSaver(s, t, width);
    SavedAfterSaver(s, t, width);
    MergerAfterSaver(s, t, width);
  }

  // ---------------------------------------------------------------- steps of the merger

  /** While the merger works, no file is partial: it never reads one that is being written. */
  lemma NoPartialWhileMerging(s: State)
    requires LocksHeld(s) && PartialIsOwned(s) && !s.merger.Idle?
    ensures forall i | i in s.files :: s.files[i] != Partial
  {
    forall p | p in s.savers ensures s.savers[p].at.Waiting? {
      assert p in s.shared <==> !s.savers[p].at.Waiting?;
    }
  }

  /** Changes of nothing but the merger's own state, its data, and removed files. */
  ghost predicate OnlyMerger(s: State, s': State) {
    && s'.savers == s.savers && s'.shared == s.shared && s'.indexLocks == s.indexLocks && s'.saved == s.saved
    && forall i | i in s'.files :: i in s.files && s'.files[i] == s.files[i]
  }

  lemma OnlyMergerKeeps(s: State, s': State)
    requires PartialIsOwned(s) && IndexesHeld(s) && OnlyMerger(s, s')
    requires s'.files == s.files || (s.shared == {} && LocksHeld(s))
    ensures PartialIsOwned(s') && IndexesHeld(s')
  {
    forall i, p | i in s'.files && At(s, p, Writing(i)) ensures At(s', p, Writing(i)) {
    }
    forall p | p in s'.savers ensures IndexHeld(s', p) {
      assert IndexHeld(s, p);
      assert s.shared == {} && LocksHeld(s) ==> s.savers[p].at.Waiting?;
    }
  }

  lemma MergeKeeps(s: State, width: nat)
    requires Inv(s, width) && Take(s, Merge, width).Some?
    ensures Inv(Take(s, Merge, width).value, width) && Extends(s.data, Take(s, Merge, width).value.data)
  {
    var s' := Take(s, Merge, width).value;
    if s.merger.found.Whole? {
      var tables := s.merger.found.tables;
      MergeFacts(tables, s.data);
      forall e | e in s'.saved ensures Pending(s', e) || Covers(s'.data, e) {
        if Pending(s, e) {
          var i :| i in s.files && s.files[i] == Whole(e);
          assert s'.files[i] == Whole(e);
        }
      }
    }
    OnlyMergerKeeps(s, s');
  }

  /** A file is removed only when all of it is in the merger's data. */
  lemma UnlinkKeeps(s: State, width: nat)
    requires Inv(s, width) && Take(s, Unlink, width).Some?
    ensures Inv(Take(s, Unlink, width).value, width)
  {
    var s' := Take(s, Unlink, width).value;
    NoPartialWhileMerging(s);
    forall e | e in s'.saved ensures Pending(s', e) || Covers(s'.data, e) {
      if Pending(s, e) && !Covers(s.data, e) {
        var i :| i in s.files && s.files[i] == Whole(e);
        assert i in s'.files && s'.files[i] == Whole(e);
      }
    }
    OnlyMergerKeeps(s, s');
  }

  lemma OtherMergerStepKeeps(s: State, t: Step, width: nat)
    requires Inv(s, width) && Take(s, t, width).Some?
    requires t.TakeExclusive? || t.Load? || t.WriteMain? || t.Release?
    ensures Inv(Take(s, t, width).value, width) && Take(s, t, width).value.data == s.data
  {
    var s' := Take(s, t, width).value;
    OnlyMergerKeeps(s, s');
    forall e | e in s'.saved ensures Pending(s', e) || Covers(s'.data, e) {
      if Pending(s, e) {
        var i :| i in s.files && s.files[i] == Whole(e);
        assert s'.files[i] == Whole(e);
      }
    }
  }

  lemma StepKeeps(s: State, t: Step, width: nat)
    requires Inv(s, width) && Take(s, t, width).Some?
    ensures Inv(Take(s, t, width).value, width) && Extends(s.data, Take(s, t, width).value.data)
  {
    match t
    case Merge => MergeKeeps(s, width);
    case Unlink => UnlinkKeeps(s, width);
    case TakeExclusive => OtherMergerStepKeeps(s, t, width);
    case Load(_) => OtherMergerStepKeeps(s, t, width);
    case WriteMain => OtherMergerStepKeeps(s, t, width);
    case Release => OtherMergerStepKeeps(s, t, width);
    case _ => SaverStepKeeps(s, t, width);
  }

  lemma NothingMadeUpKeeps(s: State, t: Step, width: nat, first: Tables)
    requires Inv(s, width) && Take(s, t, width).Some? && NothingMadeUp(s, first)
    ensures NothingMadeUp(Take(s, t, width).value, first)
  {
    var s' := Take(s, t, width).value;
    forall j, h | 0 <= j < |s'.data| && h in s'.data[j]
      ensures (h in first[j] && first[j][h] == s'.data[j][h])
           || exists e :: e in s'.saved && Holds(e, j, h, s'.data[j][h])
    {
      if h in s.data[j] {
        assert t.Merge? && s.merger.found.Whole? ==> s'.data[j] == Merged(s.merger.found.tables[j], s.data[j]);
        assert s'.data[j][h] == s.data[j][h];
      } else {
        var tables := s.merger.found.tables;
        assert s'.data[j] == Merged(tables[j], s.data[j]);
        assert tables in s.saved && Holds(tables, j, h, s'.data[j][h]);
      }
    }
  }

  // ---------------------------------------------------------------- whole runs

  /** Nobody is at work. Files may be left over from before, whole or not. */
  ghost predicate Initial(s: State, width: nat) {
    && s.shared == {} && s.savers == map[] && s.merger.Idle? && Widths(s, width)
    && (forall i | i in s.files :: s.files[i] != Partial)
    && (forall t | t in s.saved :: Pending(s, t))
    && (forall i | i in s.files && s.files[i].Whole? :: s.files[i].tables in s.saved)
  }

  lemma {:induction false} RunKeeps(s: State, steps: seq<Step>, width: nat)
    requires Inv(s, width) && Run(s, steps, width).Some? && NothingMadeUp(s, s.data)
    ensures Inv(Run(s, steps, width).value, width) && Extends(s.data, Run(s, steps, width).value.data)
    ensures NothingMadeUp(Run(s, steps, width).value, s.data)
  {
    if steps != [] {
      var init := steps[..|steps| - 1];
      RunKeeps(s, init, width);
      NothingMadeUpKeeps(Run(s, init, width).value, steps[|steps| - 1], width, s.data);
      StepKeeps(Run(s, init, width).value, steps[|steps| - 1], width);
    }
  }

  /** In every state that any interleaving reaches: no two savers write one file, no
      file a saver is about to open exists, the merger never meets a file being
      written, every key saved is pending or in the merger's data, and the merger's
      data only grows, by entries that were saved. */
  lemma NoLostEntries(s: State, steps: seq<Step>, width: nat)
    requires Initial(s, width) && Run(s, steps, width).Some?
    ensures var now := Run(s, steps, width).value;
            && (forall p, q, i | At(now, p, Writing(i)) && At(now, q, Writing(i)) :: p == q)
            && (forall p, i | At(now, p, Free(i)) :: i !in now.files)
            && (!now.merger.Idle? ==> forall i | i in now.files :: now.files[i] != Partial)
            && (forall t | t in now.saved :: Pending(now, t) || Covers(now.data, t))
            && Extends(s.data, now.data) && NothingMadeUp(now, s.data)
  {
    RunKeeps(s, steps, width);
    var now := Run(s, steps, width).value;
    forall p, q, i | At(now, p, Writing(i)) && At(now, q, Writing(i)) ensures p == q {
      assert IndexHeld(now, p) && IndexHeld(now, q);
    }
    forall p, i | At(now, p, Free(i)) ensures i !in now.files {
      assert IndexHeld(now, p);
    }
    if !now.merger.Idle? {
      NoPartialWhileMerging(now);
    }
  }

  /** When the cache file is written it has every key saved until then. */
  lemma CacheFileHasAllSaved(s: State, steps: seq<Step>, width: nat)
    requires Initial(s, width) && Run(s, steps, width).Some?
    requires Run(s, steps, width).value.merger.Written?
    requires steps != [] && steps[|steps| - 1].WriteMain?
    ensures var now := Run(s, steps, width).value;
            now.main == Some(now.data) && forall t | t in now.saved :: Covers(now.main.value, t)
  {
    RunKeeps(s, steps, width);
  }
}
