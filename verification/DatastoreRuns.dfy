/** Runs of reads and writes: the cache and the computed override list stay right,
    and what the list depends on is tracked, while OVERRIDES and the variables it
    names are given plain values or references to such variables. */
module DatastoreRuns {
  import opened Wrappers
  import opened Text
  import opened Store
  import opened Updates
  import opened Steady
  import opened CacheContents
  import opened AssignedCache
  import opened OverrideLists
  import opened SteadyCaches
  import opened Failures
  import opened WriteFailures
  import opened Datastore
  import opened Sticky

  /** Names that no variant and no recorded name can be taken for. */
  ghost predicate Controlling(names: set<string>) {
    forall k | k in names :: k != "" && ':' !in k && !StartsName(k)
  }

  /** The write is to none of the names, and to no variant of one. */
  ghost predicate AwayFrom(w: Write, names: set<string>) {
    (w.SetFlag? ==> IsTextFlag(w.flag)) && forall k | k in names :: !Touches(w, k)
  }

  ghost predicate KeptAt(m: View, m': View, k: string) {
    (k in m'.variants ==> k in m.variants) && Valued(EntryOf(m', k)) == Valued(EntryOf(m, k))
  }

  lemma AssignElsewhere(m: View, name: string, value: Value, parsing: bool, ov: seq<string>, k: string)
    requires VariantNames(m.variants) && k != "" && ':' !in k && !StartsName(k)
    requires k != name && !StartsWith(name, k + ":")
    ensures VariantNames(AfterSet(m, name, value, parsing, ov).variants)
    ensures KeptAt(m, AfterSet(m, name, value, parsing, ov), k)
  {
    var c := Cleared(m, name, parsing);
    var d := if parsing then c else WithoutActive(c, name, ov);
    if !parsing && name in c.variants {
      var active := ActiveNames(c.variants[name], ov);
      ActiveNamesAre(c.variants[name], ov);
      forall r | r in c.variants[name] ensures r.name != k {
        assert ':' in r.name || StartsName(r.name);
      }
      AllDeletedKeeps(c, active);
      AllDeletedNames(c, active);
    }
    assert EntryOf(c, k) == EntryOf(m, k) && c.variants == m.variants;
    assert EntryOf(d, k) == EntryOf(c, k) && (k in d.variants ==> k in c.variants);
    RecordTouches(d.variants, name, k);
    assert EntryOf(Stored(d, name, value), k) == EntryOf(d, k);
  }

  /** A write elsewhere changes neither the value of k nor whether k has variants. */
  lemma WriteElsewhere(m: View, w: Write, ov: seq<string>, k: string)
    requires VariantNames(m.variants) && k != "" && ':' !in k && !StartsName(k) && !Touches(w, k)
    ensures VariantNames(Apply(m, w, ov).variants) && KeptAt(m, Apply(m, w, ov), k)
  {
    match w
    case Assign(name, value, parsing) =>
      var t := FindKeyword(name, 0);
      if t.Some? {
        KeywordBase(name, 0);
        BaseIsElsewhere(name, t.value.base, k);
        RecordTouches(m.variants, t.value.base, k);
      } else {
        AssignElsewhere(m, name, value, parsing, ov, k);
      }
    case Delete(name) => ForgetTouches(m.variants - {name}, name);
    case SetFlag(name, flag, value) =>
      if flag == "_defaultval" && ':' in name {
        RecordTouches(m.variants, name, k);
      }
  }

  /** The writes of a run, and its reads with expansion. */
  datatype Op = Read(k: string) | Do(w: Write)

  // ---------------------------------------------------------------- what a run may write

  /** The write gives one of the names a content or a default. */
  predicate Gives(w: Write, names: set<string>) {
    w.name in names && (w.Assign? || (w.SetFlag? && w.flag == "_defaultval"))
  }

  /** The names that are tracked after a write. */
  function TrackedAfter(w: Write, tracked: set<string>): set<string> {
    if Gives(w, tracked) then tracked + Refs(w.value) else tracked
  }

  /** The write is elsewhere; or it gives a tracked name text that refers to the names, or one of the
      others, which are still waiting, text without references; or it sets a flag that no value is made of. */
  ghost predicate Allowed(w: Write, tracked: set<string>, names: set<string>) {
    || AwayFrom(w, names)
    || (Gives(w, names) && Refs(w.value) <= if w.name in tracked then names else {})
    || (w.SetFlag? && w.name in names && IsTextFlag(w.flag) && w.flag != "_content" && w.flag != "_defaultval")
  }

  function TrackedBy(ops: seq<Op>, tracked: set<string>): set<string> {
    if ops == [] then tracked
    else
      var t, op := TrackedBy(ops[..|ops| - 1], tracked), ops[|ops| - 1];
      if op.Do? then TrackedAfter(op.w, t) else t
  }

  ghost predicate AllAllowed(ops: seq<Op>, tracked: set<string>, names: set<string>) {
    forall i | 0 <= i < |ops| :: ops[i].Do? ==> Allowed(ops[i].w, TrackedBy(ops[..i], tracked), names)
  }

  // ---------------------------------------------------------------- what a write keeps

  /** The tracked names are steady; the other names are plain text, or not there. */
  ghost predicate Steadied(m: View, tracked: set<string>, names: set<string>) {
    tracked <= names && Plain(m, tracked) && forall k | k in names - tracked :: PlainAt(m, k, {})
  }

  lemma GivenKeeps(m: View, w: Write, ov: seq<string>, tracked: set<string>, names: set<string>)
    requires VariantNames(m.variants) && Controlling(names) && Steadied(m, tracked, names)
    requires Gives(w, names) && Refs(w.value) <= if w.name in tracked then names else {}
    ensures var m' := Apply(m, w, ov);
            && VariantNames(m'.variants) && Steadied(m', TrackedAfter(w, tracked), names)
            && Written(w.name) == w.name && w.name !in m.variants
            && (w.name !in tracked ==> Agree(m, m', tracked))
  {
    var m', after := Apply(m, w, ov), TrackedAfter(w, tracked);
    NoColonNoKeyword(w.name, 0);
    assert w.name in tracked ==> PlainAt(m, w.name, tracked);
    assert w.name !in tracked ==> PlainAt(m, w.name, {});
    forall k | k in names ensures PlainAt(m', k, if k in after then after else {}) {
      assert PlainAt(m, k, if k in tracked then tracked else {});
      assert k != w.name ==> EntryOf(m', k) == EntryOf(m, k);
    }
  }

  lemma FlagKeeps(m: View, w: Write, ov: seq<string>, tracked: set<string>, names: set<string>)
    requires VariantNames(m.variants) && Steadied(m, tracked, names)
    requires w.SetFlag? && IsTextFlag(w.flag) && w.flag != "_content" && w.flag != "_defaultval"
    ensures var m' := Apply(m, w, ov);
            VariantNames(m'.variants) && Steadied(m', tracked, names) && Agree(m, m', tracked)
  {
    var m' := Apply(m, w, ov);
    forall k | k in names ensures PlainAt(m', k, if k in tracked then tracked else {}) {
      assert k in tracked ==> PlainAt(m, k, tracked);
      assert k !in tracked ==> PlainAt(m, k, {});
    }
  }

  lemma AwayKeeps(m: View, w: Write, ov: seq<string>, tracked: set<string>, names: set<string>)
    requires VariantNames(m.variants) && Controlling(names) && Steadied(m, tracked, names)
    requires AwayFrom(w, names) && names != {}
    ensures var m' := Apply(m, w, ov);
            VariantNames(m'.variants) && Steadied(m', tracked, names) && Agree(m, m', tracked)
  {
    var m' := Apply(m, w, ov);
    forall k | k in names
      ensures VariantNames(m'.variants) && KeptAt(m, m', k) && PlainAt(m', k, if k in tracked then tracked else {})
    {
      WriteElsewhere(m, w, ov, k);
      assert k in tracked ==> PlainAt(m, k, tracked);
      assert k !in tracked ==> PlainAt(m, k, {});
    }
    var k :| k in names;
    assert VariantNames(m'.variants);
  }

  /** A write that is allowed leaves tracked names steady and the others waiting, and changes no
      tracked name unless it gives it something. */
  lemma WriteSteadies(m: View, w: Write, ov: seq<string>, tracked: set<string>, names: set<string>)
    requires VariantNames(m.variants) && Controlling(names) && Steadied(m, tracked, names) && names != {}
    requires Allowed(w, tracked, names)
    ensures var m' := Apply(m, w, ov);
            && VariantNames(m'.variants) && Steadied(m', TrackedAfter(w, tracked), names)
            && (Gives(w, tracked) || Agree(m, m', tracked))
  {
    if AwayFrom(w, names) {
      AwayKeeps(m, w, ov, tracked, names);
      assert Gives(w, tracked) ==> Touches(w, w.name);
    } else if Gives(w, names) {
      GivenKeeps(m, w, ov, tracked, names);
    } else {
      FlagKeeps(m, w, ov, tracked, names);
    }
  }

  // ---------------------------------------------------------------- stores in order

  /** Everything that a run keeps. */
  ghost predicate InOrder(d: DataSmart, names: set<string>)
    reads d`overrides, d`overrideVars, d`inOverride, d`due, d`expandCache, d`overrideData, d`recorded
    reads d.overrideData.Values`items, d.dict.chain`flags, d.dict.chain`vars, d.dict.chain`held
    reads (set x, l | x in d.dict.chain && l in x.held :: l)`ops
  {
    && d.Valid() && d.Ready() && !d.inOverride && InPlace(d.Now(), d.overrideVars, names)
    && Fine(d.Now(), d.overrides, d.due, d.expandCache)
  }

  /** The contents and the tracked names. */
  ghost predicate InPlace(m: View, tracked: set<string>, names: set<string>) {
    VariantNames(m.variants) && "OVERRIDES" in tracked && Steadied(m, tracked, names)
  }

  /** List and cache are right. */
  ghost predicate Fine(m: View, list: Option<seq<string>>, due: Option<seq<string>>, cache: Cache) {
    (list.Some? ==> FixedPoint(m, list.value)) && AgreesUnder(m, if list.Some? then list else due, cache)
  }

  /** A cache that was filled on the way to the list, and the list, are still right when no tracked name has changed. */
  lemma FilledStays(m: View, m': View, name: string, parsing: bool, before: Option<seq<string>>, active: seq<string>,
                    filled: Cache, tracked: set<string>)
    requires LongerNames(m.variants) && Plain(m, tracked) && Plain(m', tracked) && Agree(m, m', tracked)
    requires "OVERRIDES" in tracked && (before.Some? ==> FixedPoint(m, before.value))
    requires Emptied(m, name, parsing, before, active, filled)
    requires FindKeyword(name, 0).None? && !parsing && name in m.variants ==>
               if before.Some? then active == before.value else FixedPoint(Cleared(m, name, false), active)
    ensures Fine(m', ListAt(m, name, parsing, before, active), None, filled)
  {
    var c, list := Cleared(m, name, parsing), ListAt(m, name, parsing, before, active);
    ClearedSteady(m, name, parsing, tracked);
    assert Agree(c, m', tracked);
    if list.Some? {
      if before.Some? {
        SteadyList(m, m', before.value, before.value, before.value, tracked);
      } else {
        SteadyList(c, m', active, active, active, tracked);
      }
    }
    if filled != map[] {
      var none: Cache := map[];
      assert none.Keys == {} && {} + {"OVERRIDES"} == {"OVERRIDES"};
      ThroughPlain(c, active, {"OVERRIDES"}, tracked);
      PlainCache(c, m', active, active, filled, tracked);
    }
  }

  /** A cache that tracking filled holds tracked names only, and these are right under every list. */
  lemma TrackedIsRight(m: View, list: seq<string>, cache: Cache, refs: set<string>, tracked: set<string>)
    requires LongerNames(m.variants) && Plain(m, tracked) && refs <= tracked
    requires TrackedFrom(m, list, map[], cache, refs)
    ensures Fine(m, None, None, cache)
  {
    var none: Cache := map[];
    assert none.Keys == {} && CacheAgrees(m, list, none);
    ThroughPlain(m, list, refs, tracked);
    forall ov ensures CacheAgrees(m, ov, cache) {
      PlainCache(m, m, list, ov, cache, tracked);
    }
  }

  // ---------------------------------------------------------------- one write

  lemma WrittenElsewhere(w: Write, names: set<string>)
    requires w.Assign? && AwayFrom(w, names)
    ensures w.name !in names && Written(w.name) !in names
  {
    assert forall k | k in names :: !Touches(w, k);
    KeywordBase(w.name, 0);
    if FindKeyword(w.name, 0).Some? && Written(w.name) in names {
      assert Touches(w, Written(w.name));
    }
  }

  /** The names that a written name counts for are tracked only if the write gives it something. */
  lemma WrittenIsGiven(m: View, w: Write, tracked: set<string>, names: set<string>)
    requires VariantNames(m.variants) && Controlling(names) && Steadied(m, tracked, names)
    requires w.Assign? && Allowed(w, tracked, names)
    ensures Written(w.name) in tracked <==> Gives(w, tracked)
    ensures Gives(w, tracked) ==>
              Written(w.name) == w.name && FindKeyword(w.name, 0).None? && w.name !in m.variants
  {
    if AwayFrom(w, names) {
      WrittenElsewhere(w, names);
    } else {
      GivenKeeps(m, w, [], tracked, names);
      NoColonNoKeyword(w.name, 0);
    }
  }

  /** What `setVar` leaves of the list and the cache is right. */
  lemma AssignIsFine(m: View, m': View, w: Write, before: Option<seq<string>>, active: seq<string>, filled: Cache,
                     list: Option<seq<string>>, due: Option<seq<string>>, cache: Cache, tracked: set<string>,
                     names: set<string>)
    requires Controlling(names) && InPlace(m, tracked, names)
    requires Allowed(w, tracked, names) && w.Assign? && m' == Apply(m, w, active)
    requires LongerNames(m.variants) && LongerNames(m'.variants) && (before.Some? ==> FixedPoint(m, before.value))
    requires Emptied(m, w.name, w.parsing, before, active, filled)
    requires ActiveList(m, w.name, w.parsing, before, active)
    requires Leaves(m', Written(w.name) in tracked, ListAt(m, w.name, w.parsing, before, active), filled,
                    Refs(w.value), list, due, cache)
    ensures InPlace(m', TrackedAfter(w, tracked), names) && Fine(m', list, due, cache)
  {
    WrittenIsGiven(m, w, tracked, names);
    WriteSteadies(m, w, active, tracked, names);
    if !Gives(w, tracked) {
      FilledStays(m, m', w.name, w.parsing, before, active, filled, tracked);
    } else {
      var at := ListAt(m, w.name, w.parsing, before, active);
      assert filled == map[];
      if at.Some? {
        TrackedIsRight(m', at.value, cache, Refs(w.value), TrackedAfter(w, tracked));
      }
    }
  }

  method DoAssign(d: DataSmart, w: Write, depth: nat, ghost names: set<string>)
    returns (r: Result<(), Error>, ghost active: seq<string>)
    requires InOrder(d, names) && Controlling(names) && Allowed(w, d.overrideVars, names) && w.Assign?
    modifies d, d.dict
    ensures r.Ok? ==> InOrder(d, names) && d.overrideVars == TrackedAfter(w, old(d.overrideVars))
    ensures r.Ok? ==> d.Now() == Apply(old(d.Now()), w, active)
    ensures r.Err? ==> MayStop(old(d.Now()), w, depth)
  {
    ghost var m, before, tracked := d.Now(), d.overrides, d.overrideVars;
    ghost var after := TrackedAfter(w, tracked);
    WrittenIsGiven(m, w, tracked, names);
    ghost var filled;
    r, active, filled := d.SetVar(w.name, w.value, w.parsing, depth, after);
    if r.Err? {
      StopsAt(m, w, before, active, tracked, depth);
    } else {
      AssignIsFine(m, d.Now(), w, before, active, filled, d.overrides, d.due, d.expandCache, tracked, names);
    }
  }

  method DoDelete(d: DataSmart, w: Write, ghost names: set<string>)
    requires InOrder(d, names) && Controlling(names) && Allowed(w, d.overrideVars, names) && w.Delete?
    modifies d, d.dict
    ensures InOrder(d, names) && d.overrideVars == old(d.overrideVars) && d.Now() == Deleted(old(d.Now()), w.name)
  {
    ghost var m, list, tracked := d.Now(), d.overrides, d.overrideVars;
    WriteSteadies(m, w, [], tracked, names);
    d.DelVar(w.name);
    if list.Some? {
      SteadyList(m, d.Now(), list.value, list.value, list.value, tracked);
    }
  }

  method DoSetFlag(d: DataSmart, w: Write, depth: nat, ghost names: set<string>) returns (r: Result<(), Error>)
    requires InOrder(d, names) && Controlling(names) && Allowed(w, d.overrideVars, names) && w.SetFlag?
    modifies d, d.dict
    ensures r.Ok? ==> InOrder(d, names) && d.overrideVars == TrackedAfter(w, old(d.overrideVars))
    ensures r.Ok? ==> d.Now() == Apply(old(d.Now()), w, [])
    ensures r.Err? ==> MayStop(old(d.Now()), w, depth)
  {
    ghost var m, list, tracked := d.Now(), d.overrides, d.overrideVars;
    ghost var after := TrackedAfter(w, tracked);
    WriteSteadies(m, w, [], tracked, names);
    assert IsTextFlag(w.flag);
    r := d.SetVarFlag(w.name, w.flag, w.value, depth, after);
    if r.Err? {
      StopsAt(m, w, list, [], tracked, depth);
      return;
    }
    if Gives(w, tracked) {
      if list.Some? {
        TrackedIsRight(d.Now(), list.value, d.expandCache, Refs(w.value), after);
      }
    } else if list.Some? {
      SteadyList(m, d.Now(), list.value, list.value, list.value, tracked);
    }
  }

  method DoWrite(d: DataSmart, w: Write, depth: nat, ghost names: set<string>)
    returns (r: Result<(), Error>, ghost active: seq<string>)
    requires InOrder(d, names) && Controlling(names) && Allowed(w, d.overrideVars, names)
    modifies d, d.dict
    ensures r.Ok? ==> InOrder(d, names) && d.overrideVars == TrackedAfter(w, old(d.overrideVars))
    ensures r.Ok? ==> d.Now() == Apply(old(d.Now()), w, active)
    ensures r.Err? ==> MayStop(old(d.Now()), w, depth)
  {
    active := [];
    match w {
      case Assign(_, _, _) => r, active := DoAssign(d, w, depth, names);
      case Delete(_) =>
        DoDelete(d, w, names);
        r := Ok(());
      case SetFlag(_, _, _) => r := DoSetFlag(d, w, depth, names);
    }
  }

  // ---------------------------------------------------------------- whole runs

  /** The writes among the operations. */
  function WritesIn(ops: seq<Op>): seq<Write> {
    if ops == [] then []
    else
      var ws, op := WritesIn(ops[..|ops| - 1]), ops[|ops| - 1];
      if op.Do? then ws + [op.w] else ws
  }

  /** The operation may fail on these contents. */
  ghost predicate MayFail(m: View, op: Op, depth: nat) {
    match op
    case Read(k) => ReadStops(m, false, None, depth, k, true)
    case Do(w) => MayStop(m, w, depth)
  }

  /** The run has done the operations before the one at i, which may fail on what they left. */
  ghost predicate FailsAt(m: View, ops: seq<Op>, i: nat, run: Run, depth: nat) {
    i < |ops| && IsRunOf(run, WritesIn(ops[..i])) && MayFail(ApplyAll(m, run), ops[i], depth)
  }

  /** A read in a run. */
  method DoRead(d: DataSmart, k: string, depth: nat, ghost names: set<string>) returns (r: Result<Option<Value>, Error>)
    requires InOrder(d, names)
    modifies d`expandCache, d`overrides, d`inOverride
    ensures d.Now() == old(d.Now()) && d.overrideVars == old(d.overrideVars)
    ensures r.Ok? ==> InOrder(d, names)
    ensures r.Err? ==> ReadStops(old(d.Now()), false, None, depth, k, true)
  {
    ghost var m, fixed, basis := d.Now(), d.overrides.Some?, d.Basis();
    r := d.GetVar(k, depth, RIGHT);
    if r.Err? {
      StopsBefore(m, false, None, fixed, basis, depth, k, true);
    }
  }

  /** names are variables without variants or queued operations, given only text that refers to such
      variables, and only while they are tracked; other writes are to other variables. After any such
      run of reads and writes every cache entry is what recomputing it gives, a computed list is what
      OVERRIDES evaluates to under that list, and the tracked names are those that the values given
      to tracked names refer to. */
  method Run(d: DataSmart, ops: seq<Op>, depth: nat, ghost names: set<string>)
    returns (r: Result<(), Error>, ghost run: Run)
    requires InOrder(d, names) && Controlling(names) && AllAllowed(ops, d.overrideVars, names)
    modifies d, d.dict
    ensures r.Ok? ==> InOrder(d, names) && d.overrideVars == TrackedBy(ops, old(d.overrideVars))
    ensures r.Ok? ==> IsRunOf(run, WritesIn(ops)) && d.Now() == ApplyAll(old(d.Now()), run)
    ensures r.Err? ==> exists i :: FailsAt(old(d.Now()), ops, i, run, depth)
  {
    ghost var m, tracked := d.Now(), d.overrideVars;
    run := [];
    for i := 0 to |ops|
      invariant InOrder(d, names) && d.overrideVars == TrackedBy(ops[..i], tracked)
      invariant IsRunOf(run, WritesIn(ops[..i])) && d.Now() == ApplyAll(m, run)
    {
      assert ops[..i + 1][..i] == ops[..i];
      match ops[i] {
        case Read(k) =>
          var value := DoRead(d, k, depth, names);
          if value.Err? {
            assert FailsAt(m, ops, i, run, depth);
            return Err(value.error), run;
          }
        case Do(w) =>
          assert Allowed(ops[i].w, TrackedBy(ops[..i], tracked), names);
          ghost var active;
          r, active := DoWrite(d, w, depth, names);
          if r.Err? {
            assert FailsAt(m, ops, i, run, depth);
            return;
          }
          ApplyOneMore(m, run, w, active);
          run := run + [(w, active)];
      }
    }
    assert ops[..|ops|] == ops;
    r := Ok(());
  }

  /** A new datastore is one that such a run may start from, whatever the names. */
  method Fresh(ghost names: set<string>) returns (d: DataSmart)
    requires {"OVERRIDES", "FILE"} <= names && Controlling(names)
    ensures fresh(d) && fresh(d.dict) && InOrder(d, names) && d.overrideVars == {"OVERRIDES", "FILE"}
  {
    d := new DataSmart(null);
    assert d.Now() == View(map[], map[]);
    assert EntryRefs(NO_ENTRY) == {};
  }
}
