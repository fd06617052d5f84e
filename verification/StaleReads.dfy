/** Exactly when the expansion cache is right after an assignment, and what that
    means for reading the assigned variable. */
module StaleReads {
  import opened Wrappers
  import opened Text
  import opened Store
  import opened Updates
  import opened ReadGraph
  import opened CacheContents
  import opened AssignedCache
  import opened OverrideLists
  import opened LiveReads
  import opened Failures
  import opened WriteFailures
  import opened Datastore
  import opened DatastoreProperties

  /** What the assignment cached reads alike under the list ov afterwards. vars are the names that OVERRIDES
      is known to depend on, kept those cached on the first path, and all those cached in the end. */
  ghost predicate AlikeAfter(m: View, m': View, name: string, value: Value, parsing: bool,
                             before: Option<seq<string>>, active: seq<string>, due: Option<seq<string>>,
                             vars: set<string>, kept: set<string>, all: set<string>, ov: seq<string>)
  {
    AlikeAt(Cleared(m, name, parsing), active, kept, m', Written(name) in vars,
            ListAt(m, name, parsing, before, active), due, Refs(value), all, ov)
  }

  /** Where the second path comes after the first, it starts from a cache that is right. */
  ghost predicate TracksOnRight(m: View, m': View, name: string, value: Value, parsing: bool,
                                before: Option<seq<string>>, active: seq<string>, vars: set<string>,
                                kept: set<string>)
  {
    OnRight(Cleared(m, name, parsing), active, kept, m', Written(name) in vars,
            ListAt(m, name, parsing, before, active), Refs(value))
  }

  /** Whether the cache is right under ov: if what it holds reads alike; and only if it does, except that
      where the second path started from a cache that was wrong, less is needed. */
  ghost predicate Decides(m: View, m': View, name: string, value: Value, parsing: bool, before: Option<seq<string>>,
                          active: seq<string>, due: Option<seq<string>>, vars: set<string>, kept: set<string>,
                          all: set<string>, ov: seq<string>, right: bool)
  {
    var alike := AlikeAfter(m, m', name, value, parsing, before, active, due, vars, kept, all, ov);
    && (alike ==> right)
    && (TracksOnRight(m, m', name, value, parsing, before, active, vars, kept) ==> (right <==> alike))
    && (right && ListAt(m, name, parsing, before, active).Some? ==>
          ReadAlike(Cleared(m, name, parsing), active, m', ov, kept - RecordedNames(m')))
  }

  /** The condition on the names that the two paths read through, which are known from the contents. */
  ghost predicate RightAt(m: View, m': View, name: string, value: Value, parsing: bool,
                          before: Option<seq<string>>, active: seq<string>, vars: set<string>, ov: seq<string>)
    requires LongerNames(m.variants) && LongerNames(m'.variants)
  {
    var kept, list := OnTheWay(m, name, parsing, before, active), ListAt(m, name, parsing, before, active);
    list.Some? ==>
      AlikeAfter(m, m', name, value, parsing, before, active, None, vars, kept,
                 ReadThrough(m', list.value, kept, kept + Refs(value)), ov)
  }

  /** Every cached value is what a copy reads, exactly where the condition holds under the list that the
      copy computes. */
  ghost predicate Foreseen(m: View, m': View, name: string, value: Value, parsing: bool, before: Option<seq<string>>,
                           active: seq<string>, vars: set<string>, right: bool)
    requires LongerNames(m.variants) && LongerNames(m'.variants)
  {
    right <==> forall list | Reached(m', list) ::
                 RightAt(m, m', name, value, parsing, before, active, vars, list)
  }

  lemma ClearedHasNoRemoves(m: View, name: string, parsing: bool)
    requires NoRemoves(m)
    ensures NoRemoves(Cleared(m, name, parsing))
  {
  }

  lemma EmptiedExactly(m: View, name: string, parsing: bool, before: Option<seq<string>>, active: seq<string>,
                       filled: Cache)
    requires LongerNames(m.variants) && Emptied(m, name, parsing, before, active, filled)
    ensures CacheAgrees(Cleared(m, name, parsing), active, filled)
    ensures filled.Keys <= OnTheWay(m, name, parsing, before, active)
    ensures NoRemoves(m) ==> filled.Keys == OnTheWay(m, name, parsing, before, active)
  {
    if NoRemoves(m) {
      ClearedHasNoRemoves(m, name, parsing);
    }
    if FindKeyword(name, 0).None? {
      LeftExactly(Cleared(m, name, parsing), name, parsing, before, active, filled);
    }
  }

  /** Exactly when the cache is right under a list after `setVar`, whatever it held before: if the names
      cached on the way have the values there that they had when they were cached. This holds for every
      list, and so for the one that a copy computes. Where nothing is removed, the names are known
      without running it. */
  method Assign(d: DataSmart, name: string, value: Value, parsing: bool, depth: nat)
    returns (r: Result<(), Error>, ghost active: seq<string>, ghost kept: set<string>)
    requires d.Valid() && !d.inOverride
    modifies d, d.dict
    ensures r.Err? ==>
              SetStops(old(d.Now()), name, value, parsing, old(d.overrides), active, old(d.overrideVars), depth)
    ensures r.Ok? ==> d.Valid() && d.Ready() && d.Now() == AfterSetVar(old(d.Now()), name, value, parsing, active)
    ensures r.Ok? ==> kept <= OnTheWay(old(d.Now()), name, parsing, old(d.overrides), active)
    ensures r.Ok? ==> forall ov ::
              Decides(old(d.Now()), d.Now(), name, value, parsing, old(d.overrides), active, d.due,
                      old(d.overrideVars), kept, d.expandCache.Keys, ov, CacheAgrees(d.Now(), ov, d.expandCache))
    ensures r.Ok? && NoRemoves(old(d.Now())) && NoRemoves(d.Now()) && kept !! RecordedNames(d.Now())
            && TracksOnRight(old(d.Now()), d.Now(), name, value, parsing, old(d.overrides), active,
                             old(d.overrideVars), OnTheWay(old(d.Now()), name, parsing, old(d.overrides), active)) ==>
              Foreseen(old(d.Now()), d.Now(), name, value, parsing, old(d.overrides), active,
                       old(d.overrideVars), FreshFor(d.Now(), d.expandCache))
  {
    ghost var m, before, vars := d.Now(), d.overrides, d.overrideVars;
    ghost var filled;
    r, active, filled := d.SetVar(name, value, parsing, depth, {});
    kept := filled.Keys;
    if r.Ok? {
      ghost var m', cache, due := d.Now(), d.expandCache, d.due;
      EmptiedExactly(m, name, parsing, before, active, filled);
      forall ov
        ensures Decides(m, m', name, value, parsing, before, active, due, vars, kept, cache.Keys, ov,
                        CacheAgrees(m', ov, cache))
      {
        Decided(m, m', name, value, parsing, before, active, vars, filled, cache, d.overrides, due, ov);
      }
      if NoRemoves(m) && NoRemoves(m') && kept !! RecordedNames(m')
        && TracksOnRight(m, m', name, value, parsing, before, active, vars, kept)
      {
        FreshIfForeseen(m, m', name, value, parsing, before, active, vars, filled, cache, d.overrides, due);
      }
    }
  }

  lemma Decided(m: View, m': View, name: string, value: Value, parsing: bool, before: Option<seq<string>>,
                active: seq<string>, vars: set<string>, filled: Cache, cache: Cache,
                overrides: Option<seq<string>>, due: Option<seq<string>>, ov: seq<string>)
    requires LongerNames(m.variants) && LongerNames(m'.variants)
    requires Emptied(m, name, parsing, before, active, filled)
    requires CacheAgrees(Cleared(m, name, parsing), active, filled)
    requires Leaves(m', Written(name) in vars, ListAt(m, name, parsing, before, active), filled, Refs(value),
                    overrides, due, cache)
    ensures Decides(m, m', name, value, parsing, before, active, due, vars, filled.Keys, cache.Keys, ov,
                    CacheAgrees(m', ov, cache))
  {
    var c, list, refs := Cleared(m, name, parsing), ListAt(m, name, parsing, before, active), Refs(value);
    if list.None? {
      if Written(name) !in vars {
        assert cache == map[];
      } else if due.Some? {
        assert Under(due, due.value);
        AgreesIffAlike(m', due.value, m', ov, cache);
      } else {
        assert Under(due, ov);
      }
    } else if Written(name) !in vars {
      AgreesIffAlike(c, active, m', ov, filled);
    } else {
      if AlikeAfter(m, m', name, value, parsing, before, active, due, vars, filled.Keys, cache.Keys, ov) {
        RightIfAlike(c, active, m', list.value, filled, cache, refs, ov);
      }
      if CacheAgrees(m', ov, cache) {
        UntouchedAlike(c, active, m', filled, cache, ov);
        if OnRight(c, active, filled.Keys, m', true, list, refs) {
          AlikeIfRight(c, active, m', list.value, filled, cache, refs, ov);
        }
      }
    }
  }

  lemma FreshIfForeseen(m: View, m': View, name: string, value: Value, parsing: bool, before: Option<seq<string>>,
                        active: seq<string>, vars: set<string>, filled: Cache, cache: Cache,
                        overrides: Option<seq<string>>, due: Option<seq<string>>)
    requires LongerNames(m.variants) && LongerNames(m'.variants) && NoRemoves(m')
    requires Emptied(m, name, parsing, before, active, filled)
    requires CacheAgrees(Cleared(m, name, parsing), active, filled)
    requires filled.Keys == OnTheWay(m, name, parsing, before, active) && filled.Keys !! RecordedNames(m')
    requires TracksOnRight(m, m', name, value, parsing, before, active, vars, filled.Keys)
    requires Leaves(m', Written(name) in vars, ListAt(m, name, parsing, before, active), filled, Refs(value),
                    overrides, due, cache)
    ensures Foreseen(m, m', name, value, parsing, before, active, vars, FreshFor(m', cache))
  {
    var c, list, refs := Cleared(m, name, parsing), ListAt(m, name, parsing, before, active), Refs(value);
    if list.Some? && Written(name) in vars && refs != {} {
      AgreesIffAlike(c, active, m', list.value, filled);
      AllIsThrough(m', list.value, filled, cache, refs);
    }
    forall l | Reached(m', l)
      ensures CacheAgrees(m', l, cache) <==> RightAt(m, m', name, value, parsing, before, active, vars, l)
    {
      Decided(m, m', name, value, parsing, before, active, vars, filled, cache, overrides, due, l);
      if list.None? && due.Some? {
        ReachedIsOne(m', due.value, l);
      }
    }
  }

  /** Assigning a default empties the cache, and only the second path fills it again: under every list, the
      cache is right exactly if the names read on it have the values there that they had under the list
      that was dropped. */
  method AssignDefault(d: DataSmart, name: string, value: Value, depth: nat) returns (r: Result<(), Error>)
    requires d.Valid() && !d.inOverride
    modifies d, d.dict
    ensures r.Err? ==>
              FlagStops(old(d.Now()), name, "_defaultval", value, old(d.overrides), old(d.overrideVars), depth)
    ensures r.Ok? ==> d.Valid() && d.Ready() && d.Now() == AfterFlag(old(d.Now()), name, "_defaultval", value)
    ensures r.Ok? && name in old(d.overrideVars) && old(d.overrides).Some? && Refs(value) != {} ==>
              forall ov :: CacheAgrees(d.Now(), ov, d.expandCache) <==>
                           ReadAlike(d.Now(), old(d.overrides).value, d.Now(), ov, d.expandCache.Keys)
    ensures r.Ok? && !(name in old(d.overrideVars) && old(d.overrides).Some? && Refs(value) != {}) ==>
              d.Coherent() && FreshFor(d.Now(), d.expandCache)
  {
    ghost var list, vars := d.overrides, d.overrideVars;
    r := d.SetVarFlag(name, "_defaultval", value, depth, {});
    if r.Ok? && name in vars && list.Some? && Refs(value) != {} {
      forall ov
        ensures CacheAgrees(d.Now(), ov, d.expandCache) <==>
                ReadAlike(d.Now(), list.value, d.Now(), ov, d.expandCache.Keys)
      {
        AgreesIffAlike(d.Now(), list.value, d.Now(), ov, d.expandCache);
      }
    } else if r.Ok? {
      forall l | Reached(d.Now(), l) ensures CacheAgrees(d.Now(), l, d.expandCache) {
        if d.due.Some? {
          ReachedIsOne(d.Now(), d.due.value, l);
        }
        assert d.expandCache == map[] || d.Live(l);
      }
    }
  }

  // ---------------------------------------------------------------- reading what was assigned

  /** After a non-parsing assignment the unexpanded value is what was assigned, under every list. */
  lemma AssignedIsRaw(m: View, name: string, value: Value, active: seq<string>, ov: seq<string>)
    requires FindKeyword(name, 0).None?
    ensures var m' := AfterSetVar(m, name, value, false, active);
            && name !in m'.variants && EntryOf(m', name).removes == []
            && (LongerNames(m'.variants) ==> Raw(m', ov, name) == Some(value))
  {
    var c := Cleared(m, name, false);
    var d := WithoutActive(c, name, active);
    if name in c.variants {
      AllDeletedKeeps(c, ActiveNames(c.variants[name], active));
    }
    assert name !in d.variants;
    var e := EntryOf(d, name);
    assert e == WithoutOps(EntryOf(m, name)) || e == NO_ENTRY;
    var m' := AfterSetVar(m, name, value, false, active);
    assert EntryOf(m', name) == e.(content := Some(value));
    if ':' in name {
      var i := RFind(name, ':');
      RecordFromAbove(d.variants, name, OverrideAt(name, i), BaseAt(name, i), name);
    }
  }

  /** v is the expansion of the value while reading k. */
  ghost predicate IsExpansion(m: View, ov: seq<string>, k: string, value: Value, v: Option<Value>) {
    exists e :: Expands(m, ov, Some(k), value, e) && v == Some(e.value)
  }

  lemma ReadIsExpansion(m: View, ov: seq<string>, k: string, value: Value, v: Option<Value>)
    requires LongerNames(m.variants) && k !in m.variants && EntryOf(m, k).removes == []
    requires Raw(m, ov, k) == Some(value) && ReadsValue(m, ov, k, v)
    ensures IsExpansion(m, ov, k, value, v)
  {
    var r :| Reads(m, ov, k, true, r) && r.parser.value == v;
    var n: nat :| Eval(m, ov, n, k, true) == Some(r);
    assert EvalChosen(m, ov, n - 1, k) == Some(UNDEFINED);
    assert Assemble(m, ov, k, UNDEFINED) == Some(value);
    assert Finish(m, ov, n - 1, k, true, UNDEFINED) == Some(r);
    var x := Expand(m, ov, n - 1, Some(k), value).value;
    assert ToRemove(m, ov, k, UNDEFINED, x.value) == {};
    assert Removed(m, ov, n - 1, value, x, {}) == Some(Read(Some(value), Parser(Some(x.value), x.refs, {})));
    assert Finish(m, ov, n - 1, k, true, UNDEFINED) == Some(r);
    assert Expands(m, ov, Some(k), value, x);
  }

  /** Assign a variable and read it. Where all that the assignment cached reads alike under the lists that
      the read may work under, the value read is the expansion of the value assigned. If the variable
      was read on the way to the list, it is cached: the value read is then still the one from before. */
  method SetThenGet(d: DataSmart, name: string, value: Value, depth: nat)
    returns (written: Result<(), Error>, read: Result<Option<Value>, Error>, ghost active: seq<string>,
             ghost kept: set<string>, ghost all: set<string>, ghost basis: Option<seq<string>>)
    requires d.Valid() && !d.inOverride && FindKeyword(name, 0).None?
    modifies d, d.dict
    ensures written.Err? ==>
              SetStops(old(d.Now()), name, value, false, old(d.overrides), active, old(d.overrideVars), depth)
    ensures written.Ok? ==> d.Valid() && d.Now() == AfterSetVar(old(d.Now()), name, value, false, active)
    ensures written.Ok? ==> kept <= OnTheWay(old(d.Now()), name, false, old(d.overrides), active)
    ensures written.Ok?
            && (forall ov | Under(basis, ov) ::
                  AlikeAfter(old(d.Now()), d.Now(), name, value, false, old(d.overrides), active, basis,
                             old(d.overrideVars), kept, all, ov)) ==>
              if read.Ok? then forall ov | d.Live(ov) :: IsExpansion(d.Now(), ov, name, value, read.value)
              else ReadStops(d.Now(), false, basis, depth, name, true)
    ensures written.Ok? && name in kept && name !in RecordedNames(d.Now()) ==>
              read.Ok? && ReadsValue(Cleared(old(d.Now()), name, false), active, name, read.value)
  {
    ghost var m, before, vars := d.Now(), d.overrides, d.overrideVars;
    ghost var filled;
    written, active, filled := d.SetVar(name, value, false, depth, {});
    read, kept, all, basis := Err(TooDeep), filled.Keys, d.expandCache.Keys, d.Basis();
    if written.Err? { return; }
    ghost var m', cache, due := d.Now(), d.expandCache, d.due;
    EmptiedExactly(m, name, false, before, active, filled);
    if name in filled && name !in RecordedNames(m') {
      assert name in cache && cache[name].value == filled[name].value;
      assert ReadsValue(Cleared(m, name, false), active, name, filled[name].value);
    }
    forall ov | Under(basis, ov)
                && AlikeAfter(m, m', name, value, false, before, active, basis, vars, kept, all, ov)
      ensures CacheAgrees(m', ov, cache)
    {
      Decided(m, m', name, value, false, before, active, vars, filled, cache, d.overrides, due, ov);
    }
    ghost var right := d.Coherent();
    read := ReadAgain(d, name, depth, right);
    if read.Ok? && right {
      forall ov | d.Live(ov) ensures IsExpansion(m', ov, name, value, read.value) {
        AssignedIsRaw(m, name, value, active, ov);
        ReadIsExpansion(m', ov, name, value, read.value);
      }
    }
  }

  method ReadAgain(d: DataSmart, name: string, depth: nat,
                   ghost right: bool) returns (read: Result<Option<Value>, Error>)
    requires d.Valid() && d.Ready() && (right ==> d.Coherent()) && (d.overrides.None? && d.due.Some? ==> right)
    modifies d`expandCache, d`overrides, d`inOverride
    ensures d.Valid() && d.Now() == old(d.Now())
    ensures name in old(d.expandCache) ==> read == Ok(old(d.expandCache)[name].value)
    ensures read.Ok? && right ==> forall ov | d.Live(ov) :: ReadsValue(d.Now(), ov, name, read.value)
    ensures read.Err? && right ==> ReadStops(d.Now(), false, old(d.Basis()), depth, name, true)
  {
    ghost var m, fixed, basis := d.Now(), d.overrides.Some?, d.Basis();
    read := d.GetVar(name, depth, if right then RIGHT else ANY);
    if read.Err? && right {
      StopsBefore(m, false, basis, fixed, basis, depth, name, true);
    }
  }
}
