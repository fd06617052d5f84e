/** `DataSmart`: the layered datastore with its expansion cache and its computed
    override list. Reads are proved to compute the functions of `Store`. */
module Datastore {
  import opened Wrappers
  import opened Text
  import opened Overrides
  import opened Store
  import opened Updates
  import opened Steady
  import opened Layers
  import opened ReadGraph
  import opened CacheContents
  import opened AssignedCache
  import opened OverrideLists
  import opened LiveReads
  import opened SteadyCaches
  import opened Failures
  import opened WriteFailures

  /** The exceptions a read or write can end in. TooDeep is the interpreter's recursion limit. */
  datatype Error = SelfReference(name: string) | TooDeep | UnstableOverrides | OldSyntax(name: string)

  /** Put the queued appends that apply behind the value, in order. */
  method PutAppended(start: Option<Value>, ops: seq<Op>, overrides: seq<string>) returns (value: Option<Value>)
    ensures value == Appended(start, ops, overrides)
  {
    value := start;
    for i := 0 to |ops|
      invariant value == Appended(start, ops[..i], overrides)
    {
      assert ops[..i + 1][..i] == ops[..i];
      if Applies(ops[i].cond, overrides) {
        value := Some(OrEmpty(value) + ops[i].value);
      }
    }
    assert ops[..|ops|] == ops;
  }

  /** Put the queued prepends that apply before the value, in order. */
  method PutPrepended(start: Option<Value>, ops: seq<Op>, overrides: seq<string>) returns (value: Option<Value>)
    ensures value == Prepended(start, ops, overrides)
  {
    value := start;
    for i := 0 to |ops|
      invariant value == Prepended(start, ops[..i], overrides)
    {
      assert ops[..i + 1][..i] == ops[..i];
      if Applies(ops[i].cond, overrides) {
        value := Some(ops[i].value + OrEmpty(value));
      }
    }
    assert ops[..|ops|] == ops;
  }

  method FindActiveRemoves(ops: seq<Op>, overrides: seq<string>) returns (removes: set<Value>)
    ensures removes == ActiveRemoves(ops, overrides)
  {
    removes := {};
    for i := 0 to |ops|
      invariant removes == ActiveRemoves(ops[..i], overrides)
    {
      assert ops[..i + 1][..i] == ops[..i];
      if Applies(ops[i].cond, overrides) {
        removes := removes + {ops[i].value};
      }
    }
    assert ops[..|ops|] == ops;
  }

  /** What is known of the cache when a read starts, and still holds when it ends. */
  datatype Guide = Guide(
    right: bool,                  // its entries are right
    linked: bool,                 // they stand with the names they were read through, except those in known
    names: Option<set<string>>,   // only these names are read
    known: set<string>)

  const RIGHT := Guide(true, false, None, {})
  const ANY := Guide(false, false, None, {})

  /** List and cache at some moment. */
  datatype Spot = Spot(overrides: Option<seq<string>>, cache: Cache)

  /** What reads do to list and cache: a list stays and its cache grows; a list that is computed is
      a fixed point, and the one that was due or, from a right cache, the one that the rounds reach.
      With names given, only they get entries, and no list is computed. */
  ghost predicate Moved(m: View, due: Option<seq<string>>, g: Guide, a: Spot, b: Spot) {
    && (a.overrides.Some? ==> b.overrides == a.overrides && Persists(a.cache, b.cache, RecordedNames(m)))
    && (a.overrides.None? && b.overrides.Some? ==>
          && FixedPoint(m, b.overrides.value) && "OVERRIDES" in b.cache
          && (if due.Some? then b.overrides == due else g.right ==> Reached(m, b.overrides.value)))
    && (g.names.Some? ==> b.overrides == a.overrides && b.cache.Keys <= a.cache.Keys + g.names.value)
  }

  lemma MovedOn(m: View, due: Option<seq<string>>, g: Guide, a: Spot, b: Spot, c: Spot)
    ensures Moved(m, due, g, a, b) && Moved(m, due, g, b, c) ==> Moved(m, due, g, a, c)
  {
  }

  lemma MovedPut(m: View, due: Option<seq<string>>, g: Guide, a: Spot, b: Spot, k: string, p: Parser)
    requires Moved(m, due, g, a, b) && (g.names.Some? ==> k in g.names.value)
    requires a.overrides.Some? && k in a.cache ==> k in RecordedNames(m) || b.cache[k].value == p.value
    ensures Moved(m, due, g, a, b.(cache := b.cache[k := p]))
  {
  }

  class DataSmart {
    const dict: Layer
    var expandCache: map<string, Parser>
    var overrideData: map<string, VariantList>
    var overrides: Option<seq<string>>
    var overrideVars: set<string>
    var inOverride: bool
    ghost var recorded: VariantMap
    // the list that computing it again will give, where the cache was filled under it
    ghost var due: Option<seq<string>>

    /** recorded is what the lists of variants hold. */
    ghost predicate Tied()
      reads this`overrideData, this`recorded, overrideData.Values`items
    {
      && overrideData.Keys == recorded.Keys
      && forall k {:trigger overrideData[k]} | k in overrideData :: overrideData[k].items == recorded[k]
    }

    ghost predicate Valid()
      reads this`overrideData, this`recorded, overrideData.Values`items
      reads dict.chain`flags, dict.chain`vars, dict.chain`held, (set d, l | d in dict.chain && l in d.held :: l)`ops
    {
      dict.Valid() && dict.AllTied() && Tied() && LongerNames(recorded)
    }

    ghost function Now(): View
      requires dict.Valid()
      reads this`recorded, dict.chain`vars
    {
      View(dict.Flat(), recorded)
    }

    /** The list that reads work under: the computed one, or the one that is due. */
    ghost function Basis(): Option<seq<string>>
      reads this`overrides, this`due
    {
      if overrides.Some? then overrides else due
    }

    /** A list that reads may be working under. */
    ghost predicate Live(ov: seq<string>)
      reads this`overrides, this`due
    {
      Under(Basis(), ov)
    }

    /** Every cached value is what reading its name gives: under the list, under the one that is due,
        or, while there is neither, under every list. What a copy would read is another matter: see
        `FreshFor` in `DatastoreProperties`. */
    ghost predicate Coherent()
      requires dict.Valid()
      reads this`recorded, this`overrides, this`due, this`expandCache, dict.chain`vars
    {
      AgreesUnder(Now(), Basis(), expandCache)
    }

    /** Not left behind by an exception inside the computation of the list; and a list that is due
        will be found, because OVERRIDES is cached. */
    ghost predicate Ready()
      reads this`overrides, this`inOverride, this`due, this`expandCache
    {
      (inOverride ==> overrides.Some?) && (overrides.None? && due.Some? ==> CachedList(expandCache, due.value))
    }

    /** References in cached values are to the names, and reading these reads no others. */
    ghost predicate Bounded(names: set<string>, known: set<string>)
      requires dict.Valid() && LongerNames(recorded)
      reads this`recorded, this`overrides, this`expandCache, dict.chain`vars
    {
      && RefsIn(expandCache, names) && known <= expandCache.Keys
      && if overrides.Some? then ClosedBut(Now(), overrides.value, names, known) else Plain(Now(), names)
    }

    ghost predicate Fits(g: Guide)
      requires dict.Valid() && LongerNames(recorded)
      reads this`recorded, this`overrides, this`due, this`expandCache, dict.chain`vars
    {
      && (g.right ==> Coherent())
      && (overrides.None? && due.Some? ==> g.right)
      && (g.linked ==> overrides.Some? && Linked(Now(), overrides.value, expandCache.Keys, g.known))
      && (g.names.Some? ==> Bounded(g.names.value, g.known))
    }

    /** No list will be computed on the way. */
    ghost predicate Sure(g: Guide)
      reads this`overrides
    {
      overrides.Some? || g.names.Some?
    }

    /** The name may be read: with names given, it is one of them. */
    ghost predicate MayRead(g: Guide, k: string)
      requires dict.Valid()
      reads this`recorded, dict.chain`vars
    {
      g.names.Some? ==> k in g.names.value && (k !in g.known || k in RecordedNames(Now()))
    }

    /** The contents are as they were, and valid if they were. */
    twostate predicate SameContents()
      requires dict.Valid()
      reads this`overrideData, this`recorded, overrideData.Values`items
      reads dict.chain`flags, dict.chain`vars, dict.chain`held, (set d, l | d in dict.chain && l in d.held :: l)`ops
    {
      Valid() == old(Valid()) && Now() == old(Now())
    }

    ghost function Here(): Spot
      reads this`overrides, this`expandCache
    {
      Spot(overrides, expandCache)
    }

    /** What a read leaves: what was known still holds, and list and cache moved as reads move them. */
    twostate predicate After(g: Guide)
      requires dict.Valid() && LongerNames(recorded)
      reads this`recorded, this`overrides, this`inOverride, this`due, this`expandCache, dict.chain`vars
    {
      && Ready() && Fits(g) && inOverride == old(inOverride)
      && Moved(Now(), due, g, old(Here()), Here()) && Narrower(old(Basis()), Basis())
    }

    /** An empty datastore, on top of the layers of another one if it is a copy. */
    constructor (below: Layer?)
      requires below != null ==> below.Valid() && below.AllTied()
      ensures Valid() && Ready() && Coherent() && fresh(this) && fresh(dict)
      ensures dict.parent == below && dict.vars == map[] && recorded == map[]
      ensures overrides.None? && overrideVars == {"OVERRIDES", "FILE"} && !inOverride && expandCache == map[]
      ensures due.None?
    {
      dict := new Layer(below);
      expandCache := map[];
      overrideData, recorded := map[], map[];
      overrides, due := None, None;
      overrideVars := {"OVERRIDES", "FILE"};
      inOverride := false;
    }

    // ---------------------------------------------------------------- the override list

    /** `need_overrides`: compute the list, unless it is there. Whatever the cache held, it is right
        when the list has been computed. */
    method NeedOverrides(depth: nat, ghost g: Guide) returns (r: Result<(), Error>)
      requires Valid() && Ready() && Fits(g)
      requires g.names.Some? && overrides.None? ==> "OVERRIDES" in g.names.value
      modifies this`expandCache, this`overrides, this`inOverride
      ensures SameContents()
      ensures old(overrides).Some? ==> r.Ok? && expandCache == old(expandCache) && overrides == old(overrides)
      ensures r.Ok? ==> overrides.Some? && After(g.(names := None, linked := false))
      ensures r.Ok? && (g.names.None? || old(overrides).Some?) ==> After(g)
      ensures r.Ok? && old(overrides).None? ==> Extends(Now(), overrides.value, map[], expandCache, {"OVERRIDES"})
      ensures r.Ok? && old(overrides).None? && due.None? && g.right ==> Reached(Now(), overrides.value)
      ensures r.Ok? && old(overrides).None? && g.names.Some? ==> expandCache.Keys <= g.names.value
      ensures g.right && r == Err(UnstableOverrides) ==> g.names.None? && KeepsChanging(Now())
      ensures g.right && r.Err? ==> r.error == UnstableOverrides || !ListReads(Now(), depth)
      decreases depth, 13
    {
      r := Ok(());
      if overrides.None? {
        r := ComputeList(depth, g);
        if r.Ok? && g.names.Some? {
          FilledFrom(Now(), overrides.value, expandCache, g.names.value);
        }
      }
    }

    /** The list, where a read needs it. */
    method ListForRead(depth: nat, ghost g: Guide) returns (r: Result<(), Error>)
      requires Valid() && Ready() && Fits(g) && (g.names.None? || overrides.Some?)
      modifies this`expandCache, this`overrides, this`inOverride
      ensures SameContents()
      ensures r.Ok? ==> overrides.Some? && After(g)
      ensures old(overrides).Some? ==> r.Ok?
      ensures r.Err? && g.right ==> ListStops(Now(), depth)
      decreases depth, 14
    {
      r := NeedOverrides(depth, g);
    }

    method ComputeList(depth: nat, ghost g: Guide) returns (r: Result<(), Error>)
      requires Valid() && Ready() && !inOverride && overrides.None?
      requires Fits(g) && (g.names.Some? ==> "OVERRIDES" in g.names.value)
      modifies this`expandCache, this`overrides, this`inOverride
      ensures SameContents()
      ensures r.Ok? ==> overrides.Some? && !inOverride && FixedPoint(Now(), overrides.value)
      ensures r.Ok? && due.Some? ==> overrides == due
      ensures r.Ok? ==> Extends(Now(), overrides.value, map[], expandCache, {"OVERRIDES"})
      ensures r.Ok? && due.None? && g.right ==> Reached(Now(), overrides.value)
      ensures g.right && r == Err(UnstableOverrides) ==> g.names.None? && KeepsChanging(Now())
      ensures g.right && r.Err? ==> r.error == UnstableOverrides || !ListReads(Now(), depth)
      decreases depth, 12
    {
      ghost var lists: seq<seq<string>> := [];
      ghost var m, sure := Now(), g.right && (due.Some? || g.names.Some?);
      if due.Some? {
        assert Live(due.value);
        CachedListIsFixed(m, due.value, expandCache);
      }
      for count := 0 to 5
        invariant Valid() && !inOverride && Ready() && Now() == m
        invariant count == 0 ==> overrides.None? && Fits(g) && expandCache == old(expandCache)
        invariant count > 0 ==> overrides.Some? && CachedList(expandCache, overrides.value)
        invariant count > 0 && g.right && due.None? ==> RoundsDone(m, lists, count, overrides)
        invariant sure ==> count == 0
      {
        ghost var guess;
        var stable;
        stable, guess := ListRound(depth, g.right && count == 0);
        if stable.Err? { return Err(stable.error); }
        if sure {
          SettlesAtOnce(m, due, g.names, guess, overrides.value);
        }
        if count == 0 && g.right && due.None? {
          ChainStarts(m, guess);
          lists := [guess];
        }
        if stable.value {
          if g.right && due.None? {
            ChainReaches(m, lists, overrides.value);
          }
          return Ok(());
        }
        if g.right && due.None? {
          ChainGrows(m, lists, overrides.value);
          lists := lists + [overrides.value];
        }
      }
      if g.right {
        ChainGoesOn(m, lists);
      }
      r := Err(UnstableOverrides);
    }

    /** One round: evaluate OVERRIDES with no override active, or as cached; then again under that list. */
    method ListRound(depth: nat, ghost right: bool) returns (r: Result<bool, Error>, ghost guess: seq<string>)
      requires Valid() && !inOverride && Ready()
      requires overrides.Some? ==> CachedList(expandCache, overrides.value)
      requires right ==> overrides.None? && Coherent()
      modifies this`expandCache, this`overrides, this`inOverride
      ensures SameContents()
      ensures r.Ok? ==> !inOverride && overrides.Some? && CachedList(expandCache, overrides.value)
      ensures r.Ok? && old(Basis()).Some? ==> guess == old(Basis()).value
      ensures r.Ok? && old(Basis()).None? && right ==> ListUnder(Now(), [], guess)
      ensures r.Ok? ==> ListUnder(Now(), guess, overrides.value) && (r.value <==> overrides.value == guess)
      ensures r == Ok(true) ==> Extends(Now(), overrides.value, map[], expandCache, {"OVERRIDES"})
      ensures r.Err? ==> r.error != UnstableOverrides && (right || old(overrides).Some? ==> !ListReads(Now(), depth))
      decreases depth, 11
    {
      ghost var m := Now();
      var first := GuessList(depth, right);
      guess := [];
      if first.Err? { return Err(first.error), guess; }
      guess := first.value;
      var list := EvaluateAfresh(depth);
      if list.Err? { return Err(list.error), guess; }
      if list.value == overrides.value {
        return Ok(true), guess;
      }
      overrides := Some(list.value);
      r := Ok(false);
    }

    /** The second half of a round: OVERRIDES under the list now set, from an empty cache. */
    method EvaluateAfresh(depth: nat) returns (r: Result<seq<string>, Error>)
      requires Valid() && overrides.Some? && expandCache == map[]
      modifies this`expandCache, this`overrides, this`inOverride
      ensures SameContents()
      ensures r.Ok? ==> overrides == old(overrides) && inOverride == old(inOverride) && CachedList(expandCache, r.value)
      ensures r.Ok? ==> ListUnder(Now(), overrides.value, r.value)
      ensures r.Ok? ==> Extends(Now(), overrides.value, map[], expandCache, {"OVERRIDES"})
      ensures r.Err? ==> r.error != UnstableOverrides && !ListReads(Now(), depth)
      decreases depth, 10
    {
      ghost var m, ov, from := Now(), overrides.value, {"OVERRIDES"};
      ghost var g := Guide(true, true, Some(ReadThrough(m, ov, {}, from)), {});
      ThroughClosed(m, ov, {}, from);
      r := EvaluateList(depth, g);
      if r.Ok? {
        assert Live(ov);
        FromNothing(m, ov, expandCache, from);
      }
    }

    /** The first half of a round: what OVERRIDES gives with no override active becomes the list. */
    method GuessList(depth: nat, ghost right: bool) returns (r: Result<seq<string>, Error>)
      requires Valid() && !inOverride && Ready()
      requires overrides.Some? ==> CachedList(expandCache, overrides.value)
      requires right ==> overrides.None? && Coherent()
      modifies this`expandCache, this`overrides, this`inOverride
      ensures SameContents()
      ensures r.Ok? ==> !inOverride && overrides == Some(r.value) && expandCache == map[]
      ensures r.Ok? && old(Basis()).Some? ==> r.value == old(Basis()).value
      ensures r.Ok? && old(Basis()).None? && right ==> ListUnder(Now(), [], r.value)
      ensures r.Err? ==> r.error != UnstableOverrides && (right || old(overrides).Some? ==> !ListReads(Now(), depth))
      decreases depth, 10
    {
      ghost var m, basis := Now(), Basis();
      ghost var g := if right && basis.None? then RIGHT else ANY;
      assert basis.Some? ==> CachedList(expandCache, basis.value);
      assert g.right ==> CacheAgrees(m, [], expandCache) by { assert g.right ==> Live([]); }
      inOverride, overrides := true, Some([]);
      assert Now() == m;
      r := EvaluateList(depth, g);
      assert basis.Some? ==> r == Ok(basis.value);
      if r.Ok? {
        Adopt(r.value);
      }
    }

    /** Make this the list, and forget what was cached under another one. */
    method Adopt(list: seq<string>)
      requires Valid()
      modifies this`expandCache, this`overrides, this`inOverride
      ensures SameContents() && overrides == Some(list) && !inOverride && expandCache == map[]
    {
      overrides, inOverride, expandCache := Some(list), false, map[];
    }

    /** `(getVar("OVERRIDES") or "").split(":")` under the list now set. */
    method EvaluateList(depth: nat, ghost g: Guide) returns (r: Result<seq<string>, Error>)
      requires Valid() && overrides.Some? && Fits(g) && (g.names.Some? ==> "OVERRIDES" in g.names.value)
      modifies this`expandCache, this`overrides, this`inOverride
      ensures SameContents()
      ensures r.Ok? ==> After(g) && CachedList(expandCache, r.value)
      ensures r.Ok? && g.right ==> ListUnder(Now(), overrides.value, r.value)
      ensures forall list | old(CachedList(expandCache, list)) :: r == Ok(list)
      ensures r.Err? ==> r.error != UnstableOverrides && (g.right ==> !ListReads(Now(), depth))
      decreases depth, 9
    {
      ghost var m, ov := Now(), overrides.value;
      assert Live(ov);
      var value := GetVar("OVERRIDES", depth, g);
      if value.Err? {
        assert g.right ==> Under(Some(ov), ov) && Eval(m, ov, depth, "OVERRIDES", true).None?;
        return Err(value.error);
      }
      assert Live(overrides.value);
      r := Ok(OverrideList(value.value));
    }

    // ---------------------------------------------------------------- expansion

    /** One pass of the substitution of references. */
    method SubstitutePass(v: Value, self: Option<string>, depth: nat, ghost g: Guide) returns (r: Result<Value, Error>)
      requires Valid() && Ready() && Fits(g) && (g.names.Some? ==> Refs(v) <= g.names.value)
      modifies this`expandCache, this`overrides, this`inOverride
      ensures SameContents()
      ensures r.Ok? ==> After(g)
      ensures r.Ok? && g.right ==> AllPass(Now(), Basis(), self, v, r.value)
      ensures r.Ok? && g.linked ==> Refs(v) <= expandCache.Keys
      ensures r.Ok? && g.names.Some? ==> Refs(r.value) <= g.names.value
      ensures old(overrides).Some? ==> r != Err(UnstableOverrides)
      ensures r.Err? && g.right ==> PassStops(Now(), old(Sure(g)), old(Basis()), depth, self, v)
      decreases depth, 10
    {
      var s: Value := [];
      ghost var m := Now();
      AllPassNothing(m, Basis(), self);
      for i := 0 to |v|
        invariant Valid() && After(g) && Now() == m
        invariant g.right ==> AllPass(m, Basis(), self, v[..i], s)
        invariant g.linked ==> Refs(v[..i]) <= expandCache.Keys
        invariant g.names.Some? ==> Refs(s) <= g.names.value
      {
        ghost var before, here, basis, sure := s, Here(), Basis(), Sure(g);
        assert v[..i + 1] == v[..i] + [v[i]];
        assert v[i].Ref? ==> v[i].name in Refs(v);
        RefsAppend(v[..i], [v[i]]);
        var one := SubstituteOne(v[i], self, depth, g);
        if one.Err? {
          if g.right {
            TokStopsPass(m, old(Sure(g)), old(Basis()), sure, basis, depth, self, v, i);
          }
          return Err(one.error);
        }
        MovedOn(m, due, g, old(Here()), here, Here());
        s := s + one.value;
        RefsAppend(before, one.value);
        if g.right {
          AllPassOne(m, basis, Basis(), self, v[..i], before, v[i], one.value);
        }
      }
      assert v[..|v|] == v;
      r := Ok(s);
    }

    /** `var_sub`: what stands for one token. */
    method SubstituteOne(t: Tok, self: Option<string>, depth: nat, ghost g: Guide) returns (r: Result<Value, Error>)
      requires Valid() && Ready() && Fits(g) && (g.names.Some? && t.Ref? ==> t.name in g.names.value)
      modifies this`expandCache, this`overrides, this`inOverride
      ensures SameContents()
      ensures r.Ok? ==> After(g)
      ensures r.Ok? && g.right ==> AllStand(Now(), Basis(), self, t, r.value)
      ensures r.Ok? && g.linked && t.Ref? ==> t.name in expandCache
      ensures r.Ok? && g.names.Some? ==> Refs(r.value) <= g.names.value
      ensures old(overrides).Some? ==> r != Err(UnstableOverrides)
      ensures r.Err? && g.right ==> TokStops(Now(), old(Sure(g)), old(Basis()), depth, self, t)
      decreases depth, 9
    {
      match t
      case Ch(_) => return Ok([t]);
      case Ref(x) =>
        if self == Some(x) {
          SelfStops(Now(), Sure(g), Basis(), depth, x);
          return Err(SelfReference(x));
        }
        var value := GetVar(x, depth, g);
        if value.Err? {
          if g.right {
            RefStops(Now(), old(Sure(g)), old(Basis()), depth, self, x);
          }
          return Err(value.error);
        }
        r := Ok(if value.value.Some? then value.value.value else [t]);
    }

    /** Passes until nothing changes. A right cache makes that two at most; with a wrong one, a value
        that has not settled after depth + 2 passes counts as too deep. */
    method ExpandWithRefs(v: Value, self: Option<string>, depth: nat, ghost g: Guide)
      returns (r: Result<Expansion, Error>)
      requires Valid() && Ready() && Fits(g) && (g.names.Some? ==> Refs(v) <= g.names.value)
      modifies this`expandCache, this`overrides, this`inOverride
      ensures SameContents()
      ensures r.Ok? ==> After(g) && Refs(v) <= r.value.refs
      ensures Refs(v) == {} ==>
                r == Ok(Expansion(v, {})) && expandCache == old(expandCache) && overrides == old(overrides)
      ensures r.Ok? && g.right ==> AllExpandTo(Now(), Basis(), self, v, r.value)
      ensures r.Ok? && g.linked ==> r.value.refs <= expandCache.Keys
      ensures r.Ok? && g.names.Some? ==> Refs(r.value.value) <= g.names.value && r.value.refs <= g.names.value
      ensures old(overrides).Some? ==> r != Err(UnstableOverrides)
      ensures r.Err? && g.right ==> ExpandStops(Now(), old(Sure(g)), old(Basis()), depth, self, v)
      decreases depth, 11
    {
      var s, references, passes := v, {}, 0;
      ghost var m := Now();
      while Refs(s) != {}
        invariant Valid() && After(g) && Now() == m
        invariant passes == 0 ==> s == v && references == {}
        invariant passes > 0 ==> Refs(v) <= references
        invariant Refs(v) == {} ==> passes == 0 && expandCache == old(expandCache) && overrides == old(overrides)
        invariant g.right && passes == 1 ==>
                    references == Refs(v) && s != v && AllPass(m, Basis(), self, v, s)
        invariant g.right ==> passes <= 1
        invariant g.linked ==> references <= expandCache.Keys
        invariant g.names.Some? ==> Refs(s) <= g.names.value && references <= g.names.value
        invariant passes <= depth + 2
        decreases depth + 2 - passes
      {
        if passes == depth + 2 { return Err(TooDeep); }
        ghost var here, basis, sure := Here(), Basis(), Sure(g);
        var p := SubstitutePass(s, self, depth, g);
        if p.Err? {
          if g.right {
            PassStopsExpand(m, old(Sure(g)), old(Basis()), sure, basis, depth, self, v, s);
          }
          return Err(p.error);
        }
        MovedOn(m, due, g, old(Here()), here, Here());
        var olds := s;
        s, references := p.value, references + Refs(s);
        if passes == 1 && g.right {
          SecondIsIdle(m, basis, Basis(), self, v, olds, s);
        }
        if s == olds {
          assert g.right ==> AllPass(m, Basis(), self, v, s) && references == Refs(v) + Refs(s);
          break;
        }
        passes := passes + 1;
      }
      if g.right {
        AllExpandBy(m, Basis(), self, v, s, references);
      }
      r := Ok(Expansion(s, references));
    }

    // ---------------------------------------------------------------- reads

    /** The variant that the overrides select for k. */
    method ChooseVariant(k: string, depth: nat, ghost g: Guide) returns (r: Result<Option<string>, Error>)
      requires Valid() && Ready() && Fits(g) && depth > 0 && MayRead(g, k)
      modifies this`expandCache, this`overrides, this`inOverride
      ensures SameContents()
      ensures r.Ok? ==> After(g) && AllChosen(Now(), Basis(), k, r.value)
      ensures r.Ok? && r.value.Some? ==>
                overrides.Some? && MayRead(g, r.value.value) && r.value.value in RecordedNames(Now())
      ensures k !in recorded ==> r == Ok(None) && expandCache == old(expandCache) && overrides == old(overrides)
      ensures old(overrides).Some? ==> r.Ok?
      ensures r.Err? && g.right ==> ListStops(Now(), depth - 1)
      decreases depth, 0
    {
      r := Ok(None);
      if k in overrideData {
        NamesArePlain(k, g);
        var needed := ListForRead(depth - 1, g);
        if needed.Err? { return Err(needed.error); }
        var chosen := ActiveVariant(k, g);
        r := Ok(chosen);
      }
    }

    lemma NamesArePlain(k: string, g: Guide)
      requires Valid() && Fits(g) && MayRead(g, k)
      ensures g.names.Some? && overrides.None? ==>
                var e := EntryOf(Now(), k);
                k !in recorded && e.appends == [] && e.prepends == [] && e.removes == []
    {
      if g.names.Some? && overrides.None? {
        assert PlainAt(Now(), k, g.names.value);
      }
    }

    /** The loop over the recorded variants of k. */
    method ActiveVariant(k: string, ghost g: Guide) returns (chosen: Option<string>)
      requires Valid() && Fits(g) && MayRead(g, k) && overrides.Some? && k in overrideData
      ensures chosen == Chosen(Now(), overrides.value, k)
      ensures chosen.Some? ==> MayRead(g, chosen.value) && chosen.value in RecordedNames(Now())
    {
      chosen := Resolve(overrideData[k].items, overrides.value);
      ChosenIsNext(Now(), overrides.value, k);
      assert g.names.Some? ==> ClosedAt(Now(), overrides.value, g.names.value, k);
    }

    /** Find the variant the overrides select for k and read it. */
    method ReadVariant(k: string, depth: nat, ghost g: Guide) returns (r: Result<Read, Error>)
      requires Valid() && Ready() && Fits(g) && depth > 0 && MayRead(g, k)
      modifies this`expandCache, this`overrides, this`inOverride
      ensures SameContents()
      ensures r.Ok? ==> After(g) && AllRawOfChosen(Now(), Basis(), k, r.value.raw)
      ensures r.Ok? && g.right ==> AllReadChosen(Now(), Basis(), k, r.value)
      ensures r.Ok? && g.linked && Chosen(Now(), overrides.value, k).Some? ==>
                Chosen(Now(), overrides.value, k).value in expandCache
      ensures r.Ok? && g.names.Some? ==> RemovesIn(r.value.parser.removes, g.names.value)
      ensures k !in recorded ==> r == Ok(UNDEFINED) && expandCache == old(expandCache) && overrides == old(overrides)
      ensures old(overrides).Some? ==> r != Err(UnstableOverrides)
      ensures r.Err? && g.right ==> ChosenStops(Now(), old(overrides).Some?, old(Basis()), depth, k)
      decreases depth, 2
    {
      var chosen := ChooseVariant(k, depth, g);
      if chosen.Err? {
        if g.right {
          ListStopsChosen(Now(), old(Basis()), depth, k);
        }
        r := Err(chosen.error);
      } else if chosen.value.None? {
        r := Ok(UNDEFINED);
      } else {
        ghost var m, here, list := Now(), Here(), overrides.value;
        r := ReadChosen(k, chosen.value.value, depth, g);
        if r.Ok? {
          MovedOn(m, due, g, old(Here()), here, Here());
        } else if g.right {
          VariantStops(m, old(overrides).Some?, old(Basis()), list, depth, k, chosen.value.value);
        }
      }
    }

    /** Read the variant that the list selects for k. */
    method ReadChosen(k: string, chosen: string, depth: nat, ghost g: Guide) returns (r: Result<Read, Error>)
      requires Valid() && Ready() && Fits(g) && depth > 0 && MayRead(g, chosen) && chosen in RecordedNames(Now())
      requires overrides.Some? && Chosen(Now(), overrides.value, k) == Some(chosen)
      modifies this`expandCache, this`overrides, this`inOverride
      ensures SameContents()
      ensures r.Ok? ==> After(g) && AllRawOfChosen(Now(), Basis(), k, r.value.raw) && chosen in expandCache
      ensures r.Ok? && g.right ==> AllReadChosen(Now(), Basis(), k, r.value)
      ensures r.Ok? && g.names.Some? ==> RemovesIn(r.value.parser.removes, g.names.value)
      ensures r != Err(UnstableOverrides)
      ensures r.Err? && g.right ==> ReadStops(Now(), true, old(overrides), depth - 1, chosen, false)
      decreases depth, 0
    {
      ghost var m, list := Now(), overrides;
      r := Compute(chosen, false, depth - 1, g);
      if r.Ok? {
        ChosenReads(m, list, Basis(), k, chosen, r.value, g.right);
      }
    }

    /** Put the queued appends behind value. */
    method AddAppends(local: Entry, start: Option<Value>, depth: nat, ghost g: Guide)
      returns (r: Result<Option<Value>, Error>)
      requires Valid() && Ready() && Fits(g) && depth > 0
      requires g.names.Some? && overrides.None? ==> local.appends == []
      modifies this`expandCache, this`overrides, this`inOverride
      ensures SameContents()
      ensures r.Ok? ==> After(g) && AllAppended(Basis(), start, local.appends, r.value)
      ensures local.appends == [] ==> r.Ok? && expandCache == old(expandCache) && overrides == old(overrides)
      ensures old(overrides).Some? ==> r.Ok?
      ensures r.Err? && g.right ==> ListStops(Now(), depth - 1)
      decreases depth, 0
    {
      var value := start;
      if local.appends != [] {
        var needed := ListForRead(depth - 1, g);
        if needed.Err? { return Err(needed.error); }
        value := PutAppended(start, local.appends, overrides.value);
      }
      r := Ok(value);
    }

    /** Put the queued prepends before value. */
    method AddPrepends(local: Entry, start: Option<Value>, depth: nat, ghost g: Guide)
      returns (r: Result<Option<Value>, Error>)
      requires Valid() && Ready() && Fits(g) && depth > 0
      requires g.names.Some? && overrides.None? ==> local.prepends == []
      modifies this`expandCache, this`overrides, this`inOverride
      ensures SameContents()
      ensures r.Ok? ==> After(g) && AllPrepended(Basis(), start, local.prepends, r.value)
      ensures local.prepends == [] ==> r.Ok? && expandCache == old(expandCache) && overrides == old(overrides)
      ensures old(overrides).Some? ==> r.Ok?
      ensures r.Err? && g.right ==> ListStops(Now(), depth - 1)
      decreases depth, 0
    {
      var value := start;
      if local.prepends != [] {
        var needed := ListForRead(depth - 1, g);
        if needed.Err? { return Err(needed.error); }
        value := PutPrepended(start, local.prepends, overrides.value);
      }
      r := Ok(value);
    }

    /** The unexpanded value: variant, content or default, then the queued additions. */
    method AssembleRaw(k: string, local: Entry, sub: Read, depth: nat, ghost g: Guide)
      returns (r: Result<Option<Value>, Error>)
      requires Valid() && Ready() && Fits(g) && depth > 0 && local == EntryOf(Now(), k)
      requires g.names.Some? && overrides.None? ==> local.appends == [] && local.prepends == []
      modifies this`expandCache, this`overrides, this`inOverride
      ensures SameContents()
      ensures r.Ok? ==> After(g) && AllAssemble(Now(), Basis(), k, sub, r.value)
      ensures local.appends == [] && local.prepends == [] ==>
                r.Ok? && expandCache == old(expandCache) && overrides == old(overrides)
      ensures old(overrides).Some? ==> r.Ok?
      ensures r.Err? && g.right ==> ListStops(Now(), depth - 1)
      decreases depth, 2
    {
      ghost var m := Now();
      var value := if sub.raw.Some? then sub.raw else Base(local);
      r := AddAppends(local, value, depth, g);
      if r.Err? { return; }
      ghost var here, basis, appended := Here(), Basis(), r.value;
      r := AddPrepends(local, r.value, depth, g);
      if r.Ok? {
        MovedOn(m, due, g, old(Here()), here, Here());
        AllAssembleBy(m, basis, Basis(), k, sub, appended, r.value);
      }
    }

    /** The removals to apply to a value: those of the variant and the active ones of k. */
    method CollectRemoves(k: string, local: Entry, sub: Read, tested: Value, depth: nat, ghost g: Guide)
      returns (r: Result<set<Value>, Error>)
      requires Valid() && Ready() && Fits(g) && depth > 0 && local == EntryOf(Now(), k)
      requires g.names.Some? ==> RemovesIn(sub.parser.removes, g.names.value) && OpNames(local.removes) <= g.names.value
      requires g.names.Some? && overrides.None? ==> local.removes == []
      modifies this`expandCache, this`overrides, this`inOverride
      ensures SameContents()
      ensures r.Ok? ==> After(g) && AllRemove(Now(), Basis(), k, sub, tested, r.value)
      ensures r.Ok? && g.names.Some? ==> RemovesIn(r.value, g.names.value)
      ensures local.removes == [] ==> r.Ok? && expandCache == old(expandCache) && overrides == old(overrides)
      ensures old(overrides).Some? ==> r.Ok?
      ensures r.Err? && g.right ==> ListStops(Now(), depth - 1)
      decreases depth, 0
    {
      if tested == [] {
        return Ok({});
      }
      var removes := sub.parser.removes;
      ghost var m := Now();
      if local.removes != [] {
        var needed := ListForRead(depth - 1, g);
        if needed.Err? { return Err(needed.error); }
        var own := FindActiveRemoves(local.removes, overrides.value);
        ActiveRemovesIn(local.removes, overrides.value);
        removes := removes + own;
      }
      assert Now() == m;
      forall ov | Live(ov) ensures ToRemove(m, ov, k, sub, tested) == removes {
        assert local.removes == [] ==> removes == sub.parser.removes + ActiveRemoves([], ov);
      }
      r := Ok(removes);
    }

    method ExpandRemoves(removes: set<Value>, depth: nat, ghost g: Guide)
      returns (r: Result<map<Value, Expansion>, Error>)
      requires Valid() && Ready() && Fits(g) && depth > 0
      requires g.names.Some? ==> RemovesIn(removes, g.names.value)
      modifies this`expandCache, this`overrides, this`inOverride
      ensures SameContents()
      ensures r.Ok? ==> After(g) && r.value.Keys == removes
      ensures r.Ok? && g.right ==> AllExpand(Now(), Basis(), r.value)
      ensures removes == {} ==> r.Ok? && expandCache == old(expandCache) && overrides == old(overrides)
      ensures old(overrides).Some? ==> r != Err(UnstableOverrides)
      ensures r.Err? && g.right ==> RemovesStop(Now(), old(Sure(g)), old(Basis()), depth - 1, removes)
      decreases depth, 1
    {
      ghost var m := Now();
      var expanded: map<Value, Expansion> := map[];
      var todo := removes;
      while todo != {}
        invariant Valid() && After(g) && Now() == m
        invariant expanded.Keys == removes - todo && todo <= removes
        invariant g.right ==> AllExpand(m, Basis(), expanded)
        invariant removes == {} ==> expandCache == old(expandCache) && overrides == old(overrides)
        decreases todo
      {
        var v :| v in todo;
        todo := todo - {v};
        ghost var here, basis, sure := Here(), Basis(), Sure(g);
        var more := ExpandOne(v, expanded, depth, g);
        if more.Err? {
          if g.right {
            OneStops(m, old(Sure(g)), old(Basis()), sure, basis, depth - 1, removes, v);
          }
          return more;
        }
        MovedOn(m, due, g, old(Here()), here, Here());
        assert removes - todo == expanded.Keys + {v};
        expanded := more.value;
      }
      r := Ok(expanded);
    }

    /** Expand one more removal. */
    method ExpandOne(v: Value, before: map<Value, Expansion>, depth: nat, ghost g: Guide)
      returns (r: Result<map<Value, Expansion>, Error>)
      requires Valid() && Ready() && Fits(g) && depth > 0 && (g.names.Some? ==> Refs(v) <= g.names.value)
      requires g.right ==> AllExpand(Now(), Basis(), before)
      modifies this`expandCache, this`overrides, this`inOverride
      ensures SameContents()
      ensures r.Ok? ==> After(g) && r.value.Keys == before.Keys + {v}
      ensures r.Ok? && g.right ==> AllExpand(Now(), Basis(), r.value)
      ensures old(overrides).Some? ==> r != Err(UnstableOverrides)
      ensures r.Err? && g.right ==> ExpandStops(Now(), old(Sure(g)), old(Basis()), depth - 1, None, v)
      decreases depth, 0
    {
      ghost var m, basis := Now(), Basis();
      var e := ExpandWithRefs(v, None, depth - 1, g);
      if e.Err? { return Err(e.error); }
      if g.right {
        OneMoreExpands(m, basis, Basis(), before, v, e.value);
      }
      r := Ok(before[v := e.value]);
    }

    /** The removals to apply to a value, each with its expansion. */
    method FindRemoves(k: string, local: Entry, sub: Read, tested: Value, depth: nat, ghost g: Guide)
      returns (r: Result<map<Value, Expansion>, Error>)
      requires Valid() && Ready() && Fits(g) && depth > 0 && local == EntryOf(Now(), k)
      requires g.names.Some? ==> RemovesIn(sub.parser.removes, g.names.value) && OpNames(local.removes) <= g.names.value
      requires g.names.Some? && overrides.None? ==> local.removes == []
      modifies this`expandCache, this`overrides, this`inOverride
      ensures SameContents()
      ensures r.Ok? ==> After(g) && AllRemove(Now(), Basis(), k, sub, tested, r.value.Keys)
      ensures r.Ok? && g.right ==> AllExpand(Now(), Basis(), r.value)
      ensures r.Ok? && g.names.Some? ==> RemovesIn(r.value.Keys, g.names.value)
      ensures old(overrides).Some? ==> r != Err(UnstableOverrides)
      ensures local.removes == [] && sub.parser.removes == {} ==>
                r.Ok? && expandCache == old(expandCache) && overrides == old(overrides)
      ensures r.Err? && g.right ==> FoundStop(Now(), old(Sure(g)), old(Basis()), depth, k, sub, tested)
      decreases depth, 2
    {
      ghost var m := Now();
      var removes := CollectRemoves(k, local, sub, tested, depth, g);
      if removes.Err? {
        if g.right {
          ListStopsFound(m, old(Basis()), depth, k, sub, tested);
        }
        return Err(removes.error);
      }
      if local.removes == [] && sub.parser.removes == {} {
        NothingToRemove(m, Basis(), k, sub, tested, removes.value);
      }
      assert Now() == m;
      ghost var here, basis, sure := Here(), Basis(), Sure(g);
      r := ExpandRemoves(removes.value, depth, g);
      if r.Ok? {
        MovedOn(m, due, g, old(Here()), here, Here());
      } else if g.right {
        RemovesStopFound(m, old(Sure(g)), old(Basis()), sure, basis, depth, k, sub, tested, removes.value);
      }
    }

    /** Take the words to remove out of an expanded value. */
    method ApplyRemoves(k: string, exp: bool, local: Entry, sub: Read, raw: Value, x: Expansion, depth: nat,
                        ghost g: Guide)
      returns (r: Result<Read, Error>)
      requires Valid() && Ready() && Fits(g) && depth > 0 && local == EntryOf(Now(), k)
      requires g.right ==> AllReadChosen(Now(), Basis(), k, sub) && AllExpandTo(Now(), Basis(), Some(k), raw, x)
      requires AllAssemble(Now(), Basis(), k, sub, Some(raw))
      requires g.names.Some? ==> RemovesIn(sub.parser.removes, g.names.value) && OpNames(local.removes) <= g.names.value
      requires g.names.Some? && overrides.None? ==> local.removes == []
      modifies this`expandCache, this`overrides, this`inOverride
      ensures SameContents()
      ensures r.Ok? ==> After(g) && r.value.raw == Some(raw) && Refs(OrEmpty(r.value.parser.value)) <= Refs(x.value)
      ensures r.Ok? && g.right ==> AllRead(Now(), Basis(), k, exp, r.value)
      ensures r.Ok? && g.names.Some? ==> RemovesIn(r.value.parser.removes, g.names.value)
      ensures old(overrides).Some? ==> r != Err(UnstableOverrides)
      ensures local.removes == [] && sub.parser.removes == {} ==>
                r.Ok? && expandCache == old(expandCache) && overrides == old(overrides)
      ensures r.Err? && g.right ==> ReadStops(Now(), old(Sure(g)), old(Basis()), depth, k, exp)
      decreases depth, 3
    {
      ghost var m, before := Now(), Basis();
      var expanded := FindRemoves(k, local, sub, if exp then x.value else raw, depth, g);
      if expanded.Err? {
        if g.right {
          FoundStopRead(m, old(Sure(g)), before, depth, k, exp, sub, raw, x);
        }
        return Err(expanded.error);
      }
      if g.right {
        AllReadBy(m, before, Basis(), k, exp, sub, raw, x, expanded.value);
      }
      ReadOfKeeps(raw, x, expanded.value);
      r := Ok(ReadOf(raw, x, expanded.value));
    }

    /** Expand an assembled value and apply the removals. */
    method FinishRead(k: string, exp: bool, local: Entry, sub: Read, raw: Value, depth: nat, ghost g: Guide)
      returns (r: Result<Read, Error>)
      requires Valid() && Ready() && Fits(g) && depth > 0 && local == EntryOf(Now(), k)
      requires g.right ==> AllReadChosen(Now(), Basis(), k, sub)
      requires AllAssemble(Now(), Basis(), k, sub, Some(raw))
      requires g.names.Some? ==>
                 && Refs(raw) <= g.names.value && OpNames(local.removes) <= g.names.value
                 && RemovesIn(sub.parser.removes, g.names.value)
      requires g.names.Some? && overrides.None? ==> local.removes == [] && sub == UNDEFINED
      modifies this`expandCache, this`overrides, this`inOverride
      ensures SameContents()
      ensures r.Ok? ==> After(g) && r.value.raw == Some(raw)
      ensures r.Ok? && g.right ==> AllRead(Now(), Basis(), k, exp, r.value)
      ensures r.Ok? && g.linked ==> Refs(raw) <= expandCache.Keys
      ensures r.Ok? && g.names.Some? ==>
                Refs(OrEmpty(r.value.parser.value)) <= g.names.value && RemovesIn(r.value.parser.removes, g.names.value)
      ensures old(overrides).Some? ==> r != Err(UnstableOverrides)
      ensures r.Err? && g.right ==> ReadStops(Now(), old(Sure(g)), old(Basis()), depth, k, exp)
      decreases depth, 4
    {
      ghost var m := Now();
      var x := ExpandWithRefs(raw, Some(k), depth - 1, g);
      if x.Err? {
        if g.right {
          ExpandStopsRead(m, old(Sure(g)), old(Basis()), depth, k, exp, sub, raw);
        }
        return Err(x.error);
      }
      assert Now() == m;
      ghost var here, basis, sure := Here(), Basis(), Sure(g);
      r := ApplyRemoves(k, exp, local, sub, raw, x.value, depth, g);
      if r.Ok? {
        MovedOn(m, due, g, old(Here()), here, Here());
      } else if g.right {
        StopsBefore(m, old(Sure(g)), old(Basis()), sure, basis, depth, k, exp);
      }
    }

    /** The flags of k in the nearest layer that has it. */
    method LookUp(k: string) returns (local: Entry)
      requires dict.Valid() && dict.AllTied()
      ensures local == EntryOf(Now(), k)
    {
      var found := dict.Find(k);
      local := if found.Some? then found.value else NO_ENTRY;
    }

    /** The part of a read that expanded and unexpanded reads share: the entry found, the variant
        read and the unexpanded value. */
    method ReadRaw(k: string, depth: nat, ghost g: Guide) returns (r: Result<(Entry, Read, Option<Value>), Error>)
      requires Valid() && Ready() && Fits(g) && depth > 0 && MayRead(g, k)
      modifies this`expandCache, this`overrides, this`inOverride
      ensures SameContents()
      ensures r.Ok? ==> After(g) && r.value.0 == EntryOf(Now(), k)
      ensures r.Ok? ==> AllAssemble(Now(), Basis(), k, r.value.1, r.value.2) && AllRaw(Now(), Basis(), k, r.value.2)
      ensures r.Ok? && g.right ==> AllReadChosen(Now(), Basis(), k, r.value.1)
      ensures r.Ok? && g.linked && Chosen(Now(), overrides.value, k).Some? ==>
                Chosen(Now(), overrides.value, k).value in expandCache
      ensures r.Ok? && g.names.Some? ==> RemovesIn(r.value.1.parser.removes, g.names.value)
      ensures g.names.Some? && old(overrides).None? && r.Ok? ==> r.value.1 == UNDEFINED && r.value.0.removes == []
      ensures old(overrides).Some? ==> r != Err(UnstableOverrides)
      ensures g.names.Some? && old(overrides).None? ==> r.Ok?
      ensures r.Err? && g.right ==> ChosenStops(Now(), old(overrides).Some?, old(Basis()), depth, k)
      decreases depth, 3
    {
      NamesArePlain(k, g);
      ghost var m := Now();
      var local := LookUp(k);
      var sub := ReadVariant(k, depth, g);
      if sub.Err? { return Err(sub.error); }
      assert Now() == m;
      ghost var here, basis := Here(), Basis();
      var raw := AssembleRaw(k, local, sub.value, depth, g);
      if raw.Err? {
        if g.right {
          ListStopsChosen(m, old(Basis()), depth, k);
        }
        return Err(raw.error);
      }
      MovedOn(m, due, g, old(Here()), here, Here());
      AllRawParts(m, basis, Basis(), k, sub.value, raw.value);
      r := Ok((local, sub.value, raw.value));
    }

    /** The uncached part of a read. */
    method ReadUncached(k: string, exp: bool, depth: nat, ghost g: Guide) returns (r: Result<Read, Error>)
      requires Valid() && Ready() && Fits(g) && depth > 0 && MayRead(g, k)
      modifies this`expandCache, this`overrides, this`inOverride
      ensures SameContents()
      ensures r.Ok? ==> After(g) && AllRaw(Now(), Basis(), k, r.value.raw)
      ensures r.Ok? && g.right ==> AllRead(Now(), Basis(), k, exp, r.value)
      ensures r.Ok? && g.linked ==> Next(Now(), overrides.value, k) <= expandCache.Keys
      ensures r.Ok? && g.names.Some? ==>
                Refs(OrEmpty(r.value.parser.value)) <= g.names.value && RemovesIn(r.value.parser.removes, g.names.value)
      ensures old(overrides).Some? ==> r != Err(UnstableOverrides)
      ensures r.Err? && g.right ==> ReadStops(Now(), old(Sure(g)), old(Basis()), depth, k, exp)
      decreases depth, 6
    {
      ghost var m := Now();
      var first := ReadRaw(k, depth, g);
      if first.Err? {
        if g.right {
          ChosenStopsRead(m, old(overrides).Some?, old(Basis()), depth, k, exp);
        }
        return Err(first.error);
      }
      var (local, sub, raw) := first.value;
      assert Now() == m;
      ghost var here, basis, sure := Here(), Basis(), Sure(g);
      RawInNames(k, raw, g);
      r := ReadRest(k, exp, local, sub, raw, depth, g);
      if r.Ok? {
        MovedOn(m, due, g, old(Here()), here, Here());
      } else if g.right {
        StopsBefore(m, old(Sure(g)), old(Basis()), sure, basis, depth, k, exp);
      }
    }

    /** What follows once the unexpanded value is known. */
    method ReadRest(k: string, exp: bool, local: Entry, sub: Read, raw: Option<Value>, depth: nat, ghost g: Guide)
      returns (r: Result<Read, Error>)
      requires Valid() && Ready() && Fits(g) && depth > 0 && local == EntryOf(Now(), k)
      requires g.right ==> AllReadChosen(Now(), Basis(), k, sub)
      requires AllAssemble(Now(), Basis(), k, sub, raw)
      requires g.names.Some? ==>
                 && Refs(OrEmpty(raw)) <= g.names.value && OpNames(local.removes) <= g.names.value
                 && RemovesIn(sub.parser.removes, g.names.value)
      requires g.names.Some? && overrides.None? ==> local.removes == [] && sub == UNDEFINED
      modifies this`expandCache, this`overrides, this`inOverride
      ensures SameContents()
      ensures r.Ok? ==> After(g) && r.value.raw == raw
      ensures r.Ok? && g.right ==> AllRead(Now(), Basis(), k, exp, r.value)
      ensures r.Ok? && g.linked ==> Refs(OrEmpty(raw)) <= expandCache.Keys
      ensures r.Ok? && g.names.Some? ==>
                Refs(OrEmpty(r.value.parser.value)) <= g.names.value && RemovesIn(r.value.parser.removes, g.names.value)
      ensures old(overrides).Some? ==> r != Err(UnstableOverrides)
      ensures r.Err? && g.right ==> ReadStops(Now(), old(Sure(g)), old(Basis()), depth, k, exp)
      decreases depth, 5
    {
      if raw.None? {
        if g.right {
          AllReadUndefined(Now(), Basis(), k, exp, sub);
        }
        return Ok(UNDEFINED);
      }
      r := FinishRead(k, exp, local, sub, raw.value, depth, g);
    }

    lemma RawInNames(k: string, raw: Option<Value>, g: Guide)
      requires Valid() && Fits(g) && MayRead(g, k)
      requires AllRaw(Now(), Basis(), k, raw)
      ensures g.names.Some? ==>
                Refs(OrEmpty(raw)) <= g.names.value && OpNames(EntryOf(Now(), k).removes) <= g.names.value
    {
      var m, some := Now(), OneOf(Basis());
      if g.names.Some? {
        if overrides.Some? {
          assert ClosedAt(m, overrides.value, g.names.value, k);
        } else {
          assert PlainAt(m, k, g.names.value);
          RawParts(m, some, k, UNDEFINED);
        }
      }
    }

    /** A read that does not look in the cache, but fills it. */
    method Compute(k: string, exp: bool, depth: nat, ghost g: Guide) returns (r: Result<Read, Error>)
      requires Valid() && Ready() && Fits(g) && MayRead(g, k)
      requires k in expandCache && !g.right ==> k in RecordedNames(Now())
      modifies this`expandCache, this`overrides, this`inOverride
      ensures SameContents()
      ensures r.Ok? ==> After(g) && k in expandCache && expandCache[k] == r.value.parser
      ensures r.Ok? ==> AllRaw(Now(), Basis(), k, r.value.raw)
      ensures r.Ok? && g.right ==> AllRead(Now(), Basis(), k, exp, r.value)
      ensures r.Ok? && g.names.Some? ==> RemovesIn(r.value.parser.removes, g.names.value)
      ensures old(overrides).Some? ==> r != Err(UnstableOverrides)
      ensures r.Err? && g.right ==> ReadStops(Now(), old(Sure(g)), old(Basis()), depth, k, exp)
      decreases depth, 7
    {
      if depth == 0 {
        NothingStops(Now(), Sure(g), Basis(), k, exp);
        return Err(TooDeep);
      }
      r := ReadUncached(k, exp, depth, g);
      if r.Err? { return; }
      ghost var m, here := Now(), Here();
      if g.right {
        AllReadItsValue(m, Basis(), k, exp, r.value);
        if k in expandCache {
          EntryIsSame(k, r.value.parser.value);
        }
      }
      Enter(k, r.value.parser, g);
      MovedPut(m, due, g, old(Here()), here, k, r.value.parser);
    }

    lemma EntryIsSame(k: string, v: Option<Value>)
      requires Valid() && Coherent() && k in expandCache && AllReadValue(Now(), Basis(), k, v)
      ensures expandCache[k].value == v
    {
      ValueIsOne(Now(), OneOf(Basis()), k, expandCache[k].value, v);
    }

    /** Put a parser into the cache. */
    method Enter(k: string, p: Parser, ghost g: Guide)
      requires Valid() && Ready() && Fits(g) && MayRead(g, k)
      requires g.right ==> AllReadValue(Now(), Basis(), k, p.value)
      requires g.right && k in expandCache ==> expandCache[k].value == p.value
      requires g.linked ==> Next(Now(), overrides.value, k) <= expandCache.Keys
      requires g.names.Some? ==> Refs(OrEmpty(p.value)) <= g.names.value
      modifies this`expandCache
      ensures Valid() && Ready() && Fits(g) && expandCache == old(expandCache)[k := p]
    {
      ghost var m := Now();
      if g.right {
        EntryAgrees(m, Basis(), expandCache, k, p);
      }
      expandCache := expandCache[k := p];
      assert expandCache.Keys == old(expandCache).Keys + {k};
      if g.linked {
        LinkedGrows(m, overrides.value, old(expandCache).Keys, g.known, k);
      }
    }

    /** `getVar` with expansion. */
    method GetVar(k: string, depth: nat, ghost g: Guide) returns (r: Result<Option<Value>, Error>)
      requires Valid() && Ready() && Fits(g) && (g.names.Some? ==> k in g.names.value)
      modifies this`expandCache, this`overrides, this`inOverride
      ensures SameContents()
      ensures k in old(expandCache) ==>
                && r == Ok(old(expandCache)[k].value) && expandCache == old(expandCache)
                && overrides == old(overrides) && inOverride == old(inOverride)
      ensures r.Ok? ==> After(g) && k in expandCache && expandCache[k].value == r.value
      ensures r.Ok? && g.right ==> AllReadValue(Now(), Basis(), k, r.value)
      ensures old(overrides).Some? ==> r != Err(UnstableOverrides)
      ensures r.Err? && g.right ==> ReadStops(Now(), old(Sure(g)), old(Basis()), depth, k, true)
      decreases depth, 8
    {
      if k in expandCache {
        r := Ok(expandCache[k].value);
        if g.right {
          EntryReads(Now(), Basis(), expandCache, k);
        }
        return;
      }
      var read := Compute(k, true, depth, g);
      if read.Err? { return Err(read.error); }
      r := Ok(read.value.parser.value);
    }

    /** `getVar` without expansion: whatever the cache holds, it plays no part in the result. */
    method GetRaw(k: string, depth: nat, ghost g: Guide) returns (r: Result<Option<Value>, Error>)
      requires Valid() && Ready() && Fits(g) && MayRead(g, k)
      modifies this`expandCache, this`overrides, this`inOverride
      ensures SameContents()
      ensures r.Ok? ==> After(g) && AllRaw(Now(), Basis(), k, r.value)
      ensures r.Ok? && g.right ==> forall ov | Live(ov) :: ReadsRaw(Now(), ov, k, r.value)
      ensures r.Err? && g.right && depth > 0 ==> ChosenStops(Now(), old(overrides).Some?, old(Basis()), depth, k)
    {
      if depth == 0 {
        return Err(TooDeep);
      }
      var read := ReadRaw(k, depth, g);
      if read.Err? { return Err(read.error); }
      r := Ok(read.value.2);
      ghost var m, sub := Now(), read.value.1;
      forall ov | Live(ov) && g.right ensures ReadsRaw(m, ov, k, r.value) {
        assert Under(Basis(), ov) && ReadsChosen(m, ov, k, sub);
      }
    }

    // ---------------------------------------------------------------- recording variants

    /** Put v behind the variants of base, in a list of this datastore's own. */
    method RecordVariant(base: string, v: Variant)
      requires Tied()
      modifies this`overrideData, this`recorded
      ensures Tied() && recorded == AddVariant(old(recorded), base, v)
    {
      HaveVariants(base);
      AddToKnown(old(recorded), recorded, base, v);
      if v !in overrideData[base].items {
        var list := new VariantList(overrideData[base].items);
        list.Append(v);
        PutVariants(base, list);
      }
    }

    /** Have a list of the variants of base. */
    method HaveVariants(base: string)
      requires Tied()
      modifies this`overrideData, this`recorded
      ensures Tied() && recorded == if base in old(recorded) then old(recorded) else old(recorded)[base := []]
    {
      if base !in overrideData {
        var none := new VariantList([]);
        PutVariants(base, none);
      }
    }

    method PutVariants(base: string, list: VariantList)
      requires Tied()
      modifies this`overrideData, this`recorded
      ensures Tied() && recorded == old(recorded)[base := list.items]
    {
      overrideData, recorded := overrideData[base := list], recorded[base := list.items];
    }

    method RecordVariants(name: string)
      requires Tied()
      modifies this`overrideData, this`recorded
      ensures Tied() && recorded == Record(old(recorded), name)
    {
      var i := RFind(name, ':');
      RecordFromBase(name, OverrideAt(name, i), BaseAt(name, i));
    }

    method RecordFromBase(name: string, suffix0: string, base0: string)
      requires Tied() && |base0| <= |name|
      modifies this`overrideData, this`recorded
      ensures Tied() && recorded == RecordFrom(old(recorded), name, suffix0, base0)
    {
      ghost var goal := RecordFrom(recorded, name, suffix0, base0);
      var suffix, base, more := suffix0, base0, true;
      while more && StartsName(suffix)
        invariant Tied() && |base| <= |name|
        invariant if more then RecordFrom(recorded, name, suffix, base) == goal else recorded == goal
        decreases more, |base|
      {
        RecordVariant(base, Variant(name, suffix));
        more := false;
        var i := RFind(base, ':');
        if i >= 0 {
          suffix := OverrideAt(name, i);
          base := base[..i];
          more := base != "";
        }
      }
    }

    /** Take v out of the variants of base, in a list of this datastore's own. */
    method ForgetVariant(base: string, v: Variant)
      requires Tied()
      modifies this`overrideData, this`recorded
      ensures Tied() && recorded == DropVariant(old(recorded), base, v)
    {
      if base in overrideData {
        var list := new VariantList(overrideData[base].items);
        list.Remove(v);
        PutVariants(base, list);
      }
    }

    method ForgetVariants(name: string)
      requires Tied()
      modifies this`overrideData, this`recorded
      ensures Tied() && recorded == Forget(old(recorded), name)
    {
      var i := RFind(name, ':');
      if i < 0 {
        return;
      }
      ghost var goal := Forget(recorded, name);
      var suffix, base := OverrideAt(name, i), BaseAt(name, i);
      var more := true;
      while more && IsLower(suffix)
        invariant Tied() && |base| <= |name|
        invariant if more then ForgetFrom(recorded, name, suffix, base) == goal else recorded == goal
        decreases more, |base|
      {
        ForgetVariant(base, Variant(name, suffix));
        more := false;
        i := RFind(base, ':');
        if i >= 0 {
          suffix := OverrideAt(name, i);
          base := base[..i];
          more := base != "";
        }
      }
    }

    // ---------------------------------------------------------------- deletion

    /** Every write starts with an empty cache. */
    method EmptyCache()
      requires Valid()
      modifies this`expandCache, this`due
      ensures SameContents() && expandCache == map[] && due.None?
    {
      expandCache, due := map[], None;
    }

    /** `delVar` */
    method DelVar(name: string)
      requires Valid()
      modifies this`expandCache, this`due, this`overrideData, this`recorded, dict
      ensures Valid() && expandCache == map[] && due.None? && Now() == Deleted(old(Now()), name)
      ensures old(dict.vars).Keys <= dict.vars.Keys
    {
      EmptyCache();
      dict.Clear(name);
      DropVariants(name);
    }

    /** Forget the variants of name, and name as a variant. */
    method DropVariants(name: string)
      requires Tied() && LongerNames(recorded)
      modifies this`overrideData, this`recorded
      ensures Tied() && LongerNames(recorded) && recorded == Forget(old(recorded) - {name}, name)
    {
      ghost var known := recorded;
      overrideData, recorded := overrideData - {name}, recorded - {name};
      ForgetVariants(name);
      DeletedKeeps(View(map[], known), name);
    }

    // ---------------------------------------------------------------- tracking the names OVERRIDES depends on

    /** No name that OVERRIDES is known to depend on depends on overrides itself. */
    ghost predicate SteadyStore()
      requires dict.Valid()
      reads this`recorded, this`overrideVars, dict.chain`vars
    {
      "OVERRIDES" in overrideVars && Plain(Now(), overrideVars)
    }

    /** A computed list is still what OVERRIDES evaluates to. */
    ghost predicate Settled()
      requires dict.Valid()
      reads this`recorded, this`overrides, dict.chain`vars
    {
      overrides.Some? ==> FixedPoint(Now(), overrides.value)
    }

    /** Track the names in first, and the names their expanded values still refer to. */
    method FollowReferences(first: set<string>, depth: nat, ghost g: Guide) returns (r: Result<(), Error>)
      requires Valid() && Ready() && Fits(g) && (g.names.Some? ==> first <= g.names.value)
      requires g.right || g.names.Some?
      modifies this`expandCache, this`overrides, this`inOverride, this`overrideVars
      ensures SameContents()
      ensures r.Ok? ==> After(g) && old(overrideVars) + first <= overrideVars
      ensures r.Ok? && g.names.Some? ==> overrideVars <= old(overrideVars) + g.names.value
      ensures r.Ok? && g.right ==> AllUndefined(Now(), Basis(), overrideVars - old(overrideVars) - first)
      ensures first == {} ==>
                && r.Ok? && expandCache == old(expandCache) && overrideVars == old(overrideVars)
                && overrides == old(overrides)
      ensures r.Err? && g.right ==> FollowStops(Now(), old(Sure(g)), old(Basis()), depth, first)
    {
      ghost var m, rounds := Now(), 0;
      var pending := first;
      FollowStarts(g.right, g.names, m, Basis(), overrideVars, first);
      while !(pending <= overrideVars)
        invariant Valid() && After(g) && Now() == m
        invariant Followed(g.right, g.names, m, Basis(), old(overrideVars), first, overrideVars, pending, rounds)
        invariant first == {} ==> expandCache == old(expandCache) && overrides == old(overrides)
        decreases if g.right then 2 - rounds else 0, if g.names.Some? then g.names.value - overrideVars else {}
      {
        var x :| x in pending && x !in overrideVars;
        ghost var here, basis, sure, vars := Here(), Basis(), Sure(g), overrideVars;
        var next := TrackRound(pending, depth, rounds > 0, g);
        if next.Err? {
          if g.right {
            RoundStops(m, old(Sure(g)), old(Basis()), sure, basis, depth, old(overrideVars), first, vars, pending,
              rounds);
          }
          return Err(next.error);
        }
        MovedOn(m, due, g, old(Here()), here, Here());
        FollowMoves(g.right, g.names, m, basis, Basis(), old(overrideVars), first, vars, pending, rounds, next.value);
        pending := next.value;
        rounds := rounds + 1;
      }
      FollowEnds(g.right, g.names, m, Basis(), old(overrideVars), first, overrideVars, pending, rounds);
      r := Ok(());
    }

    /** Track the pending names, and find those that their expanded values still refer to. */
    method TrackRound(pending: set<string>, depth: nat, ghost undefined: bool, ghost g: Guide)
      returns (r: Result<set<string>, Error>)
      requires Valid() && Ready() && Fits(g) && (g.names.Some? ==> pending <= g.names.value)
      requires undefined && g.right ==> AllUndefined(Now(), Basis(), pending)
      modifies this`expandCache, this`overrides, this`inOverride, this`overrideVars
      ensures SameContents() && overrideVars == old(overrideVars) + pending
      ensures r.Ok? ==> After(g)
      ensures r.Ok? && g.right ==>
                AllUndefined(Now(), Basis(), r.value) && AllLeft(Now(), Basis(), pending, r.value)
      ensures r.Ok? && g.names.Some? ==> r.value <= g.names.value
      ensures r.Ok? && g.right && undefined ==> r.value == {}
      ensures r.Err? && g.right ==> FollowStops(Now(), old(Sure(g)), old(Basis()), depth, pending)
    {
      overrideVars := overrideVars + pending;
      r := LeftReferences(pending, depth, undefined, g);
    }

    /** The names that the expanded value of i still refers to. */
    method LeftOne(i: string, depth: nat, ghost g: Guide) returns (r: Result<set<string>, Error>)
      requires Valid() && Ready() && Fits(g) && (g.names.Some? ==> i in g.names.value)
      modifies this`expandCache, this`overrides, this`inOverride
      ensures SameContents()
      ensures r.Ok? ==> After(g)
      ensures r.Ok? && g.right ==> AllUndefined(Now(), Basis(), r.value) && AllLeft(Now(), Basis(), {i}, r.value)
      ensures r.Ok? && g.names.Some? ==> r.value <= g.names.value
      ensures r.Err? && g.right ==> FollowStops(Now(), old(Sure(g)), old(Basis()), depth, {i})
    {
      ghost var m := Now();
      var value := GetVar(i, depth, g);
      if value.Err? {
        if g.right {
          ReadStopsFollow(m, old(Sure(g)), old(Basis()), depth, {i}, i);
        }
        return Err(value.error);
      }
      if value.value.None? {
        return Ok({});
      }
      var w := value.value.value;
      assert Refs(OrEmpty(expandCache[i].value)) == Refs(w);
      ghost var here, basis, sure := Here(), Basis(), Sure(g);
      var e := ExpandWithRefs(w, Some(i), depth, g);
      if e.Err? {
        if g.right {
          AgainStopsFollow(m, old(Sure(g)), old(Basis()), sure, basis, depth, i, w);
        }
        return Err(e.error);
      }
      MovedOn(m, due, g, old(Here()), here, Here());
      if g.right {
        AllLeftUndefined(m, basis, Basis(), i, w, e.value);
        StillReads(m, basis, Basis(), i, Some(w));
        AgainInvolves(m, Basis(), i, w, e.value);
      }
      r := Ok(e.value.refs);
    }

    /** The names that the expanded values of the given names still refer to. */
    method LeftReferences(names: set<string>, depth: nat, ghost undefined: bool, ghost g: Guide)
      returns (r: Result<set<string>, Error>)
      requires Valid() && Ready() && Fits(g) && (g.names.Some? ==> names <= g.names.value)
      requires undefined && g.right ==> AllUndefined(Now(), Basis(), names)
      modifies this`expandCache, this`overrides, this`inOverride
      ensures SameContents()
      ensures r.Ok? ==> After(g)
      ensures r.Ok? && g.right ==>
                AllUndefined(Now(), Basis(), r.value) && AllLeft(Now(), Basis(), names, r.value)
      ensures r.Ok? && g.names.Some? ==> r.value <= g.names.value
      ensures r.Ok? && g.right && undefined ==> r.value == {}
      ensures r.Err? && g.right ==> FollowStops(Now(), old(Sure(g)), old(Basis()), depth, names)
    {
      ghost var m := Now();
      var next: set<string> := {};
      var todo := names;
      while todo != {}
        invariant Valid() && After(g) && Now() == m
        invariant todo <= names
        invariant g.right ==> AllUndefined(m, Basis(), next) && AllLeft(m, Basis(), names, next)
        invariant g.names.Some? ==> next <= g.names.value
        decreases todo
      {
        var i :| i in todo;
        todo := todo - {i};
        ghost var here, basis, sure := Here(), Basis(), Sure(g);
        var left := LeftOne(i, depth, g);
        if left.Err? {
          if g.right {
            FollowStopsBefore(m, old(Sure(g)), old(Basis()), sure, basis, depth, names, {i});
          }
          return Err(left.error);
        }
        MovedOn(m, due, g, old(Here()), here, Here());
        if g.right {
          MoreLeft(m, basis, Basis(), names, next, i, left.value);
        }
        next := next + left.value;
      }
      if g.right && undefined {
        NothingLeft(m, old(Basis()), Basis(), names, next);
      }
      r := Ok(next);
    }

    /** What is known when the references of value are about to be followed. Under a computed list
        the names to be read are fixed; without one, names may be given that the value keeps to. */
    lemma GuideFor(value: Value, names: set<string>) returns (g: Guide)
      requires Valid() && Ready() && (overrides.None? ==> expandCache == map[])
      requires RefsIn(expandCache, expandCache.Keys)
      ensures Fits(g) && (g.right || g.names.Some?) && (g.names.Some? ==> Refs(value) <= g.names.value)
      ensures overrides.None? ==> g.right
      ensures g.linked ==> overrides.Some? && Coherent()
      ensures overrides.None? && Plain(Now(), names) && Refs(value) <= names ==> g.names == Some(names)
      ensures overrides.Some? && Coherent() ==>
                && g.right && g.linked && g.known == expandCache.Keys
                && g.names == Some(ReadThrough(Now(), overrides.value, g.known, g.known + Refs(value)))
    {
      var m, keys := Now(), expandCache.Keys;
      if overrides.None? {
        g := Guide(true, false, if Plain(m, names) && Refs(value) <= names then Some(names) else None, {});
      } else if Coherent() {
        ThroughClosed(m, overrides.value, keys, keys + Refs(value));
        g := Guide(true, true, Some(ReadThrough(m, overrides.value, keys, keys + Refs(value))), keys);
      } else {
        AllNamesClosed(m, overrides.value, keys + Refs(value), {});
        g := Guide(false, false, Some(AllNames(m, keys + Refs(value))), {});
      }
    }

    /** The names that value refers to, directly or through what its references expand to. */
    method TrackNames(name: string, value: Value, depth: nat, ghost g: Guide) returns (r: Result<(), Error>)
      requires Valid() && Ready() && Fits(g) && (g.right || g.names.Some?)
      requires g.names.Some? ==> Refs(value) <= g.names.value
      modifies this`expandCache, this`overrides, this`inOverride, this`overrideVars
      ensures SameContents()
      ensures r.Ok? ==> After(g) && old(overrideVars) + Refs(value) <= overrideVars
      ensures r.Ok? && g.linked ==> Refs(value) <= expandCache.Keys
      ensures r.Ok? && g.names.Some? ==> overrideVars <= old(overrideVars) + g.names.value
      ensures r.Ok? && g.right ==> AllUndefined(Now(), Basis(), overrideVars - old(overrideVars) - Refs(value))
      ensures Refs(value) == {} ==>
                && r.Ok? && expandCache == old(expandCache) && overrideVars == old(overrideVars)
                && overrides == old(overrides)
      ensures r.Err? && g.right ==> TrackStops(Now(), old(Sure(g)), old(Basis()), depth, name, value)
    {
      ghost var m := Now();
      var e := ExpandWithRefs(value, Some(name), depth, g);
      if e.Err? { return Err(e.error); }
      ghost var here, basis, sure := Here(), Basis(), Sure(g);
      r := FollowReferences(e.value.refs, depth, g);
      if r.Err? {
        if g.right {
          FollowStopsTrack(m, old(Sure(g)), old(Basis()), sure, basis, depth, name, value, e.value);
        }
        return;
      }
      MovedOn(m, due, g, old(Here()), here, Here());
      if g.right {
        AddedUndefined(m, basis, Some(name), value, e.value);
        StillUndefined(m, basis, Basis(), e.value.refs - Refs(value));
      }
    }

    /** Track the names that value refers to. */
    method TrackValue(name: string, value: Value, depth: nat, ghost names: set<string>) returns (r: Result<(), Error>)
      requires Valid() && Ready() && !inOverride && (overrides.None? ==> expandCache == map[])
      requires RefsIn(expandCache, expandCache.Keys)
      modifies this`expandCache, this`overrides, this`inOverride, this`overrideVars
      ensures SameContents()
      ensures r.Ok? ==> Ready() && !inOverride && Moved(Now(), due, ANY, old(Here()), Here())
      ensures r.Ok? && due.None? && old(overrides).None? && overrides.Some? ==> Reached(Now(), overrides.value)
      ensures r.Ok? ==> old(overrideVars) + Refs(value) <= overrideVars
      ensures r.Ok? && old(expandCache) == map[] ==>
                AddsOnly(Now(), old(overrideVars), Refs(value), names, overrideVars)
      ensures r.Ok? && old(overrides).None? ==> Coherent()
      ensures r.Ok? && old(overrides).Some? && old(Coherent()) ==>
                Extends(Now(), overrides.value, old(expandCache), expandCache, Refs(value))
      ensures Refs(value) == {} ==>
                && r.Ok? && expandCache == old(expandCache) && overrideVars == old(overrideVars)
                && overrides == old(overrides)
      ensures r.Err? && (old(overrides).None? || old(Coherent())) ==>
                TrackStops(Now(), old(overrides).Some?, old(Basis()), depth, name, value)
    {
      ghost var m, before := Now(), expandCache;
      ghost var g := GuideFor(value, names);
      r := TrackNames(name, value, depth, g);
      if r.Err? {
        if g.right && old(Sure(g)) {
          TrackStopsBefore(m, old(overrides).Some?, old(Basis()), depth, name, value);
        }
        return;
      }
      if g.right {
        StillUndefined(m, Basis(), Some(OneOf(Basis())), overrideVars - old(overrideVars) - Refs(value));
      }
      if g.linked {
        assert Live(overrides.value);
        IsExtended(m, overrides.value, before, expandCache, Refs(value));
        if Plain(m, names) && Refs(value) <= names && before == map[] {
          assert before.Keys == {};
          ThroughPlain(m, overrides.value, Refs(value), names);
        }
      }
    }

    /** `_setvar_update_overridevars`: follow the references of value, then drop the list. */
    method TrackReferences(name: string, value: Value, depth: nat, ghost names: set<string>)
      returns (r: Result<(), Error>)
      requires Valid() && Ready() && !inOverride && due.None? && (overrides.None? ==> expandCache == map[])
      requires RefsIn(expandCache, expandCache.Keys)
      modifies this`expandCache, this`overrides, this`due, this`inOverride, this`overrideVars
      ensures SameContents()
      ensures r.Ok? ==> Ready() && !inOverride && overrides.None?
      ensures r.Ok? ==> Tracked(Now(), old(overrides), old(expandCache), Refs(value), due, expandCache)
      ensures r.Ok? ==> old(overrideVars) + Refs(value) <= overrideVars
      ensures r.Ok? && old(expandCache) == map[] ==>
                AddsOnly(Now(), old(overrideVars), Refs(value), names, overrideVars)
      ensures Refs(value) == {} ==> r.Ok? && expandCache == old(expandCache) && overrideVars == old(overrideVars)
      ensures r.Err? && (old(overrides).None? || old(Coherent())) ==>
                TrackStops(Now(), old(overrides).Some?, old(overrides), depth, name, value)
    {
      ghost var m, before := Now(), overrides;
      r := TrackValue(name, value, depth, names);
      if r.Err? { return; }
      if before.None? && overrides.Some? {
        assert Under(overrides, overrides.value);
        RightListIsCached(m, overrides.value, expandCache);
      }
      DropList(before.None?);
    }

    /** `internal_finalize`: drop the list. If there was none before, computing it again will give it. */
    method DropList(ghost due: bool)
      requires Valid() && Ready() && this.due.None?
      requires due && overrides.Some? ==> CachedList(expandCache, overrides.value)
      modifies this`overrides, this`due
      ensures SameContents() && overrides.None?
      ensures this.due == if due then old(overrides) else None
      ensures due && old(Coherent()) ==> Coherent()
    {
      this.due, overrides := if due then overrides else None, None;
    }

    // ---------------------------------------------------------------- assignment

    /** What tracking adds when a name that OVERRIDES depends on is written. */
    ghost predicate Tracks(name: string, value: Value, before: set<string>)
      reads this`overrideVars
    {
      before <= overrideVars && (name in before ==> Refs(value) <= overrideVars)
    }

    /** `_makeShadowCopy`: give this layer its own flags of name. */
    method ShadowCopy(name: string)
      requires Valid() && expandCache == map[]
      modifies this`expandCache, dict
      ensures Valid() && name in dict.vars && dict.vars[name] == EntryOf(old(Now()), name)
      ensures Now() == old(Now()).(vars := old(Now()).vars[name := EntryOf(old(Now()), name)])
      ensures expandCache == map[]
    {
      var made := dict.ShadowCopy(name);
      if made {
        expandCache := map[];
      }
    }

    /** The part of a non-parsing assignment that removes the active variants. */
    method DropActive(name: string, depth: nat, ghost names: set<string>)
      returns (r: Result<(), Error>, ghost active: seq<string>)
      requires Valid() && !inOverride && expandCache == map[] && due.None? && name in recorded
      modifies this`expandCache, this`overrides, this`due, this`inOverride, this`overrideData, this`recorded, dict
      ensures r.Ok? ==> Valid() && !inOverride && overrides == Some(active) && due.None?
      ensures r.Ok? ==> Now() == WithoutActive(old(Now()), name, active) && old(dict.vars).Keys <= dict.vars.Keys
      ensures r.Ok? && old(overrides).Some? ==> overrides == old(overrides)
      ensures r.Ok? && old(overrides).None? ==> FixedPoint(old(Now()), active)
      ensures r.Ok? ==> LeftBy(old(Now()), name, false, old(overrides), active, expandCache)
      ensures old(Plain(Now(), names)) && "OVERRIDES" in names ==> r != Err(UnstableOverrides)
      ensures r.Err? ==> old(overrides).None? && ListStops(old(Now()), depth)
    {
      active := [];
      ghost var m, before := Now(), overrides;
      r := ListForSet(depth, names);
      if r.Err? { return; }
      active := overrides.value;
      var gone := CollectActiveNames(name);
      DropNames(name, gone);
    }

    /** The list that tells which variants are active. */
    method ListForSet(depth: nat, ghost names: set<string>) returns (r: Result<(), Error>)
      requires Valid() && !inOverride && expandCache == map[] && due.None?
      modifies this`expandCache, this`overrides, this`inOverride
      ensures SameContents()
      ensures r.Ok? ==> !inOverride && overrides.Some? && (old(overrides).Some? ==> overrides == old(overrides))
      ensures r.Ok? && old(overrides).None? ==> FixedPoint(Now(), overrides.value)
      ensures r.Ok? ==> if old(overrides).Some? then expandCache == map[]
                        else Extends(Now(), overrides.value, map[], expandCache, {"OVERRIDES"})
      ensures Plain(Now(), names) && "OVERRIDES" in names ==> r != Err(UnstableOverrides)
      ensures r.Err? ==> old(overrides).None? && ListStops(Now(), depth)
    {
      ghost var steady := overrides.None? && "OVERRIDES" in names && Plain(Now(), names);
      ghost var g := Guide(true, false, if steady then Some(names) else None, {});
      r := NeedOverrides(depth, g);
    }

    /** Delete the variables in names, then the record of the variants of name. */
    method DropNames(name: string, names: seq<string>)
      requires Valid() && due.None? && name in recorded && overrides.Some?
      requires names == ActiveNames(recorded[name], overrides.value)
      modifies this`expandCache, this`due, this`overrideData, this`recorded, dict
      ensures Valid() && due.None? && Now() == WithoutActive(old(Now()), name, overrides.value)
      ensures expandCache == if names == [] then old(expandCache) else map[]
      ensures old(dict.vars).Keys <= dict.vars.Keys
    {
      DeleteAll(names);
      DropRecord(name);
    }

    method DropRecord(name: string)
      requires Valid()
      modifies this`overrideData, this`recorded
      ensures Valid() && Now() == old(Now()).(variants := old(recorded) - {name})
    {
      overrideData, recorded := overrideData - {name}, recorded - {name};
    }

    /** The names of the active variants of name. */
    method CollectActiveNames(name: string) returns (names: seq<string>)
      requires overrides.Some? && Tied() && name in recorded
      ensures names == ActiveNames(recorded[name], overrides.value)
    {
      var variants := overrideData[name].items;
      names := [];
      for i := 0 to |variants|
        invariant names == ActiveNames(variants[..i], overrides.value)
      {
        assert variants[..i + 1][..i] == variants[..i];
        if IsActive(variants[i].suffix, overrides.value) {
          names := names + [variants[i].name];
        }
      }
      assert variants[..|variants|] == variants;
    }

    method DeleteAll(names: seq<string>)
      requires Valid() && due.None?
      modifies this`expandCache, this`due, this`overrideData, this`recorded, dict
      ensures Valid() && due.None? && Now() == AllDeleted(old(Now()), names)
      ensures expandCache == if names == [] then old(expandCache) else map[]
      ensures old(dict.vars).Keys <= dict.vars.Keys
    {
      ghost var m := Now();
      for i := 0 to |names|
        invariant Valid() && due.None? && Now() == AllDeleted(m, names[..i])
        invariant expandCache == if i == 0 then old(expandCache) else map[]
        invariant old(dict.vars).Keys <= dict.vars.Keys
      {
        assert names[..i + 1][..i] == names[..i];
        DelVar(names[i]);
      }
      assert names[..|names|] == names;
    }

    /** `setVar` on an operation name. */
    method QueueOp(name: string, target: Target, value: Value, depth: nat, ghost names: set<string>)
      returns (r: Result<(), Error>)
      requires Valid() && !inOverride && expandCache == map[] && due.None?
      modifies this`expandCache, this`overrides, this`due, this`inOverride, this`overrideData, this`recorded,
        this`overrideVars, dict
      ensures r.Ok? ==> Valid() && Ready() && !inOverride && Now() == AfterOp(old(Now()), target, value)
      ensures r.Ok? ==> Leaves(Now(), target.base in old(overrideVars), old(overrides), map[], Refs(value),
                               overrides, due, expandCache)
      ensures r.Ok? ==> if target.base in old(overrideVars) then old(overrideVars) + Refs(value) <= overrideVars
                        else overrideVars == old(overrideVars)
      ensures r.Ok? ==> AddsOnly(Now(), old(overrideVars), Refs(value), names, overrideVars)
      ensures r.Ok? && Refs(value) == {} ==> overrideVars == old(overrideVars)
      ensures r.Err? ==>
                && target.base in old(overrideVars) && Refs(value) != {}
                && TrackStops(AfterOp(old(Now()), target, value), old(overrides).Some?, old(overrides), depth, name,
                              value)
    {
      AddQueued(target, value);
      AddsNothing(Now(), overrideVars, Refs(value), names);
      r := Ok(());
      if target.base in overrideVars {
        r := TrackReferences(name, value, depth, names);
      }
    }

    method AddQueued(target: Target, value: Value)
      requires Valid() && expandCache == map[]
      modifies this`expandCache, this`overrideData, this`recorded, dict
      ensures Valid() && expandCache == map[] && Now() == AfterOp(old(Now()), target, value)
    {
      dict.Queue(target.base, target.keyword, Op(value, target.cond));
      RecordKeeps(recorded, target.base);
      RecordVariants(target.base);
    }

    /** The assignment of the content itself, with the record of its variants. */
    method StoreContent(name: string, value: Value, depth: nat, ghost names: set<string>) returns (r: Result<(), Error>)
      requires Valid() && !inOverride && due.None? && (overrides.None? ==> expandCache == map[])
      requires name in dict.vars && RefsIn(expandCache, expandCache.Keys)
      modifies this`expandCache, this`overrides, this`due, this`inOverride, this`overrideData, this`recorded,
        this`overrideVars, dict
      ensures r.Ok? ==> Valid() && Ready() && !inOverride && Now() == Stored(old(Now()), name, value)
      ensures r.Ok? ==> Leaves(Now(), name in old(overrideVars), old(overrides), old(expandCache), Refs(value),
                               overrides, due, expandCache)
      ensures if name in old(overrideVars) then r.Ok? ==> old(overrideVars) + Refs(value) <= overrideVars
              else r.Ok? && overrideVars == old(overrideVars)
      ensures r.Ok? && old(expandCache) == map[] ==>
                AddsOnly(Now(), old(overrideVars), Refs(value), names, overrideVars)
      ensures Refs(value) == {} ==> r.Ok? && expandCache == old(expandCache) && overrideVars == old(overrideVars)
      ensures r.Err? && AgreesUnder(Stored(old(Now()), name, value), old(overrides), old(expandCache)) ==>
                TrackStops(Stored(old(Now()), name, value), old(overrides).Some?, old(overrides), depth, name, value)
    {
      PutContent(name, value);
      AddsNothing(Now(), overrideVars, Refs(value), names);
      r := Ok(());
      if name in overrideVars {
        r := TrackReferences(name, value, depth, names);
      }
    }

    method PutContent(name: string, value: Value)
      requires Valid() && name in dict.vars
      modifies this`overrideData, this`recorded, dict
      ensures Valid() && Now() == Stored(old(Now()), name, value)
    {
      assert dict.vars[name] == EntryOf(Now(), name) by { dict.InOwnLayer(name); }
      if ':' in name {
        RecordKeeps(recorded, name);
        RecordVariants(name);
      }
      dict.SetFlag(name, "_content", value);
    }

    /** Have flags of name in this layer, and take the queued operations out of them. */
    method ClearOps(name: string, parsing: bool)
      requires Valid() && expandCache == map[]
      modifies this`expandCache, dict
      ensures Valid() && expandCache == map[] && name in dict.vars && Now() == Cleared(old(Now()), name, parsing)
    {
      ShadowCopy(name);
      if !parsing {
        dict.DropOps(name);
      }
      assert dict.Flat() == Cleared(old(Now()), name, parsing).vars;
    }

    /** What an assignment takes away before it stores the new content. */
    method PrepareSet(name: string, parsing: bool, depth: nat, ghost names: set<string>)
      returns (r: Result<(), Error>, ghost active: seq<string>)
      requires Valid() && !inOverride && expandCache == map[] && due.None?
      modifies this`expandCache, this`overrides, this`due, this`inOverride, this`overrideData, this`recorded, dict
      ensures r.Ok? ==> Valid() && !inOverride && name in dict.vars && due.None?
      ensures r.Ok? ==> Now() == var c := Cleared(old(Now()), name, parsing);
                                 if parsing then c else WithoutActive(c, name, active)
      ensures r.Ok? ==> overrides == if parsing || name !in old(recorded) then old(overrides) else Some(active)
      ensures r.Ok? ==> LeftBy(Cleared(old(Now()), name, parsing), name, parsing, old(overrides), active, expandCache)
      ensures r.Ok? && !parsing && name in old(recorded) ==>
                if old(overrides).Some? then overrides == old(overrides)
                else FixedPoint(Cleared(old(Now()), name, parsing), active)
      ensures old(Plain(Now(), names)) && "OVERRIDES" in names ==> r != Err(UnstableOverrides)
      ensures r.Err? ==> DropStops(old(Now()), name, parsing, old(overrides), depth)
    {
      active := [];
      ghost var m := Now();
      ClearOps(name, parsing);
      if Plain(m, names) {
        ClearedSteady(m, name, parsing, names);
      }
      r := Ok(());
      if !parsing && name in overrideData {
        r, active := DropActive(name, depth, names);
      }
    }

    /** `setVar` on a name that queues no operation. filled is the cache that computing the list
        left, and list the list in force when the content was stored. */
    method SetPlain(name: string, value: Value, parsing: bool, depth: nat, ghost names: set<string>)
      returns (r: Result<(), Error>, ghost active: seq<string>, ghost filled: Cache)
      requires Valid() && !inOverride && expandCache == map[] && due.None?
      modifies this`expandCache, this`overrides, this`due, this`inOverride, this`overrideData, this`recorded,
        this`overrideVars, dict
      ensures r.Ok? ==> Valid() && Ready() && !inOverride && Now() == AfterSet(old(Now()), name, value, parsing, active)
      ensures r.Ok? ==> Tracks(name, value, old(overrideVars))
      ensures r.Ok? && FindKeyword(name, 0).None? ==> ActiveList(old(Now()), name, parsing, old(overrides), active)
      ensures r.Ok? ==> LeftBy(Cleared(old(Now()), name, parsing), name, parsing, old(overrides), active, filled)
      ensures r.Ok? ==> Leaves(Now(), name in old(overrideVars),
                               if parsing || name !in old(recorded) then old(overrides) else Some(active),
                               filled, Refs(value), overrides, due, expandCache)
      ensures old(SteadyStore() && name !in overrideVars) && names == old(overrideVars) ==> r != Err(UnstableOverrides)
      ensures r.Ok? && (name !in old(overrideVars) || Refs(value) == {}) ==> overrideVars == old(overrideVars)
      ensures r.Ok? && filled == map[] ==> AddsOnly(Now(), old(overrideVars), Refs(value), names, overrideVars)
      ensures r.Err? && FindKeyword(name, 0).None? ==>
                || DropStops(old(Now()), name, parsing, old(overrides), depth)
                || (name in old(overrideVars) && Refs(value) != {}
                    && ActiveList(old(Now()), name, parsing, old(overrides), active)
                    && FollowingStops(old(Now()), name, value, parsing, old(overrides), active, depth))
    {
      ghost var m := Now();
      r, active := PrepareSet(name, parsing, depth, names);
      filled := expandCache;
      if r.Err? { return; }
      LeftRefsIn(Cleared(m, name, parsing), name, parsing, old(overrides), active, expandCache);
      ghost var list := overrides;
      r := StoreContent(name, value, depth, names);
      if r.Err? && FindKeyword(name, 0).None? {
        StoreStops(m, name, value, parsing, old(overrides), active, list, filled, depth);
      }
    }

    lemma StoreStops(m: View, name: string, value: Value, parsing: bool, before: Option<seq<string>>,
                     active: seq<string>, list: Option<seq<string>>, filled: Cache, depth: nat)
      requires FindKeyword(name, 0).None? && LongerNames(m.variants) && Refs(value) != {}
      requires list == ListAt(m, name, parsing, before, active)
      requires LeftBy(Cleared(m, name, parsing), name, parsing, before, active, filled)
      requires list.None? ==> filled == map[]
      requires AgreesUnder(AfterSet(m, name, value, parsing, active), list, filled) ==>
                 TrackStops(AfterSet(m, name, value, parsing, active), list.Some?, list, depth, name, value)
      ensures FollowingStops(m, name, value, parsing, before, active, depth)
    {
      var c, m' := Cleared(m, name, parsing), AfterSet(m, name, value, parsing, active);
      if list.Some? && ReadAlike(c, active, m', list.value, Kept(c, name, parsing, before, active)) {
        RightIfKeptAlike(c, name, parsing, before, active, filled, m', list.value);
      }
    }

    /** `setVar` */
    method SetVar(name: string, value: Value, parsing: bool, depth: nat, ghost names: set<string>)
      returns (r: Result<(), Error>, ghost active: seq<string>, ghost filled: Cache)
      requires Valid() && !inOverride
      modifies this`expandCache, this`overrides, this`due, this`inOverride, this`overrideData, this`recorded,
        this`overrideVars, dict
      ensures IsOldSyntax(name) ==> r == Err(OldSyntax(name)) && Now() == old(Now())
      ensures r.Ok? ==> Valid() && Ready() && !inOverride
      ensures r.Ok? ==> Now() == AfterSetVar(old(Now()), name, value, parsing, active)
      ensures r.Ok? ==> Tracks(Written(name), value, old(overrideVars))
      ensures r.Ok? ==> ActiveList(old(Now()), name, parsing, old(overrides), active)
      ensures r.Ok? ==> Emptied(old(Now()), name, parsing, old(overrides), active, filled)
      ensures r.Ok? ==> Leaves(Now(), Written(name) in old(overrideVars),
                               ListAt(old(Now()), name, parsing, old(overrides), active),
                               filled, Refs(value), overrides, due, expandCache)
      ensures r.Ok? && (Written(name) !in old(overrideVars) || Refs(value) == {}) ==> overrideVars == old(overrideVars)
      ensures r.Ok? && filled == map[] ==> AddsOnly(Now(), old(overrideVars), Refs(value), names, overrideVars)
      ensures r.Err? ==>
                SetStops(old(Now()), name, value, parsing, old(overrides), active, old(overrideVars), depth)
    {
      active, filled := [], map[];
      if IsOldSyntax(name) {
        return Err(OldSyntax(name)), active, filled;
      }
      EmptyCache();
      var target := FindKeyword(name, 0);
      if target.Some? {
        r := QueueOp(name, target.value, value, depth, names);
        return;
      }
      r, active, filled := SetPlain(name, value, parsing, depth, names);
    }

    /** `setVarFlag`. Storing the content this way neither records nor tracks it. */
    method SetVarFlag(name: string, flag: string, value: Value, depth: nat, ghost names: set<string>)
      returns (r: Result<(), Error>)
      requires Valid() && !inOverride && IsTextFlag(flag)
      modifies this`expandCache, this`overrides, this`due, this`inOverride, this`overrideData, this`recorded,
        this`overrideVars, dict
      ensures r.Ok? ==> Valid() && Ready() && !inOverride && Now() == AfterFlag(old(Now()), name, flag, value)
      ensures r.Ok? && flag == "_defaultval" ==> Tracks(name, value, old(overrideVars))
      ensures r.Ok? ==> Leaves(Now(), flag == "_defaultval" && name in old(overrideVars), old(overrides), map[],
                               Refs(value), overrides, due, expandCache)
      ensures r.Ok? && (flag != "_defaultval" || name !in old(overrideVars)) ==> overrideVars == old(overrideVars)
      ensures r.Ok? ==> AddsOnly(Now(), old(overrideVars), Refs(value), names, overrideVars)
      ensures r.Err? ==> FlagStops(old(Now()), name, flag, value, old(overrides), old(overrideVars), depth)
    {
      EmptyCache();
      PutFlag(name, flag, value);
      AddsNothing(Now(), overrideVars, Refs(value), names);
      r := Ok(());
      if flag == "_defaultval" && name in overrideVars {
        r := TrackReferences(name, value, depth, names);
      }
    }

    method PutFlag(name: string, flag: string, value: Value)
      requires Valid() && expandCache == map[]
      modifies this`expandCache, this`overrideData, this`recorded, dict
      ensures Valid() && expandCache == map[] && Now() == AfterFlag(old(Now()), name, flag, value)
    {
      PutFlagEntry(name, flag, value);
      if flag == "_defaultval" && ':' in name {
        RecordKeeps(recorded, name);
        RecordVariants(name);
      }
    }

    method PutFlagEntry(name: string, flag: string, value: Value)
      requires Valid() && expandCache == map[]
      modifies this`expandCache, dict
      ensures Valid() && expandCache == map[]
      ensures Now() == old(Now()).(vars := AfterFlag(old(Now()), name, flag, value).vars)
    {
      ShadowCopy(name);
      dict.SetFlag(name, flag, value);
      assert dict.Flat() == AfterFlag(old(Now()), name, flag, value).vars;
    }

    /** `getVarFlag` without expansion, on flags other than the content. */
    method GetVarFlag(name: string, flag: string) returns (value: Option<Value>)
      requires Valid() && IsTextFlag(flag) && flag != "_content"
      ensures value == var e := EntryOf(Now(), name);
                       if flag == "_defaultval" then e.weak
                       else if flag in e.flags then Some(e.flags[flag]) else None
    {
      var e := LookUp(name);
      value := if flag == "_defaultval" then e.weak else if flag in e.flags then Some(e.flags[flag]) else None;
    }

    // ---------------------------------------------------------------- layers

    /** `createCopy`: a new layer on top of this store's layers, with the same list objects. */
    method CreateCopy() returns (copy: DataSmart)
      requires Valid()
      ensures fresh(copy) && fresh(copy.dict) && copy.dict.parent == dict
      ensures copy.Valid() && copy.Ready() && !copy.inOverride && copy.overrides.None? && copy.due.None?
      ensures copy.overrideVars == overrideVars && copy.overrideData == overrideData
      ensures copy.Now() == Now() && copy.expandCache == map[] && copy.Coherent()
    {
      copy := new DataSmart(dict);
      assert copy.dict.Flat() == dict.Flat() + map[];
      assert copy.dict.Flat() == dict.Flat();
      copy.ShareRecords(overrideData, overrideVars, recorded);
    }

    /** Take over the lists of variants and the tracked names of another store. */
    method ShareRecords(data: map<string, VariantList>, vars: set<string>, ghost known: VariantMap)
      requires dict.Valid() && dict.AllTied() && LongerNames(known) && expandCache == map[] && data.Keys == known.Keys
      requires forall k | k in data :: data[k].items == known[k]
      modifies this`overrideVars, this`overrideData, this`recorded
      ensures Valid() && Coherent() && Now() == View(dict.Flat(), known)
      ensures overrideVars == vars && overrideData == data
    {
      overrideVars, overrideData, recorded := vars, data, known;
    }

    /** The names that have an active variant. */
    method Overridden() returns (names: set<string>)
      requires overrides.Some? && Tied()
      ensures forall k :: k in names <==> k in recorded && AnyActive(recorded[k], overrides.value)
    {
      names := {};
      var todo := overrideData.Keys;
      while todo != {}
        invariant todo <= recorded.Keys
        invariant forall k :: k in names <==>
                    k in recorded && k !in todo && AnyActive(recorded[k], overrides.value)
        decreases todo
      {
        var k :| k in todo;
        todo := todo - {k};
        var variants := overrideData[k].items;
        for i := 0 to |variants|
          invariant forall x :: x in names <==>
                      || (x in recorded && x !in todo && x != k && AnyActive(recorded[x], overrides.value))
                      || (x == k && AnyActive(variants[..i], overrides.value))
        {
          assert forall v :: v in variants[..i + 1] <==> v in variants[..i] || v == variants[i];
          assert variants[i] in variants[..i + 1];
          if IsActive(variants[i].suffix, overrides.value) {
            names := names + {k};
          }
        }
        assert variants[..|variants|] == variants;
      }
    }

    /** The names below layer d that are not passed over: each name counts where it is met first. */
    method KeyList(d: Layer, passed: set<string>) returns (names: set<string>)
      requires d.Valid() && d.AllTied()
      ensures forall k :: k in names <==> k in d.Flat() && d.Flat()[k] != NO_ENTRY && k !in passed
      decreases d.chain
    {
      var own: set<string> := {};
      var deleted := passed;
      assert d.Tied();
      var todo := d.flags.Keys;
      while todo != {}
        invariant todo <= d.flags.Keys
        invariant forall k :: k in own <==> k in d.vars && k !in todo && k !in passed && d.vars[k] != NO_ENTRY
        invariant forall k :: k in deleted <==>
                    k in passed || (k in d.vars && k !in todo && d.vars[k] == NO_ENTRY)
        decreases todo
      {
        var k :| k in todo;
        todo := todo - {k};
        assert SaysWithin(d.flags[k], d.vars[k], d.held);
        if k !in deleted {
          if d.flags[k] == NO_FLAGS {
            deleted := deleted + {k};
          } else {
            own := own + {k};
          }
        }
      }
      names := own;
      if d.parent != null {
        var below := KeyList(d.parent, deleted);
        names := own + below;
      }
    }

    /** `__iter__`: every name once. */
    method Iterate(depth: nat, ghost g: Guide) returns (r: Result<seq<string>, Error>)
      requires Valid() && Ready() && Fits(g) && g.names.None?
      modifies this`expandCache, this`overrides, this`inOverride
      ensures SameContents()
      ensures r.Ok? ==> overrides.Some? && After(g)
      ensures r.Err? && g.right ==> KeepsChanging(Now()) || !ListReads(Now(), depth)
      ensures r.Ok? ==> (forall i, j | 0 <= i < j < |r.value| :: r.value[i] != r.value[j])
      ensures r.Ok? ==> forall k :: k in r.value <==>
                || EntryOf(Now(), k) != NO_ENTRY
                || (k in recorded && AnyActive(recorded[k], overrides.value))
    {
      var needed := NeedOverrides(depth, g);
      if needed.Err? { return Err(needed.error); }
      var overridden := Overridden();
      var names := KeyList(dict, overridden);
      var keys := [];
      var todo := names;
      while todo != {}
        invariant forall k :: k in keys <==> k in names && k !in todo
        invariant todo <= names
        invariant forall i, j | 0 <= i < j < |keys| :: keys[i] != keys[j]
        decreases todo
      {
        var k :| k in todo;
        todo := todo - {k};
        keys := keys + [k];
      }
      todo := overridden;
      while todo != {}
        invariant forall k :: k in keys <==> k in names || (k in overridden && k !in todo)
        invariant todo <= overridden
        invariant forall i, j | 0 <= i < j < |keys| :: keys[i] != keys[j]
        decreases todo
      {
        var k :| k in todo;
        todo := todo - {k};
        keys := keys + [k];
      }
      r := Ok(keys);
    }
  }
}
