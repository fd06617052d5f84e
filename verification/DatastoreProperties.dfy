/** What follows for users of `DataSmart`: cached reads agree with fresh ones, and
    reads of variables without cycles succeed. */
module DatastoreProperties {
  import opened Wrappers
  import opened Store
  import opened Updates
  import opened Steady
  import opened ReadGraph
  import opened OverrideLists
  import opened CacheContents
  import opened LiveReads
  import opened SteadyCaches
  import opened Failures
  import opened Datastore

  /** In a steady store the fixed point is one list, whatever list is tried. */
  lemma SteadyFixedPointIsUnique(m: View, ov: seq<string>, ov': seq<string>, names: set<string>)
    requires Plain(m, names) && "OVERRIDES" in names
    requires FixedPoint(m, ov) && FixedPoint(m, ov')
    ensures ov == ov'
  {
    SteadyList(m, m, ov, ov', ov, names);
    ListIsOne(m, ov', ov, ov');
  }

  // ---------------------------------------------------------------- what a copy reads

  /** The rounds from no list on reach one list at most. */
  lemma ReachedIsOne(m: View, list: seq<string>, list': seq<string>)
    requires Reached(m, list) && Reached(m, list')
    ensures list == list'
  {
    var a :| ListChain(m, a) && a[|a| - 1] == list && ListUnder(m, list, list);
    var b :| ListChain(m, b) && b[|b| - 1] == list' && ListUnder(m, list', list');
    if |a| <= |b| {
      SettledEndsChain(m, a, b);
    } else {
      SettledEndsChain(m, b, a);
    }
  }

  /** A chain does not go on from a list that OVERRIDES gives again. */
  lemma SettledEndsChain(m: View, a: seq<seq<string>>, b: seq<seq<string>>)
    requires ListChain(m, a) && ListChain(m, b) && |a| <= |b|
    requires ListUnder(m, a[|a| - 1], a[|a| - 1])
    ensures |a| == |b| && a[|a| - 1] == b[|b| - 1]
  {
    var last := |a| - 1;
    ChainIsOne(m, a, b, last);
    if |a| < |b| {
      ListIsOne(m, a[last], a[last], b[last + 1]);
    }
  }

  lemma {:induction false} ChainIsOne(m: View, a: seq<seq<string>>, b: seq<seq<string>>, i: nat)
    requires ListChain(m, a) && ListChain(m, b) && i < |a| && i < |b|
    ensures a[i] == b[i]
  {
    if i == 0 {
      ListIsOne(m, [], a[0], b[0]);
    } else {
      ChainIsOne(m, a, b, i - 1);
      ListIsOne(m, a[i - 1], a[i], b[i]);
    }
  }

  /** v is what k has under the list that a copy computes, or under every list. */
  ghost predicate Recomputed(m: View, k: string, v: Option<Value>) {
    exists list: Option<seq<string>> :: (list.Some? ==> Reached(m, list.value)) && AllReadValue(m, list, k, v)
  }

  /** Read k on a copy: from the layers alone, with an empty cache and a list of its own. */
  method Recompute(d: DataSmart, k: string, depth: nat) returns (r: Result<Option<Value>, Error>)
    requires d.Valid()
    ensures r.Ok? ==> Recomputed(d.Now(), k, r.value)
    ensures r.Err? ==> ReadStops(d.Now(), false, None, depth, k, true)
  {
    var copy := d.CreateCopy();
    r := copy.GetVar(k, depth, RIGHT);
    assert r.Ok? ==> AllReadValue(copy.Now(), copy.overrides, k, r.value);
  }

  /** Every cached value is what reading its name under the list that a copy computes gives. */
  ghost predicate FreshFor(m: View, cache: Cache) {
    forall list | Reached(m, list) :: CacheAgrees(m, list, cache)
  }

  /** Read a cached variable on a copy as well. Where a list can be computed, the copy gives the cached
      value if and only if that is the value of the variable under this list. */
  method CompareWithCopy(d: DataSmart, k: string, depth: nat) returns (r: Result<Option<Value>, Error>)
    requires d.Valid() && k in d.expandCache
    ensures r.Ok? ==> forall list | Reached(d.Now(), list) ::
              r.value == d.expandCache[k].value <==> ReadsValue(d.Now(), list, k, d.expandCache[k].value)
    ensures r.Ok? && FreshFor(d.Now(), d.expandCache) && (exists list :: Reached(d.Now(), list)) ==>
              r.value == d.expandCache[k].value
    ensures r.Err? ==> ReadStops(d.Now(), false, None, depth, k, true)
  {
    r := Recompute(d, k, depth);
    if r.Ok? {
      forall list | Reached(d.Now(), list) ensures ReadsValue(d.Now(), list, k, r.value) {
        RecomputedUnder(d.Now(), k, r.value, list);
      }
      forall list | Reached(d.Now(), list)
        ensures r.value == d.expandCache[k].value <==> ReadsValue(d.Now(), list, k, d.expandCache[k].value)
      {
        if ReadsValue(d.Now(), list, k, d.expandCache[k].value) {
          ValueIsOne(d.Now(), list, k, r.value, d.expandCache[k].value);
        }
      }
    }
  }

  lemma RecomputedUnder(m: View, k: string, v: Option<Value>, list: seq<string>)
    requires Recomputed(m, k, v) && Reached(m, list)
    ensures ReadsValue(m, list, k, v)
  {
    var own: Option<seq<string>> :| (own.Some? ==> Reached(m, own.value)) && AllReadValue(m, own, k, v);
    if own.Some? {
      ReachedIsOne(m, own.value, list);
    }
    assert Under(own, list);
  }

  // ---------------------------------------------------------------- reads through the cache

  lemma SameList(m: View, k: string, a: Option<seq<string>>, b: Option<seq<string>>, names: set<string>,
                 v: Option<Value>, w: Option<Value>)
    requires Plain(m, names) && "OVERRIDES" in names
    requires (a.Some? ==> FixedPoint(m, a.value)) && (b.Some? ==> FixedPoint(m, b.value))
    requires AllReadValue(m, a, k, v) && AllReadValue(m, b, k, w)
    ensures v == w
  {
    if a.Some? && b.Some? {
      SteadyFixedPointIsUnique(m, a.value, b.value, names);
    }
    var ov := if a.Some? then a.value else if b.Some? then b.value else [];
    assert Under(a, ov) && Under(b, ov);
    ValueIsOne(m, ov, k, v, w);
  }

  /** A read through the cache of a steady store gives what recomputing it gives. */
  method CachedReadIsFreshRead(d: DataSmart, k: string, depth: nat)
    returns (cached: Result<Option<Value>, Error>, recomputed: Result<Option<Value>, Error>)
    requires d.Valid() && d.Ready() && !d.inOverride && d.Coherent() && d.Settled() && d.SteadyStore()
    modifies d`expandCache, d`overrides, d`inOverride
    ensures cached.Ok? && recomputed.Ok? ==> cached == recomputed
  {
    ghost var m := d.Now();
    if d.overrides.None? && d.due.Some? {
      assert d.Live(d.due.value);
      CachedListIsFixed(m, d.due.value, d.expandCache);
    }
    recomputed := Recompute(d, k, depth);
    cached := d.GetVar(k, depth, RIGHT);
    if cached.Ok? && recomputed.Ok? {
      ghost var basis := d.Basis();
      forall ov | Under(basis, ov) ensures ReadsValue(m, ov, k, cached.value) {
        assert d.Live(ov);
      }
      assert basis.Some? ==> FixedPoint(m, basis.value);
      ghost var list: Option<seq<string>> :|
        (list.Some? ==> Reached(m, list.value)) && AllReadValue(m, list, k, recomputed.value);
      SameList(m, k, basis, list, d.overrideVars, cached.value, recomputed.value);
    }
  }

  /** Without removals, at a depth beyond the number of names there are: the read works exactly if no
      chain of reads from k comes back to a name. */
  lemma WorksIffAcyclic(m: View, ov: seq<string>, k: string, depth: nat)
    requires NoRemoves(m) && LongerNames(m.variants) && depth > |Readables(m)|
    ensures Eval(m, ov, depth, k, true).Some? <==> !Cyclic(m, ov, k)
    ensures Cyclic(m, ov, k) ==> forall v :: !ReadsValue(m, ov, k, v)
  {
    ReadsIffAcyclic(m, ov, k, true);
    var r := Eval(m, ov, depth, k, true);
    if r.Some? {
      assert Reads(m, ov, k, true, r.value);
    }
  }

  /** Under a computed list a variable is read successfully, at that depth, if and only if no chain of
      reads from it comes back to a name. */
  method ReadSucceeds(d: DataSmart, k: string, depth: nat) returns (r: Result<Option<Value>, Error>)
    requires d.Valid() && d.Ready() && d.Coherent() && d.overrides.Some?
    requires NoRemoves(d.Now()) && depth > |Readables(d.Now())|
    modifies d`expandCache, d`overrides, d`inOverride
    ensures r.Ok? <==> !Cyclic(old(d.Now()), old(d.overrides).value, k)
  {
    ghost var m, ov := d.Now(), d.overrides.value;
    assert d.Live(ov);
    r := d.GetVar(k, depth, RIGHT);
    WorksIffAcyclic(m, ov, k, depth);
    assert r.Ok? ==> ReadsValue(m, ov, k, r.value) by {
      assert r.Ok? ==> d.Live(ov);
    }
  }
}
