/** What an assignment leaves in the expansion cache, and exactly when that is right.

    `setVar` empties the cache first. Two paths fill it again before the method
    ends: computing the override list, to find active variants, before the new
    content is stored; and expanding the new value, to track what OVERRIDES
    depends on, under a list that is dropped right after that. */
module AssignedCache {
  import opened Wrappers
  import opened Store
  import opened Updates
  import opened ReadGraph
  import opened CacheContents
  import opened OverrideLists

  /** The guard of the first path, when what it puts into the cache stays: no active variant is deleted. */
  ghost predicate Fills(c: View, name: string, parsing: bool, before: Option<seq<string>>, active: seq<string>) {
    !parsing && name in c.variants && before.None? && ActiveNames(c.variants[name], active) == []
  }

  /** The names that the first path leaves in the cache. */
  ghost function Kept(c: View, name: string, parsing: bool, before: Option<seq<string>>,
                      active: seq<string>): set<string>
    requires LongerNames(c.variants)
  {
    if Fills(c, name, parsing, before, active) then ReadThrough(c, active, {}, {"OVERRIDES"}) else {}
  }

  /** The cache when the content is stored; c are the contents before that. */
  ghost predicate LeftBy(c: View, name: string, parsing: bool, before: Option<seq<string>>, active: seq<string>,
                         cache: Cache)
    requires LongerNames(c.variants)
  {
    if Fills(c, name, parsing, before, active) then Extends(c, active, map[], cache, {"OVERRIDES"}) else cache == map[]
  }

  /** The list in force when an assignment stores the content. */
  ghost function ListAt(m: View, name: string, parsing: bool, before: Option<seq<string>>, active: seq<string>):
    Option<seq<string>>
  {
    if FindKeyword(name, 0).None? && !parsing && name in m.variants then Some(active) else before
  }

  /** What the cache, emptied at the start of `setVar`, holds when the content is stored. */
  ghost predicate Emptied(m: View, name: string, parsing: bool, before: Option<seq<string>>, active: seq<string>,
                          cache: Cache)
    requires LongerNames(m.variants)
  {
    if FindKeyword(name, 0).Some? then cache == map[]
    else LeftBy(Cleared(m, name, parsing), name, parsing, before, active, cache)
  }

  /** The names that computing the list leaves in the cache before the content is stored. */
  ghost function OnTheWay(m: View, name: string, parsing: bool, before: Option<seq<string>>,
                          active: seq<string>): set<string>
    requires LongerNames(m.variants)
  {
    if FindKeyword(name, 0).Some? then {} else Kept(Cleared(m, name, parsing), name, parsing, before, active)
  }

  /** What is known of the list in force, or computed, when active variants are deleted. */
  ghost predicate ActiveList(m: View, name: string, parsing: bool, before: Option<seq<string>>, active: seq<string>) {
    FindKeyword(name, 0).None? && !parsing && name in m.variants ==>
      if before.Some? then active == before.value else FixedPoint(Cleared(m, name, false), active)
  }

  lemma LeftRefsIn(c: View, name: string, parsing: bool, before: Option<seq<string>>, active: seq<string>, cache: Cache)
    requires LongerNames(c.variants) && LeftBy(c, name, parsing, before, active, cache)
    ensures RefsIn(cache, cache.Keys)
  {
    var none: Cache := map[];
    assert none.Keys == {};
    if Fills(c, name, parsing, before, active) {
      RightRefsIn(c, active, cache);
    }
  }

  /** The cache left is right for the store it was filled from; its names are known if nothing is removed. */
  lemma LeftExactly(c: View, name: string, parsing: bool, before: Option<seq<string>>, active: seq<string>,
                    cache: Cache)
    requires LongerNames(c.variants) && LeftBy(c, name, parsing, before, active, cache)
    ensures CacheAgrees(c, active, cache) && cache.Keys <= Kept(c, name, parsing, before, active)
    ensures NoRemoves(c) ==> cache.Keys == Kept(c, name, parsing, before, active)
  {
    var none: Cache := map[];
    assert none.Keys == {} && {} + {"OVERRIDES"} == {"OVERRIDES"};
    if Fills(c, name, parsing, before, active) && NoRemoves(c) {
      ExtendsExactly(c, active, map[], cache, {"OVERRIDES"});
    }
  }

  /** The names, where they can be read in the one store and list, have the same values in the other. */
  ghost predicate ReadAlike(m: View, ov: seq<string>, m': View, ov': seq<string>, names: set<string>) {
    forall k, v | k in names && ReadsValue(m, ov, k, v) :: ReadsValue(m', ov', k, v)
  }

  /** Where tracking starts from a cache that is right under the list it reads under. */
  ghost predicate OnRight(c: View, active: seq<string>, kept: set<string>, m': View, tracked: bool,
                          list: Option<seq<string>>, refs: set<string>)
  {
    list.Some? && tracked && refs != {} ==> ReadAlike(c, active, m', list.value, kept)
  }

  /** What an assignment cached has, in the new contents m' and under the list ov, the values that it
      had when it was cached. kept are the names cached on the first path, and all those cached in the
      end; list is the one in force when the content was stored, and due the one found while there was
      none; tracked says that the list is dropped in the end, and refs are what the new value refers to. */
  ghost predicate AlikeAt(c: View, active: seq<string>, kept: set<string>, m': View, tracked: bool,
                          list: Option<seq<string>>, due: Option<seq<string>>, refs: set<string>, all: set<string>,
                          ov: seq<string>)
  {
    if list.None? then tracked && due.Some? ==> ReadAlike(m', due.value, m', ov, all)
    else
      && ReadAlike(c, active, m', ov, kept) && OnRight(c, active, kept, m', tracked, list, refs)
      && (tracked && refs != {} ==> ReadAlike(m', list.value, m', ov, all))
  }

  /** What tracking makes of the cache. */
  ghost predicate TrackedFrom(m': View, list: seq<string>, filled: Cache, cache: Cache, refs: set<string>)
    requires LongerNames(m'.variants)
  {
    && Persists(filled, cache, RecordedNames(m')) && (refs == {} ==> cache == filled)
    && (CacheAgrees(m', list, filled) ==> Extends(m', list, filled, cache, refs))
  }

  /** What `_setvar_update_overridevars` leaves of a cache. Filled under no list, or under the one computed
      on the way, it is right, and that list is the one that the rounds reach. Under a list that was there
      before, it is extended by what is read. */
  ghost predicate Tracked(m': View, list: Option<seq<string>>, filled: Cache, refs: set<string>,
                          due: Option<seq<string>>, cache: Cache)
    requires LongerNames(m'.variants)
  {
    if list.None? then AgreesUnder(m', due, cache) && (due.Some? ==> Reached(m', due.value))
    else due.None? && TrackedFrom(m', list.value, filled, cache, refs)
  }

  /** What a write leaves of list and cache: what was there when the content was stored; or what tracking
      made of it, and then the list is dropped. */
  ghost predicate Leaves(m': View, tracked: bool, list: Option<seq<string>>, filled: Cache, refs: set<string>,
                         overrides: Option<seq<string>>, due: Option<seq<string>>, cache: Cache)
    requires LongerNames(m'.variants)
  {
    if tracked then overrides.None? && Tracked(m', list, filled, refs, due, cache)
    else overrides == list && due.None? && cache == filled
  }

  lemma AgreesIffAlike(m: View, ov: seq<string>, m': View, ov': seq<string>, cache: Cache)
    requires CacheAgrees(m, ov, cache)
    ensures CacheAgrees(m', ov', cache) <==> ReadAlike(m, ov, m', ov', cache.Keys)
  {
    if CacheAgrees(m', ov', cache) {
      forall k, v | k in cache && ReadsValue(m, ov, k, v) ensures ReadsValue(m', ov', k, v) {
        ValueIsOne(m, ov, k, v, cache[k].value);
      }
    }
  }

  lemma RightIfKeptAlike(c: View, name: string, parsing: bool, before: Option<seq<string>>, active: seq<string>,
                         cache: Cache, m': View, ov: seq<string>)
    requires LongerNames(c.variants) && LeftBy(c, name, parsing, before, active, cache)
    requires ReadAlike(c, active, m', ov, Kept(c, name, parsing, before, active))
    ensures CacheAgrees(m', ov, cache)
  {
    LeftExactly(c, name, parsing, before, active, cache);
    AgreesIffAlike(c, active, m', ov, cache);
  }

  /** The condition is enough under every list. */
  lemma RightIfAlike(c: View, active: seq<string>, m': View, list: seq<string>, filled: Cache, cache: Cache,
                     refs: set<string>, ov: seq<string>)
    requires LongerNames(m'.variants) && CacheAgrees(c, active, filled)
    requires TrackedFrom(m', list, filled, cache, refs)
    requires AlikeAt(c, active, filled.Keys, m', true, Some(list), None, refs, cache.Keys, ov)
    ensures CacheAgrees(m', ov, cache)
  {
    if refs == {} {
      AgreesIffAlike(c, active, m', ov, filled);
    } else {
      AgreesIffAlike(c, active, m', list, filled);
      AgreesIffAlike(m', list, m', ov, cache);
    }
  }

  /** And it is needed under every list, where tracking started from a right cache. */
  lemma AlikeIfRight(c: View, active: seq<string>, m': View, list: seq<string>, filled: Cache, cache: Cache,
                     refs: set<string>, ov: seq<string>)
    requires LongerNames(m'.variants) && CacheAgrees(c, active, filled)
    requires TrackedFrom(m', list, filled, cache, refs) && CacheAgrees(m', ov, cache)
    requires OnRight(c, active, filled.Keys, m', true, Some(list), refs)
    ensures AlikeAt(c, active, filled.Keys, m', true, Some(list), None, refs, cache.Keys, ov)
  {
    if refs == {} {
      AgreesIffAlike(c, active, m', ov, filled);
    } else {
      AgreesIffAlike(c, active, m', list, filled);
      AgreesIffAlike(m', list, m', ov, cache);
      assert forall k, v | k in filled && ReadsValue(c, active, k, v) :: k in cache && ReadsValue(m', list, k, v);
    }
  }

  /** Where it did not, the names cached before that tracking cannot have read anew are still needed. */
  lemma UntouchedAlike(c: View, active: seq<string>, m': View, filled: Cache, cache: Cache, ov: seq<string>)
    requires CacheAgrees(c, active, filled) && Persists(filled, cache, RecordedNames(m'))
    requires CacheAgrees(m', ov, cache)
    ensures ReadAlike(c, active, m', ov, filled.Keys - RecordedNames(m'))
  {
    forall k, v | k in filled.Keys - RecordedNames(m') && ReadsValue(c, active, k, v) ensures ReadsValue(m', ov, k, v) {
      ValueIsOne(c, active, k, v, filled[k].value);
      assert ReadsValue(m', ov, k, cache[k].value);
    }
  }

  /** The names that have an entry in the end are among those read through, and are these if nothing is
      removed and no name cached before is the name of a variant. */
  lemma AllIsThrough(m': View, list: seq<string>, filled: Cache, cache: Cache, refs: set<string>)
    requires LongerNames(m'.variants) && CacheAgrees(m', list, filled) && refs != {}
    requires TrackedFrom(m', list, filled, cache, refs)
    ensures var through := ReadThrough(m', list, filled.Keys, filled.Keys + refs);
            && cache.Keys <= through
            && (NoRemoves(m') && filled.Keys !! RecordedNames(m') ==> cache.Keys == through)
  {
    if NoRemoves(m') && filled.Keys !! RecordedNames(m') {
      ExtendsExactly(m', list, filled, cache, refs);
    }
  }
}
