/** Caches and lists of steady names. */
module SteadyCaches {
  import opened Wrappers
  import opened Store
  import opened Steady
  import opened Updates
  import opened ReadGraph
  import opened CacheContents
  import opened OverrideLists

  /** Steady names are read through steady names, under any list. */
  lemma PlainIsClosed(m: View, overrides: seq<string>, names: set<string>, known: set<string>)
    requires Plain(m, names) && LongerNames(m.variants)
    ensures ClosedBut(m, overrides, names, known)
  {
    forall k | k in names ensures ClosedAt(m, overrides, names, k) {
      assert PlainAt(m, k, names);
      RawParts(m, overrides, k, UNDEFINED);
    }
  }

  lemma ThroughPlain(m: View, overrides: seq<string>, from: set<string>, names: set<string>)
    requires Plain(m, names) && LongerNames(m.variants) && from <= names
    ensures ReadThrough(m, overrides, {}, from) <= names && {} + from == from
  {
    PlainIsClosed(m, overrides, names, {});
    ThroughLeast(m, overrides, {}, from, names);
  }

  lemma FilledFrom(m: View, overrides: seq<string>, cache: Cache, names: set<string>)
    requires LongerNames(m.variants) && Extends(m, overrides, map[], cache, {"OVERRIDES"})
    requires Plain(m, names) && "OVERRIDES" in names
    ensures cache.Keys <= names
  {
    var none: Cache := map[];
    assert none.Keys == {};
    ThroughPlain(m, overrides, {"OVERRIDES"}, names);
  }

  /** A cache of steady names stays right when other names change and under any list. */
  lemma PlainCache(m: View, m': View, ov: seq<string>, ov': seq<string>, cache: map<string, Parser>, names: set<string>)
    requires Plain(m, names) && Plain(m', names) && Agree(m, m', names) && cache.Keys <= names
    requires CacheAgrees(m, ov, cache)
    ensures CacheAgrees(m', ov', cache)
  {
    forall k | k in cache ensures ReadsValue(m', ov', k, cache[k].value) {
      var r :| Reads(m, ov, k, true, r) && r.parser.value == cache[k].value;
      PlainReads(m, m', ov, ov', k, true, r, names);
    }
  }

  lemma ClearedSteady(m: View, name: string, parsing: bool, names: set<string>)
    requires Plain(m, names)
    ensures Plain(Cleared(m, name, parsing), names) && Agree(m, Cleared(m, name, parsing), names)
  {
    var c := Cleared(m, name, parsing);
    forall k | k in names ensures EntryOf(c, k) == EntryOf(m, k) {
      assert PlainAt(m, k, names);
    }
    forall k | k in names ensures PlainAt(c, k, names) {
      assert PlainAt(m, k, names);
    }
  }

  /** A list that is due, or that steady names make up, is found in the first round. */
  lemma SettlesAtOnce(m: View, due: Option<seq<string>>, names: Option<set<string>>, guess: seq<string>,
                      next: seq<string>)
    requires ListUnder(m, guess, next)
    requires if due.Some? then guess == due.value && FixedPoint(m, guess)
             else names.Some? && Plain(m, names.value) && "OVERRIDES" in names.value && ListUnder(m, [], guess)
    ensures next == guess
  {
    if due.None? {
      SteadyList(m, m, [], guess, guess, names.value);
    }
    ListIsOne(m, guess, guess, next);
  }

  lemma CachedListIsFixed(m: View, list: seq<string>, cache: Cache)
    requires CacheAgrees(m, list, cache) && CachedList(cache, list)
    ensures FixedPoint(m, list)
  {
    assert ReadsValue(m, list, "OVERRIDES", cache["OVERRIDES"].value);
  }

  lemma RightListIsCached(m: View, list: seq<string>, cache: Cache)
    requires CacheAgrees(m, list, cache) && "OVERRIDES" in cache && FixedPoint(m, list)
    ensures CachedList(cache, list)
  {
    assert ReadsValue(m, list, "OVERRIDES", cache["OVERRIDES"].value);
    ListIsOne(m, list, list, OverrideList(cache["OVERRIDES"].value));
  }
}
