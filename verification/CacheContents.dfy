/** Which entries reads leave in the expansion cache: the names read through, and
    no others. */
module CacheContents {
  import opened Wrappers
  import opened Store
  import opened Updates
  import opened ReadGraph
  import opened LiveReads

  type Cache = map<string, Parser>

  /** Every cached value is what reading its name under this list gives. */
  ghost predicate CacheAgrees(m: View, overrides: seq<string>, cache: Cache) {
    forall k | k in cache :: ReadsValue(m, overrides, k, cache[k].value)
  }

  /** Under the list, or under every one as long as there is none. */
  ghost predicate AgreesUnder(m: View, basis: Option<seq<string>>, cache: Cache) {
    forall ov | Under(basis, ov) :: CacheAgrees(m, ov, cache)
  }

  lemma EntryAgrees(m: View, basis: Option<seq<string>>, cache: Cache, k: string, p: Parser)
    requires AgreesUnder(m, basis, cache) && AllReadValue(m, basis, k, p.value)
    ensures AgreesUnder(m, basis, cache[k := p])
  {
    forall ov | Under(basis, ov) ensures CacheAgrees(m, ov, cache[k := p]) {
      assert CacheAgrees(m, ov, cache) && ReadsValue(m, ov, k, p.value);
    }
  }

  lemma EntryReads(m: View, basis: Option<seq<string>>, cache: Cache, k: string)
    requires AgreesUnder(m, basis, cache) && k in cache
    ensures AllReadValue(m, basis, k, cache[k].value)
  {
    forall ov | Under(basis, ov) ensures ReadsValue(m, ov, k, cache[k].value) {
      assert CacheAgrees(m, ov, cache);
    }
  }

  // ---------------------------------------------------------------- the names read through

  /** The names of recorded variants, which are also read without a look into the cache. */
  ghost function RecordedNames(m: View): set<string> {
    set b, v | b in m.variants && v in m.variants[b] :: v.name
  }

  /** Reading k reads only names. */
  ghost predicate ClosedAt(m: View, overrides: seq<string>, names: set<string>, k: string)
    requires LongerNames(m.variants)
  {
    Next(m, overrides, k) <= names && OpNames(EntryOf(m, k).removes) <= names
  }

  /** Reading one of the names, unless it is known, reads only names. */
  ghost predicate ClosedBut(m: View, overrides: seq<string>, names: set<string>, known: set<string>)
    requires LongerNames(m.variants)
  {
    forall k | k in names && (k !in known || k in RecordedNames(m)) :: ClosedAt(m, overrides, names, k)
  }

  /** All names there are, and those in from. */
  ghost function AllNames(m: View, from: set<string>): set<string> {
    from + Readables(m) + set k, x | k in m.vars && x in OpNames(m.vars[k].removes) :: x
  }

  lemma AllNamesClosed(m: View, overrides: seq<string>, from: set<string>, known: set<string>)
    requires LongerNames(m.variants)
    ensures ClosedBut(m, overrides, AllNames(m, from), known)
  {
    forall k | k in AllNames(m, from) ensures ClosedAt(m, overrides, AllNames(m, from), k) {
      NextIsReadable(m, overrides, k);
    }
  }

  /** What is read when the names in from are read and those in known are not read again. */
  ghost function ReadThrough(m: View, overrides: seq<string>, known: set<string>, from: set<string>): set<string>
    requires LongerNames(m.variants)
  {
    set y | y in AllNames(m, from) && InEvery(m, overrides, known, from, y)
  }

  ghost predicate InEvery(m: View, overrides: seq<string>, known: set<string>, from: set<string>, y: string)
    requires LongerNames(m.variants)
  {
    forall names: set<string> | from <= names && ClosedBut(m, overrides, names, known) :: y in names
  }

  lemma ThroughLeast(m: View, overrides: seq<string>, known: set<string>, from: set<string>, names: set<string>)
    requires LongerNames(m.variants) && from <= names && ClosedBut(m, overrides, names, known)
    ensures ReadThrough(m, overrides, known, from) <= names
  {
    forall y | y in ReadThrough(m, overrides, known, from) ensures y in names {
      assert InEvery(m, overrides, known, from, y);
    }
  }

  lemma ThroughClosed(m: View, overrides: seq<string>, known: set<string>, from: set<string>)
    requires LongerNames(m.variants)
    ensures from <= ReadThrough(m, overrides, known, from)
    ensures ClosedBut(m, overrides, ReadThrough(m, overrides, known, from), known)
  {
    var r, all := ReadThrough(m, overrides, known, from), AllNames(m, from);
    AllNamesClosed(m, overrides, from, known);
    assert forall y | y in from :: InEvery(m, overrides, known, from, y);
    forall k | k in r && (k !in known || k in RecordedNames(m)) ensures ClosedAt(m, overrides, r, k) {
      assert InEvery(m, overrides, known, from, k);
      forall y | y in Next(m, overrides, k) || y in OpNames(EntryOf(m, k).removes) ensures y in r {
        assert ClosedAt(m, overrides, all, k);
        forall names: set<string> | from <= names && ClosedBut(m, overrides, names, known) ensures y in names {
          assert ClosedAt(m, overrides, names, k);
        }
      }
    }
  }

  /** Every name but the known ones stands with the names it is read through. */
  ghost predicate Linked(m: View, overrides: seq<string>, keys: set<string>, known: set<string>)
    requires LongerNames(m.variants)
  {
    forall k {:trigger Next(m, overrides, k)} | k in keys && k !in known :: Next(m, overrides, k) <= keys
  }

  lemma LinkedGrows(m: View, overrides: seq<string>, keys: set<string>, known: set<string>, k: string)
    requires LongerNames(m.variants)
    requires Linked(m, overrides, keys, known) && Next(m, overrides, k) <= keys
    ensures Linked(m, overrides, keys + {k}, known)
  {
  }

  lemma LinkedHoldsThrough(m: View, overrides: seq<string>, keys: set<string>, known: set<string>, from: set<string>)
    requires LongerNames(m.variants) && NoRemoves(m) && known !! RecordedNames(m)
    requires Linked(m, overrides, keys, known) && from <= keys
    ensures ReadThrough(m, overrides, known, from) <= keys
  {
    forall k | k in keys && (k !in known || k in RecordedNames(m)) ensures ClosedAt(m, overrides, keys, k) {
      assert EntryOf(m, k).removes == [];
    }
    ThroughLeast(m, overrides, known, from, keys);
  }

  // ---------------------------------------------------------------- references left in values

  ghost predicate NextStays(m: View, overrides: seq<string>, names: set<string>)
    requires LongerNames(m.variants)
  {
    forall k {:trigger Next(m, overrides, k)} | k in names :: Next(m, overrides, k) <= names
  }

  lemma {:induction false} PassStays(m: View, overrides: seq<string>, n: nat, self: Option<string>, v: Value,
                                     names: set<string>)
    requires LongerNames(m.variants) && NextStays(m, overrides, names) && Refs(v) <= names
    requires Pass(m, overrides, n, self, v).Some?
    ensures Refs(Pass(m, overrides, n, self, v).value) <= names
    decreases n, 1, |v|
  {
    if v != [] {
      var init, t := v[..|v| - 1], v[|v| - 1];
      RefsStep(v);
      PassStays(m, overrides, n, self, init, names);
      var p := Pass(m, overrides, n, self, init).value;
      match t
      case Ch(_) => RefsAppend(p, [t]);
      case Ref(x) =>
        ValueStays(m, overrides, n, x, true, names);
        RefsAppend(p, Substitute(x, Eval(m, overrides, n, x, true).value));
    }
  }

  /** References left in a value are to names that reading it goes through. */
  lemma {:induction false} ValueStays(m: View, overrides: seq<string>, n: nat, k: string, exp: bool, names: set<string>)
    requires LongerNames(m.variants) && NextStays(m, overrides, names) && k in names
    requires Eval(m, overrides, n, k, exp).Some?
    ensures Refs(OrEmpty(Eval(m, overrides, n, k, exp).value.parser.value)) <= names
    decreases n, 0, 0
  {
    var sub := EvalChosen(m, overrides, n - 1, k).value;
    EvalRaw(m, overrides, n, k, exp);
    if Chosen(m, overrides, k).Some? {
      EvalRaw(m, overrides, n - 1, Chosen(m, overrides, k).value, false);
    }
    assert Assemble(m, overrides, k, sub) == Raw(m, overrides, k);
    assert Next(m, overrides, k) <= names;
    FinishStays(m, overrides, n - 1, k, exp, sub, names);
  }

  lemma {:induction false} FinishStays(m: View, overrides: seq<string>, n: nat, k: string, exp: bool, sub: Read,
                                       names: set<string>)
    requires LongerNames(m.variants) && NextStays(m, overrides, names)
    requires Finish(m, overrides, n, k, exp, sub).Some? && Refs(OrEmpty(Assemble(m, overrides, k, sub))) <= names
    ensures Refs(OrEmpty(Finish(m, overrides, n, k, exp, sub).value.parser.value)) <= names
    decreases n, 4, 0
  {
    var raw := Assemble(m, overrides, k, sub);
    if raw.Some? {
      var x := Expand(m, overrides, n, Some(k), raw.value).value;
      ExpansionStays(m, overrides, n, Some(k), raw.value, names);
      RemovedKeepsTokens(m, overrides, n, raw.value, x,
        ToRemove(m, overrides, k, sub, if exp then x.value else raw.value));
    }
  }

  lemma {:induction false} ExpansionStays(m: View, overrides: seq<string>, n: nat, self: Option<string>, v: Value,
                                          names: set<string>)
    requires LongerNames(m.variants) && NextStays(m, overrides, names)
    requires Expand(m, overrides, n, self, v).Some? && Refs(v) <= names
    ensures Refs(Expand(m, overrides, n, self, v).value.value) <= names
    decreases n, 2, 0
  {
    PassStays(m, overrides, n, self, v, names);
    PassUnresolved(m, overrides, n, self, v);
    PassOfUnresolved(m, overrides, n, self, Pass(m, overrides, n, self, v).value);
  }

  // ---------------------------------------------------------------- caches

  /** No entry refers to other names. */
  ghost predicate RefsIn(cache: Cache, names: set<string>) {
    forall k | k in cache :: Refs(OrEmpty(cache[k].value)) <= names
  }

  /** The entries of before are still there, and say the same but for those of recorded names. */
  ghost predicate Persists(before: Cache, after: Cache, but: set<string>) {
    before.Keys <= after.Keys && forall k | k in before && k !in but :: after[k].value == before[k].value
  }

  /** after is the cache when the names in from have been read, right for this store and list, on
      top of the cache before. */
  ghost predicate Extends(m: View, overrides: seq<string>, before: Cache, after: Cache, from: set<string>)
    requires LongerNames(m.variants)
  {
    && CacheAgrees(m, overrides, after) && before.Keys + from <= after.Keys
    && Linked(m, overrides, after.Keys, before.Keys)
    && after.Keys <= ReadThrough(m, overrides, before.Keys, before.Keys + from)
  }

  lemma FromNothing(m: View, overrides: seq<string>, cache: Cache, from: set<string>)
    requires LongerNames(m.variants) && CacheAgrees(m, overrides, cache) && from <= cache.Keys
    requires Linked(m, overrides, cache.Keys, {}) && cache.Keys <= ReadThrough(m, overrides, {}, from)
    ensures Extends(m, overrides, map[], cache, from)
  {
    var none: Cache := map[];
    assert none.Keys == {} && {} + from == from;
  }

  lemma IsExtended(m: View, overrides: seq<string>, before: Cache, after: Cache, from: set<string>)
    requires LongerNames(m.variants) && CacheAgrees(m, overrides, after) && before.Keys <= after.Keys
    requires from <= after.Keys && Linked(m, overrides, after.Keys, before.Keys)
    requires after.Keys <= before.Keys + ReadThrough(m, overrides, before.Keys, before.Keys + from)
    ensures Extends(m, overrides, before, after, from)
  {
    ThroughClosed(m, overrides, before.Keys, before.Keys + from);
  }

  /** Without removals the entries are exactly those of the names read through. */
  lemma ExtendsExactly(m: View, overrides: seq<string>, before: Cache, after: Cache, from: set<string>)
    requires LongerNames(m.variants) && NoRemoves(m) && before.Keys !! RecordedNames(m)
    requires Extends(m, overrides, before, after, from)
    ensures after.Keys == ReadThrough(m, overrides, before.Keys, before.Keys + from)
  {
    LinkedHoldsThrough(m, overrides, after.Keys, before.Keys, before.Keys + from);
  }

  /** In a right cache, references left in values are to names that have entries as well. */
  lemma RightRefsIn(m: View, overrides: seq<string>, cache: Cache)
    requires LongerNames(m.variants) && CacheAgrees(m, overrides, cache)
    requires Linked(m, overrides, cache.Keys, {})
    ensures RefsIn(cache, cache.Keys)
  {
    forall k | k in cache ensures Refs(OrEmpty(cache[k].value)) <= cache.Keys {
      var r :| Reads(m, overrides, k, true, r) && r.parser.value == cache[k].value;
      var n: nat :| Eval(m, overrides, n, k, true) == Some(r);
      ValueStays(m, overrides, n, k, true, cache.Keys);
    }
  }
}
