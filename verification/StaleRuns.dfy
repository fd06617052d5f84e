/** The inputs of `StaleInputs` as whole runs on a new datastore. In two of them a variable is read, and
    its value is not the one that the store holds for it; in one the list is not what OVERRIDES says. */
module StaleRuns {
  import opened Wrappers
  import opened Text
  import opened Overrides
  import opened Store
  import opened Updates
  import opened ReadGraph
  import opened CacheContents
  import opened AssignedCache
  import opened OverrideLists
  import opened LiveReads
  import opened Datastore
  import opened Sticky
  import opened Failures
  import opened StaleInputs
  import opened StaleDepths

  // ---------------------------------------------------------------- building the stores

  lemma {:induction false} ShortNoKeyword(name: string, i: nat)
    requires |name| < 7 && i <= |name|
    ensures FindKeyword(name, i).None?
    decreases |name| - i
  {
    if i < |name| {
      ShortNoKeyword(name, i + 1);
    }
  }

  lemma FirstSet(m: View, name: string, value: Value, ov: seq<string>)
    requires FindKeyword(name, 0).None? && name !in m.vars && name !in m.variants
    ensures AfterSetVar(m, name, value, false, ov) ==
            View(m.vars[name := Plainly(value)], if ':' in name then Record(m.variants, name) else m.variants)
  {
    var after := AfterSet(m, name, value, false, ov);
    assert after.vars == m.vars[name := Plainly(value)];
  }

  /** The first record of a variant with a name of one letter. */
  lemma RecordOne(base: char, o: char)
    requires base != ':' && StartsName([o])
    ensures Record(map[], [base, ':', o]) == map[[base] := [Variant([base, ':', o], [o])]]
  {
    var name, none: VariantMap := [base, ':', o], map[];
    var i := RFind(name, ':');
    assert name[1] == ':' && i == 1;
    assert BaseAt(name, i) == [base] && OverrideAt(name, i) == [o] && RFind([base], ':') == -1;
    var v := Variant(name, [o]);
    assert [] + [v] == [v];
    assert RecordFrom(none, name, [o], [base]) == AddVariant(none, [base], v);
  }

  const EMPTY := View(map[], map[])

  /** A variable with a variant, both text. */
  function WithVariant(base: char, o: char, text: Value, other: Value): View {
    View(map[[base] := Plainly(text), [base, ':', o] := Plainly(other)], map[[base] := [Variant([base, ':', o], [o])]])
  }

  function WithList(m: View, list: Value): View {
    m.(vars := m.vars["OVERRIDES" := Plainly(list)])
  }

  lemma Build(base: char, o: char, text: Value, other: Value, list: Value, ov: seq<string>)
    requires base != ':' && StartsName([o])
    ensures var one, two := View(map[[base] := Plainly(text)], map[]), WithVariant(base, o, text, other);
            && AfterSetVar(EMPTY, [base], text, false, ov) == one
            && AfterSetVar(one, [base, ':', o], other, false, ov) == two
            && AfterSetVar(two, "OVERRIDES", list, false, ov) == WithList(two, list)
  {
    var one, two, name := View(map[[base] := Plainly(text)], map[]), WithVariant(base, o, text, other), [base, ':', o];
    ShortNoKeyword([base], 0);
    FirstSet(EMPTY, [base], text, ov);
    ShortNoKeyword(name, 0);
    RecordOne(base, o);
    FirstSet(one, name, other, ov);
    assert name[1] == ':';
    NoColonNoKeyword("OVERRIDES", 0);
    FirstSet(two, "OVERRIDES", list, ov);
  }

  // ---------------------------------------------------------------- the runs

  /** `setVar` on a name without variants, and nothing but it. */
  method Set(d: DataSmart, name: string, value: Value, depth: nat, ghost to: View) returns (r: Result<(), Error>)
    requires d.Valid() && d.Ready() && !d.inOverride
    requires forall ov :: AfterSetVar(d.Now(), name, value, false, ov) == to
    requires name !in d.recorded && '_' !in name && FindKeyword(name, 0).None?
    modifies d, d.dict
    ensures r.Ok? ==> d.Valid() && d.Ready() && !d.inOverride && d.Now() == to
    ensures r.Ok? ==> old(d.overrideVars) <= d.overrideVars
    ensures r.Ok? && name in old(d.overrideVars) ==> Refs(value) <= d.overrideVars && d.overrides.None?
    ensures r.Ok? && old(d.overrides).None? ==> d.overrides.None? && d.Coherent()
    ensures r.Ok? ==> AddsOnly(d.Now(), old(d.overrideVars), Refs(value), {}, d.overrideVars)
    ensures r.Ok? && name !in old(d.overrideVars) ==>
              d.overrideVars == old(d.overrideVars) && d.overrides == old(d.overrides)
    ensures r.Err? ==>
              && name in old(d.overrideVars) && Refs(value) != {}
              && TrackStops(to, old(d.overrides).Some?, old(d.overrides), depth, name, value)
  {
    ghost var m, before, vars := d.Now(), d.overrides, d.overrideVars;
    ghost var active, filled;
    r, active, filled := d.SetVar(name, value, false, depth, {});
    if r.Err? {
      OnlyTracking(m, name, value, before, active, vars, depth);
    }
  }

  /** A new store in which a variable and a variant of it are assigned. */
  method NewVariant(base: char, o: char, text: Value, other: Value, depth: nat) returns (d: DataSmart)
    requires base != ':' && base != '_' && StartsName([o])
    ensures fresh(d) && fresh(d.dict) && d.Valid() && d.Ready() && !d.inOverride
    ensures d.Now() == WithVariant(base, o, text, other)
    ensures d.overrides.None? && d.Coherent() && "OVERRIDES" in d.overrideVars
  {
    d := new DataSmart(null);
    assert d.Now() == EMPTY;
    forall ov {
      Build(base, o, text, other, [], ov);
    }
    ShortNoKeyword([base], 0);
    var one := Set(d, [base], text, depth, View(map[[base] := Plainly(text)], map[]));
    ShortNoKeyword([base, ':', o], 0);
    var two := Set(d, [base, ':', o], other, depth, WithVariant(base, o, text, other));
  }

  /** Then OVERRIDES is assigned. */
  method NewStore(base: char, o: char, text: Value, other: Value, list: Value, depth: nat)
    returns (r: Result<(), Error>, d: DataSmart)
    requires base != ':' && base != '_' && StartsName([o])
    ensures fresh(d) && fresh(d.dict)
    ensures r.Err? ==> Refs(list) != {} && TrackStops(WithList(WithVariant(base, o, text, other), list), false, None,
                                                      depth, "OVERRIDES", list)
    ensures r.Ok? ==> d.Valid() && d.Ready() && !d.inOverride
    ensures r.Ok? ==> d.Now() == WithList(WithVariant(base, o, text, other), list)
    ensures r.Ok? ==> d.overrides.None? && d.Coherent() && "OVERRIDES" in d.overrideVars && Refs(list) <= d.overrideVars
  {
    d := NewVariant(base, o, text, other, depth);
    forall ov {
      Build(base, o, text, other, list, ov);
    }
    NoColonNoKeyword("OVERRIDES", 0);
    r := Set(d, "OVERRIDES", list, depth, WithList(WithVariant(base, o, text, other), list));
  }

  /** A cache filled by computing the list holds the old text of B. */
  lemma OldTextIsCached(active: seq<string>, filled: Cache)
    requires var m := ListFromB(OLD_TEXT, VARIANTS_OF_B);
             && LongerNames(m.variants) && FixedPoint(Cleared(m, "B", false), active)
             && Emptied(m, "B", false, None, active, filled)
    ensures "B" in filled && filled["B"].value == Some(OLD_TEXT)
    ensures AfterSetVar(ListFromB(OLD_TEXT, VARIANTS_OF_B), "B", NEW_TEXT, false, active) == ListFromB(NEW_TEXT, map[])
  {
    var m := ListFromB(OLD_TEXT, VARIANTS_OF_B);
    AssignB();
    OldListIsFixed(active);
    ListFromBReads(OLD_TEXT, VARIANTS_OF_B, active);
    RefIsNext(m, active, "OVERRIDES", [], "B");
    assert "B" in Next(m, active, "OVERRIDES") && "OVERRIDES" in filled;
    ValueIsOne(m, active, "B", filled["B"].value, Some(OLD_TEXT));
  }

  /** Assign B and read it. */
  method ReadStale(d: DataSmart, depth: nat) returns (r: Result<Option<Value>, Error>)
    requires d.Valid() && !d.inOverride && d.Now() == ListFromB(OLD_TEXT, VARIANTS_OF_B)
    requires d.overrides.None? && "B" in d.overrideVars
    modifies d, d.dict
    ensures r.Ok? ==> d.Valid() && d.Now() == ListFromB(NEW_TEXT, map[]) && r.value == Some(OLD_TEXT)
    ensures depth >= 5 ==> r.Ok?
  {
    ghost var active, filled;
    NoColonNoKeyword("B", 0);
    AssignB();
    if depth >= 5 {
      FirstDepth(depth);
    }
    var done;
    done, active, filled := d.SetVar("B", NEW_TEXT, false, depth, {});
    if done.Err? {
      if IsOldSyntax("B") {
        OldSyntaxHas("B");
      }
      return Err(done.error);
    }
    OldTextIsCached(active, filled);
    r := d.GetVar("B", depth, ANY);
  }

  /** B = "o", B:x = "v", OVERRIDES = "${B}", B = "n": reading B gives "o". */
  method FirstRun(depth: nat) returns (r: Result<Option<Value>, Error>, d: DataSmart)
    ensures depth >= 5 ==> r.Ok?
    ensures r.Ok? ==> d.Valid() && d.Now() == ListFromB(NEW_TEXT, map[]) && r.value == Some(OLD_TEXT)
    ensures r.Ok? ==> forall ov :: ReadsValue(d.Now(), ov, "B", Some(NEW_TEXT))
  {
    var done;
    FirstContents();
    if depth >= 5 {
      FirstDepth(depth);
    }
    done, d := NewStore('B', 'x', OLD_TEXT, VARIANT_TEXT, [] + [Ref("B")], depth);
    if done.Err? { return Err(done.error), d; }
    NewTextStands();
    r := ReadStale(d, depth);
  }

  lemma FirstContents()
    ensures WithList(WithVariant('B', 'x', OLD_TEXT, VARIANT_TEXT), [] + [Ref("B")]) ==
            ListFromB(OLD_TEXT, VARIANTS_OF_B)
    ensures Ref("B") in [] + [Ref("B")] && "B" in Refs([] + [Ref("B")])
  {
    assert ([] + [Ref("B")])[0] == Ref("B");
    assert ['B', ':', 'x'] == "B:x" && ['B'] == "B";
    assert WithList(WithVariant('B', 'x', OLD_TEXT, VARIANT_TEXT), [] + [Ref("B")]).vars ==
           ListFromB(OLD_TEXT, VARIANTS_OF_B).vars;
  }

  lemma SecondContents()
    ensures WithList(WithVariant('C', 'a', ZERO, ONE), [Ch('a')]) == TwoValuesOfC([Ch('a')])
  {
    assert ['C', ':', 'a'] == "C:a" && ['C'] == "C";
    assert WithList(WithVariant('C', 'a', ZERO, ONE), [Ch('a')]).vars == TwoValuesOfC([Ch('a')]).vars;
  }

  lemma NewTextStands()
    ensures forall ov :: ReadsValue(ListFromB(NEW_TEXT, map[]), ov, "B", Some(NEW_TEXT))
  {
    forall ov ensures ReadsValue(ListFromB(NEW_TEXT, map[]), ov, "B", Some(NEW_TEXT)) {
      ListFromBReads(NEW_TEXT, map[], ov);
    }
  }

  /** The list is computed. */
  method SecondList(d: DataSmart, depth: nat) returns (r: Result<(), Error>)
    requires d.Valid() && d.Ready() && !d.inOverride && d.Now() == TwoValuesOfC([Ch('a')])
    requires d.overrides.None? && d.Coherent()
    modifies d`expandCache, d`overrides, d`inOverride
    ensures r.Ok? ==> d.Valid() && d.Ready() && !d.inOverride && d.Now() == TwoValuesOfC([Ch('a')])
    ensures r.Ok? ==> d.overrides == Some(["a"])
    ensures depth >= 5 ==> r.Ok?
  {
    if depth >= 5 {
      SecondListDepth(depth);
    }
    r := d.NeedOverrides(depth, RIGHT);
    if r.Ok? {
      ListIsA(d.overrides.value);
      ListIsOne(d.Now(), d.overrides.value, d.overrides.value, ["a"]);
    }
  }

  /** A new store with the contents of the second input, where the list has been computed. */
  method SecondStore(depth: nat) returns (r: Result<(), Error>, d: DataSmart)
    ensures fresh(d) && fresh(d.dict)
    ensures r.Ok? ==> d.Valid() && d.Ready() && !d.inOverride && d.Now() == TwoValuesOfC([Ch('a')])
    ensures r.Ok? ==> d.overrides == Some(["a"]) && "OVERRIDES" in d.overrideVars
    ensures depth >= 5 ==> r.Ok?
  {
    r, d := NewStore('C', 'a', ZERO, ONE, [Ch('a')], depth);
    SecondContents();
    r := SecondList(d, depth);
  }

  /** C = "0", C:a = "1", OVERRIDES = "a", a read, OVERRIDES = "b:${C}": reading C gives "1". */
  method SecondRun(depth: nat) returns (r: Result<Option<Value>, Error>, d: DataSmart)
    ensures depth >= 5 ==> r.Ok?
    ensures r.Ok? ==> d.Valid() && d.Now() == TwoValuesOfC(LIST_WITH_C) && r.value == Some(ONE)
    ensures r.Ok? ==> Reached(d.Now(), ["b", "0"]) && ReadsValue(d.Now(), ["b", "0"], "C", Some(ZERO))
  {
    var done;
    done, d := SecondStore(depth);
    if done.Err? { return Err(done.error), d; }
    CReadsApart(TwoValuesOfC(LIST_WITH_C));
    r := ReadOldC(d, depth);
  }

  /** Assign OVERRIDES and read C. */
  method ReadOldC(d: DataSmart, depth: nat) returns (r: Result<Option<Value>, Error>)
    requires d.Valid() && !d.inOverride && d.Now() == TwoValuesOfC([Ch('a')])
    requires d.overrides == Some(["a"]) && "OVERRIDES" in d.overrideVars
    modifies d, d.dict
    ensures depth >= 5 ==> r.Ok?
    ensures r.Ok? ==> d.Valid() && d.Now() == TwoValuesOfC(LIST_WITH_C) && r.value == Some(ONE)
  {
    ghost var active, filled, vars := [], map[], d.overrideVars;
    AssignList();
    var done;
    done, active, filled := d.SetVar("OVERRIDES", LIST_WITH_C, false, depth, {});
    if done.Err? {
      OnlyTracking(TwoValuesOfC([Ch('a')]), "OVERRIDES", LIST_WITH_C, Some(["a"]), active, vars, depth);
      if depth >= 5 {
        SecondDepth(depth);
      }
      return Err(done.error);
    }
    CIsCached(filled, d.expandCache);
    r := d.GetVar("C", depth, ANY);
  }

  lemma CIsCached(filled: Cache, cache: Cache)
    requires var m := TwoValuesOfC(LIST_WITH_C);
             LongerNames(m.variants) && filled == map[] && TrackedFrom(m, ["a"], filled, cache, Refs(LIST_WITH_C))
    ensures "C" in cache && cache["C"].value == Some(ONE)
  {
    var m := TwoValuesOfC(LIST_WITH_C);
    assert LIST_WITH_C[2] == Ref("C") && "C" in Refs(LIST_WITH_C);
    assert CacheAgrees(m, ["a"], filled);
    CUnderA(LIST_WITH_C);
    ValueIsOne(m, ["a"], "C", cache["C"].value, Some(ONE));
  }

  lemma ThirdBuild(c: char, ov: seq<string>)
    ensures var one := View(map["B" := Plainly([Ch(c)])], map[]);
            var two := View(map["B" := Plainly([Ch(c)]), "A" := Plainly([] + [Ref("B")])], map[]);
            && AfterSetVar(EMPTY, "B", [Ch(c)], false, ov) == one
            && AfterSetVar(one, "A", [] + [Ref("B")], false, ov) == two
            && AfterSetVar(two, "OVERRIDES", [] + [Ref("A")], false, ov) == ListThroughA(c)
  {
    var one := View(map["B" := Plainly([Ch(c)])], map[]);
    var two := View(map["B" := Plainly([Ch(c)]), "A" := Plainly([] + [Ref("B")])], map[]);
    NoColonNoKeyword("B", 0);
    NoColonNoKeyword("A", 0);
    NoColonNoKeyword("OVERRIDES", 0);
    FirstSet(EMPTY, "B", [Ch(c)], ov);
    FirstSet(one, "A", [] + [Ref("B")], ov);
    FirstSet(two, "OVERRIDES", [] + [Ref("A")], ov);
  }

  lemma AssignLetter(c: char, c': char, ov: seq<string>)
    ensures AfterSetVar(ListThroughA(c), "B", [Ch(c')], false, ov) == ListThroughA(c')
  {
    var m := ListThroughA(c);
    NoColonNoKeyword("B", 0);
    assert AfterSet(m, "B", [Ch(c')], false, ov).vars == ListThroughA(c').vars;
  }

  /** A new store in which B is a letter and A refers to B. */
  method NewThroughA(c: char, depth: nat) returns (d: DataSmart)
    ensures fresh(d) && fresh(d.dict) && d.Valid() && d.Ready() && !d.inOverride
    ensures d.Now() == View(map["B" := Plainly([Ch(c)]), "A" := Plainly([] + [Ref("B")])], map[])
    ensures d.overrides.None? && d.Coherent() && d.overrideVars == {"OVERRIDES", "FILE"}
  {
    d := new DataSmart(null);
    assert d.Now() == EMPTY;
    forall ov {
      ThirdBuild(c, ov);
    }
    NoColonNoKeyword("B", 0);
    var one := Set(d, "B", [Ch(c)], depth, View(map["B" := Plainly([Ch(c)])], map[]));
    NoColonNoKeyword("A", 0);
    var two := Set(d, "A", [] + [Ref("B")], depth,
                   View(map["B" := Plainly([Ch(c)]), "A" := Plainly([] + [Ref("B")])], map[]));
  }

  /** A new store with the contents of the third input. B is not tracked. */
  method ThirdStore(c: char, depth: nat) returns (r: Result<(), Error>, d: DataSmart)
    requires c != ':'
    ensures fresh(d) && fresh(d.dict)
    ensures depth >= 5 ==> r.Ok?
    ensures r.Ok? ==> d.Valid() && d.Ready() && !d.inOverride && d.Now() == ListThroughA(c)
    ensures r.Ok? ==> d.overrides.None? && d.Coherent() && "B" !in d.overrideVars
  {
    d := NewThroughA(c, depth);
    forall ov {
      ThirdBuild(c, ov);
    }
    NoColonNoKeyword("OVERRIDES", 0);
    if depth >= 5 {
      ThirdDepth(c, depth);
    }
    r := Set(d, "OVERRIDES", [] + [Ref("A")], depth, ListThroughA(c));
    if r.Ok? {
      BStaysOut(c, d.overrideVars);
    }
  }

  /** B is defined, so it is not tracked. */
  lemma BStaysOut(c: char, vars: set<string>)
    requires c != ':' && AddsOnly(ListThroughA(c), {"OVERRIDES", "FILE"}, Refs([] + [Ref("A")]), {}, vars)
    ensures "B" !in vars
  {
    LetterIsDefined(c, vars - {"OVERRIDES", "FILE"} - Refs([] + [Ref("A")]));
  }

  /** B = "o", A = "${B}", OVERRIDES = "${A}", a read, B = "n": the list is still `o`, and should be `n`. */
  method ThirdRun(depth: nat) returns (r: Result<(), Error>, d: DataSmart)
    ensures depth >= 5 ==> r.Ok?
    ensures r.Ok? ==> d.Valid() && d.Now() == ListThroughA('n') && d.overrides == Some([['o']])
    ensures r.Ok? ==> forall list :: FixedPoint(d.Now(), list) <==> list == [['n']]
  {
    if depth >= 5 {
      ThirdDepth('o', depth);
    }
    r, d := ThirdStore('o', depth);
    if r.Err? { return; }
    r := d.NeedOverrides(depth, RIGHT);
    if r.Err? { return; }
    LetterIsFixed('o', d.overrides.value);
    r := AssignThird(d, depth);
    forall list ensures FixedPoint(ListThroughA('n'), list) <==> list == [['n']] {
      LetterIsFixed('n', list);
    }
  }

  method AssignThird(d: DataSmart, depth: nat) returns (r: Result<(), Error>)
    requires d.Valid() && d.Ready() && !d.inOverride && d.Now() == ListThroughA('o') && "B" !in d.overrideVars
    modifies d, d.dict
    ensures r.Ok? && d.Valid() && d.Now() == ListThroughA('n') && d.overrides == old(d.overrides)
  {
    forall ov {
      AssignLetter('o', 'n', ov);
    }
    NoColonNoKeyword("B", 0);
    r := Set(d, "B", [Ch('n')], depth, ListThroughA('n'));
  }
}
