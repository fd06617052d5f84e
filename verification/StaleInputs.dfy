/** Two assignments after which the cache is wrong, one for each way of filling it, and one after
    which the override list is. */
module StaleInputs {
  import opened Wrappers
  import opened Text
  import opened Overrides
  import opened OverridesProperties
  import opened Store
  import opened Updates
  import opened ReadGraph
  import opened CacheContents
  import opened AssignedCache
  import opened OverrideLists
  import opened LiveReads
  import opened StaleReads
  import opened Sticky

  function Plainly(v: Value): Entry {
    NO_ENTRY.(content := Some(v))
  }

  // ---------------------------------------------------------------- reading small stores

  lemma TextReads(m: View, ov: seq<string>, n: nat, k: string, exp: bool, text: Value)
    requires n > 0 && Chosen(m, ov, k).None? && EntryOf(m, k) == Plainly(text) && Refs(text) == {}
    ensures Eval(m, ov, n, k, exp) == Some(Read(Some(text), Parser(Some(text), {}, {})))
  {
    assert EvalChosen(m, ov, n - 1, k) == Some(UNDEFINED);
    assert Assemble(m, ov, k, UNDEFINED) == Some(text);
    forall t | t in text ensures t.Ref? ==> t.name in Refs(text) {
    }
    PassOfUnresolved(m, ov, n - 1, Some(k), text);
    assert Expand(m, ov, n - 1, Some(k), text) == Some(Expansion(text, {}));
    assert ToRemove(m, ov, k, UNDEFINED, text) == {};
    assert Finish(m, ov, n - 1, k, exp, UNDEFINED) == Some(Read(Some(text), Parser(Some(text), {}, {})));
  }

  /** The chosen variant c of k is text, and nothing else is done to k. */
  lemma ChosenReads(m: View, ov: seq<string>, k: string, c: string, text: Value)
    requires Chosen(m, ov, k) == Some(c) && Chosen(m, ov, c).None? && EntryOf(m, c) == Plainly(text)
    requires Refs(text) == {} && exists v :: EntryOf(m, k) == Plainly(v)
    ensures Eval(m, ov, 2, k, true) == Some(Read(Some(text), Parser(Some(text), {}, {})))
  {
    TextReads(m, ov, 1, c, false, text);
    var sub := Read(Some(text), Parser(Some(text), {}, {}));
    assert EvalChosen(m, ov, 1, k) == Some(sub);
    assert Assemble(m, ov, k, sub) == Some(text);
    forall t | t in text ensures t.Ref? ==> t.name in Refs(text) {
    }
    PassOfUnresolved(m, ov, 1, Some(k), text);
    assert Expand(m, ov, 1, Some(k), text) == Some(Expansion(text, {}));
    assert ToRemove(m, ov, k, sub, text) == {};
    assert Finish(m, ov, 1, k, true, sub) == Some(sub);
  }

  /** A reference to x behind some text, where x is text. */
  lemma RefExpands(m: View, ov: seq<string>, n: nat, k: string, pre: Value, x: string, r: Read, text: Value)
    requires x != k && Refs(pre) == {}
    requires Eval(m, ov, n, x, true) == Some(r) && r.parser.value == Some(text) && Refs(text) == {}
    ensures Expand(m, ov, n, Some(k), pre + [Ref(x)]) == Some(Expansion(pre + text, {x}))
    ensures Refs(pre + [Ref(x)]) == {x}
  {
    var v := pre + [Ref(x)];
    assert v[..|v| - 1] == pre && v[|v| - 1] == Ref(x);
    forall t | t in pre ensures t.Ref? ==> t.name in Refs(pre) {
    }
    PassOfUnresolved(m, ov, n, Some(k), pre);
    assert Pass(m, ov, n, Some(k), v) == Some(pre + text);
    RefsAppend(pre, [Ref(x)]);
    RefsAppend(pre, text);
    forall t | t in pre + text ensures t.Ref? ==> t.name in Refs(pre + text) {
    }
    PassOfUnresolved(m, ov, n, Some(k), pre + text);
    assert Refs(v) == {x} && Refs(v) + Refs(pre + text) == {x};
    assert Ref(x) in v && Ref(x) !in pre + text;
  }

  /** k is a reference to x behind some text, and x is text. */
  lemma RefReads(m: View, ov: seq<string>, n: nat, k: string, pre: Value, x: string, r: Read, text: Value)
    requires x != k && Chosen(m, ov, k).None? && EntryOf(m, k) == Plainly(pre + [Ref(x)])
    requires Eval(m, ov, n, x, true) == Some(r) && r.parser.value == Some(text) && Refs(text) == {} && Refs(pre) == {}
    ensures Eval(m, ov, n + 1, k, true) == Some(Read(Some(pre + [Ref(x)]), Parser(Some(pre + text), {x}, {})))
  {
    var v := pre + [Ref(x)];
    RefExpands(m, ov, n, k, pre, x, r, text);
    assert EvalChosen(m, ov, n, k) == Some(UNDEFINED);
    assert Assemble(m, ov, k, UNDEFINED) == Some(v);
    assert ToRemove(m, ov, k, UNDEFINED, pre + text) == {};
    assert Finish(m, ov, n, k, true, UNDEFINED) == Some(Read(Some(v), Parser(Some(pre + text), {x}, {})));
  }

  lemma RefIsNext(m: View, ov: seq<string>, k: string, pre: Value, x: string)
    requires LongerNames(m.variants) && Chosen(m, ov, k).None? && EntryOf(m, k) == Plainly(pre + [Ref(x)])
    ensures x in Next(m, ov, k)
  {
    RawParts(m, ov, k, UNDEFINED);
    assert (pre + [Ref(x)])[|pre|] == Ref(x);
  }

  lemma ReadingIs(m: View, ov: seq<string>, n: nat, k: string, r: Read)
    requires Eval(m, ov, n, k, true) == Some(r)
    ensures ReadsValue(m, ov, k, r.parser.value)
  {
    assert Reads(m, ov, k, true, r);
  }

  /** x can be read at this depth, and is text. */
  ghost predicate TextAt(m: View, ov: seq<string>, n: nat, x: string) {
    exists r :: Eval(m, ov, n, x, true) == Some(r) && r.parser.value.Some? && Refs(r.parser.value.value) == {}
  }

  /** A name that reads differently spoils the agreement. */
  lemma ReadsApart(m: View, ov: seq<string>, m': View, ov': seq<string>, k: string, v: Option<Value>,
                   w: Option<Value>, names: set<string>)
    requires k in names && ReadsValue(m, ov, k, v) && ReadsValue(m', ov', k, w) && v != w
    ensures !ReadAlike(m, ov, m', ov', names)
  {
    if ReadsValue(m', ov', k, v) {
      ValueIsOne(m', ov', k, v, w);
    }
  }

  // ---------------------------------------------------------------- the list is computed before the content is stored

  const OLD_TEXT: Value := [Ch('o')]
  const NEW_TEXT: Value := [Ch('n')]
  const VARIANT_TEXT: Value := [Ch('v')]

  /** OVERRIDES is `${B}`; B is text, and so is its variant. */
  function ListFromB(text: Value, variants: VariantMap): View {
    View(map["OVERRIDES" := Plainly([] + [Ref("B")]), "B" := Plainly(text), "B:x" := Plainly(VARIANT_TEXT)], variants)
  }

  const VARIANTS_OF_B: VariantMap := map["B" := [Variant("B:x", "x")]]

  function TextRead(text: Value): Read {
    Read(Some(text), Parser(Some(text), {}, {}))
  }

  /** OVERRIDES reads as B does. */
  lemma ListIsB(m: View, ov: seq<string>, n: nat, text: Value)
    requires Refs(text) == {} && LongerNames(m.variants)
    requires Chosen(m, ov, "OVERRIDES").None? && EntryOf(m, "OVERRIDES") == Plainly([] + [Ref("B")])
    requires Eval(m, ov, n, "B", true) == Some(TextRead(text))
    ensures ReadsValue(m, ov, "B", Some(text))
    ensures ReadsValue(m, ov, "OVERRIDES", Some([] + text)) && Eval(m, ov, n + 1, "OVERRIDES", true).Some?
  {
    ReadingIs(m, ov, n, "B", TextRead(text));
    RefReads(m, ov, n, "OVERRIDES", [], "B", TextRead(text), text);
    ReadingIs(m, ov, n + 1, "OVERRIDES", Read(Some([] + [Ref("B")]), Parser(Some([] + text), {"B"}, {})));
  }

  lemma ListFromBReads(text: Value, variants: VariantMap, ov: seq<string>)
    requires Refs(text) == {} && (variants == map[] || (variants == VARIANTS_OF_B && "x" !in ov))
    ensures var m := ListFromB(text, variants);
            && Chosen(m, ov, "B").None? && Chosen(m, ov, "OVERRIDES").None?
            && ReadsValue(m, ov, "B", Some(text))
            && ReadsValue(m, ov, "OVERRIDES", Some([] + text))
  {
    var m := ListFromB(text, variants);
    assert "B" in VARIANTS_OF_B;
    if variants == VARIANTS_OF_B {
      OneInactive(Variant("B:x", "x"), ov);
    }
    TextReads(m, ov, 1, "B", true, text);
    ListIsB(m, ov, 1, text);
  }

  lemma AssignB()
    ensures var m := ListFromB(OLD_TEXT, VARIANTS_OF_B);
            && Cleared(m, "B", false) == m && ActiveNames(m.variants["B"], ["o"]) == []
            && FindKeyword("B", 0).None?
            && AfterSetVar(m, "B", NEW_TEXT, false, ["o"]) == ListFromB(NEW_TEXT, map[])
  {
    var m := ListFromB(OLD_TEXT, VARIANTS_OF_B);
    NoColonNoKeyword("B", 0);
    assert Cleared(m, "B", false).vars == m.vars;
    assert m.variants["B"][..0] == [];
    assert ActiveNames(m.variants["B"], ["o"]) == [];
    assert AllDeleted(m, []) == m;
    assert m.variants - {"B"} == map[];
    assert AfterSet(m, "B", NEW_TEXT, false, ["o"]).vars == ListFromB(NEW_TEXT, map[]).vars;
  }

  lemma OneCharList(c: char)
    requires c != ':'
    ensures OverrideList(Some([] + [Ch(c)])) == [[c]]
  {
    var v: Value := [Ch(c)];
    assert [] + v == v && v[..0] == [] && Render([]) == "";
    assert Render(v) == [c];
    SplitOfPlain([c], ':');
  }

  /** The only list there is for the old text is `o`. */
  lemma OldListIsFixed(active: seq<string>)
    ensures FixedPoint(ListFromB(OLD_TEXT, VARIANTS_OF_B), active) <==> active == ["o"]
  {
    var m := ListFromB(OLD_TEXT, VARIANTS_OF_B);
    ListFromBReads(OLD_TEXT, VARIANTS_OF_B, ["o"]);
    OneCharList('o');
    if FixedPoint(m, active) {
      if "x" in active {
        VariantList(active);
      } else {
        ListFromBReads(OLD_TEXT, VARIANTS_OF_B, active);
        ListIsOne(m, active, active, ["o"]);
      }
    }
  }

  /** B can be read under every list; it is the old text, or that of the variant where x is active. */
  lemma OldReads(ov: seq<string>) returns (text: Value)
    ensures var m := ListFromB(OLD_TEXT, VARIANTS_OF_B);
            && (text == OLD_TEXT || (text == VARIANT_TEXT && "x" in ov))
            && Eval(m, ov, 2, "B", true) == Some(TextRead(text)) && Eval(m, ov, 3, "OVERRIDES", true).Some?
            && ReadsValue(m, ov, "OVERRIDES", Some([] + text))
  {
    var m := ListFromB(OLD_TEXT, VARIANTS_OF_B);
    assert "B" in VARIANTS_OF_B;
    ChosenIsRecorded(m, ov, "B");
    text := if Chosen(m, ov, "B").Some? then VARIANT_TEXT else OLD_TEXT;
    if Chosen(m, ov, "B").Some? {
      if "x" !in ov {
        OneInactive(Variant("B:x", "x"), ov);
      }
      assert EntryOf(m, "B") == Plainly(OLD_TEXT);
      ChosenReads(m, ov, "B", "B:x", text);
    } else {
      TextReads(m, ov, 2, "B", true, text);
    }
    ListIsB(m, ov, 2, text);
  }

  /** Under a list with x, OVERRIDES gives a list without it. */
  lemma VariantList(active: seq<string>)
    requires "x" in active
    ensures !FixedPoint(ListFromB(OLD_TEXT, VARIANTS_OF_B), active)
  {
    var m := ListFromB(OLD_TEXT, VARIANTS_OF_B);
    var text := OldReads(active);
    OneCharList('o');
    OneCharList('v');
    if FixedPoint(m, active) {
      ListIsOne(m, active, active, OverrideList(Some([] + text)));
    }
  }

  /** B is assigned while it has a variant that is not active and no list is computed. B and OVERRIDES are then
      cached with their old values, and the condition for a right cache does not hold under any list. */
  lemma FirstInput(vars: set<string>)
    requires "B" in vars
    ensures var m := ListFromB(OLD_TEXT, VARIANTS_OF_B);
            var m' := AfterSetVar(m, "B", NEW_TEXT, false, ["o"]);
            && LongerNames(m.variants) && LongerNames(m'.variants) && NoRemoves(m) && NoRemoves(m')
            && (forall active :: FixedPoint(Cleared(m, "B", false), active) <==> active == ["o"])
            && {"B", "OVERRIDES"} <= OnTheWay(m, "B", false, None, ["o"])
            && ReadsValue(m, ["o"], "B", Some(OLD_TEXT)) && (forall ov :: ReadsValue(m', ov, "B", Some(NEW_TEXT)))
            && (forall ov :: !RightAt(m, m', "B", NEW_TEXT, false, None, ["o"], vars, ov))
  {
    var m := ListFromB(OLD_TEXT, VARIANTS_OF_B);
    var m' := ListFromB(NEW_TEXT, map[]);
    AssignB();
    FirstShape(OLD_TEXT, VARIANTS_OF_B);
    FirstShape(NEW_TEXT, map[]);
    forall active ensures FixedPoint(m, active) <==> active == ["o"] {
      OldListIsFixed(active);
    }
    ListFromBReads(OLD_TEXT, VARIANTS_OF_B, ["o"]);
    forall ov ensures ReadsValue(m', ov, "B", Some(NEW_TEXT)) {
      ListFromBReads(NEW_TEXT, map[], ov);
    }
    FirstIsWrong(m, m', vars);
  }

  lemma FirstShape(text: Value, variants: VariantMap)
    requires variants == map[] || variants == VARIANTS_OF_B
    ensures LongerNames(ListFromB(text, variants).variants) && NoRemoves(ListFromB(text, variants))
  {
    var m := ListFromB(text, variants);
    assert forall k | k in m.vars :: m.vars[k].removes == [];
    assert |"B:x"| > |"B"|;
  }

  lemma FirstIsWrong(m: View, m': View, vars: set<string>)
    requires m == ListFromB(OLD_TEXT, VARIANTS_OF_B) && m' == ListFromB(NEW_TEXT, map[])
    requires "B" in vars && FindKeyword("B", 0).None? && LongerNames(m.variants) && LongerNames(m'.variants)
    requires Cleared(m, "B", false) == m && ActiveNames(m.variants["B"], ["o"]) == []
    ensures {"B", "OVERRIDES"} <= OnTheWay(m, "B", false, None, ["o"])
    ensures forall ov :: !RightAt(m, m', "B", NEW_TEXT, false, None, ["o"], vars, ov)
  {
    ListFromBReads(OLD_TEXT, VARIANTS_OF_B, ["o"]);
    var kept := OnTheWay(m, "B", false, None, ["o"]);
    ThroughClosed(m, ["o"], {}, {"OVERRIDES"});
    RefIsNext(m, ["o"], "OVERRIDES", [], "B");
    assert ClosedAt(m, ["o"], kept, "OVERRIDES");
    forall ov ensures !RightAt(m, m', "B", NEW_TEXT, false, None, ["o"], vars, ov) {
      ListFromBReads(NEW_TEXT, map[], ov);
      ReadsApart(m, ["o"], m', ov, "B", Some(OLD_TEXT), Some(NEW_TEXT), kept);
    }
  }

  // ---------------------------------------------------------------- the new value is expanded under the old list

  const ONE: Value := [Ch('1')]
  const ZERO: Value := [Ch('0')]
  const LIST_WITH_C: Value := [Ch('b'), Ch(':')] + [Ref("C")]

  /** C is 0, and 1 where a is active. */
  function TwoValuesOfC(list: Value): View {
    View(map["OVERRIDES" := Plainly(list), "C" := Plainly(ZERO), "C:a" := Plainly(ONE)],
         map["C" := [Variant("C:a", "a")]])
  }

  /** OVERRIDES is `a` under every list. */
  lemma ListIsA(ov: seq<string>)
    ensures ListUnder(TwoValuesOfC([Ch('a')]), ov, ["a"])
    ensures Eval(TwoValuesOfC([Ch('a')]), ov, 1, "OVERRIDES", true).Some?
  {
    var m, a: Value := TwoValuesOfC([Ch('a')]), [Ch('a')];
    TextReads(m, ov, 1, "OVERRIDES", true, a);
    OneCharList('a');
    assert [] + a == a;
    assert Reads(m, ov, "OVERRIDES", true, TextRead(a));
  }

  lemma CUnderA(list: Value)
    ensures ReadsValue(TwoValuesOfC(list), ["a"], "C", Some(ONE)) && TextAt(TwoValuesOfC(list), ["a"], 2, "C")
  {
    var m := TwoValuesOfC(list);
    OneActive(Variant("C:a", "a"));
    assert EntryOf(m, "C") == Plainly(ZERO);
    ChosenReads(m, ["a"], "C", "C:a", ONE);
    ReadingIs(m, ["a"], 2, "C", Read(Some(ONE), Parser(Some(ONE), {}, {})));
  }

  lemma CElsewhere(list: Value, ov: seq<string>)
    requires "a" !in ov
    ensures var r := Read(Some(ZERO), Parser(Some(ZERO), {}, {}));
            Eval(TwoValuesOfC(list), ov, 1, "C", true) == Some(r) && ReadsValue(TwoValuesOfC(list), ov, "C", Some(ZERO))
  {
    var m := TwoValuesOfC(list);
    OneInactive(Variant("C:a", "a"), ov);
    TextReads(m, ov, 1, "C", true, ZERO);
    ReadingIs(m, ov, 1, "C", Read(Some(ZERO), Parser(Some(ZERO), {}, {})));
  }

  lemma AssignList()
    ensures var m := TwoValuesOfC([Ch('a')]);
            FindKeyword("OVERRIDES", 0).None? && forall ov ::
              AfterSetVar(m, "OVERRIDES", LIST_WITH_C, false, ov) == TwoValuesOfC(LIST_WITH_C)
  {
    var m := TwoValuesOfC([Ch('a')]);
    NoColonNoKeyword("OVERRIDES", 0);
    forall ov ensures AfterSetVar(m, "OVERRIDES", LIST_WITH_C, false, ov) == TwoValuesOfC(LIST_WITH_C) {
      assert AfterSetVar(m, "OVERRIDES", LIST_WITH_C, false, ov).vars == TwoValuesOfC(LIST_WITH_C).vars;
    }
  }

  /** The new list, b and 0, is what OVERRIDES evaluates to under every list without a. */
  lemma NewList(ov: seq<string>)
    requires "a" !in ov
    ensures ListUnder(TwoValuesOfC(LIST_WITH_C), ov, ["b", "0"])
  {
    var m, pre := TwoValuesOfC(LIST_WITH_C), [Ch('b'), Ch(':')];
    CElsewhere(LIST_WITH_C, ov);
    RefReads(m, ov, 1, "OVERRIDES", pre, "C", Read(Some(ZERO), Parser(Some(ZERO), {}, {})), ZERO);
    var v := pre + ZERO;
    ReadingIs(m, ov, 2, "OVERRIDES", Read(Some(LIST_WITH_C), Parser(Some(v), {"C"}, {})));
    var b := [Ch('b')];
    assert b[..0] == [] && pre[..1] == b && v[..2] == pre && pre[1] == Ch(':') && v[2] == Ch('0');
    assert Render(b) == Render([]) + "b" == "b";
    assert Render(pre) == Render(b) + ":";
    assert Render(v) == Render(pre) + "0";
    assert Render(v) == "b" + ":" + "0";
    SplitOfPlain("0", ':');
    SplitStep("b", "0", ':');
  }

  /** C reads as 1 under the old list and as 0 under the new one. */
  lemma CReadsApart(m: View)
    requires m == TwoValuesOfC(LIST_WITH_C)
    ensures Reached(m, ["b", "0"])
    ensures ReadsValue(m, ["a"], "C", Some(ONE)) && ReadsValue(m, ["b", "0"], "C", Some(ZERO))
  {
    NewList([]);
    NewList(["b", "0"]);
    ListSettles(m, ["b", "0"]);
    CUnderA(LIST_WITH_C);
    CElsewhere(LIST_WITH_C, ["b", "0"]);
  }

  lemma TrackingReadsC(m: View)
    requires m == TwoValuesOfC(LIST_WITH_C) && LongerNames(m.variants)
    ensures var refs := Refs(LIST_WITH_C);
            refs != {} && !ReadAlike(m, ["a"], m, ["b", "0"], ReadThrough(m, ["a"], {}, {} + refs))
  {
    CUnderA(LIST_WITH_C);
    CElsewhere(LIST_WITH_C, ["b", "0"]);
    var refs := Refs(LIST_WITH_C);
    assert LIST_WITH_C[2] == Ref("C") && "C" in refs;
    ThroughClosed(m, ["a"], {}, {} + refs);
    ReadsApart(m, ["a"], m, ["b", "0"], "C", Some(ONE), Some(ZERO), ReadThrough(m, ["a"], {}, {} + refs));
  }

  lemma SecondShape(list: Value)
    ensures LongerNames(TwoValuesOfC(list).variants) && NoRemoves(TwoValuesOfC(list))
  {
    var m := TwoValuesOfC(list);
    assert forall k | k in m.vars :: m.vars[k].removes == [];
    assert |"C:a"| > |"C"|;
  }

  lemma SecondIsWrong(m: View, m': View, active: seq<string>, vars: set<string>)
    requires m == TwoValuesOfC([Ch('a')]) && m' == TwoValuesOfC(LIST_WITH_C) && "OVERRIDES" in vars
    requires LongerNames(m.variants) && LongerNames(m'.variants) && FindKeyword("OVERRIDES", 0).None?
    ensures OnTheWay(m, "OVERRIDES", false, Some(["a"]), active) == {}
    ensures !RightAt(m, m', "OVERRIDES", LIST_WITH_C, false, Some(["a"]), active, vars, ["b", "0"])
  {
    TrackingReadsC(m');
  }

  /** OVERRIDES is assigned a value that refers to C, under the list a. C is then cached as 1, which it is no longer
      under the new list, and the condition for a right cache does not hold under that. */
  lemma SecondInput(active: seq<string>, vars: set<string>)
    requires "OVERRIDES" in vars
    ensures var m := TwoValuesOfC([Ch('a')]);
            var m' := AfterSetVar(m, "OVERRIDES", LIST_WITH_C, false, active);
            && LongerNames(m.variants) && LongerNames(m'.variants) && NoRemoves(m) && NoRemoves(m')
            && OnTheWay(m, "OVERRIDES", false, Some(["a"]), active) == {}
            && Reached(m', ["b", "0"])
            && ReadsValue(m', ["a"], "C", Some(ONE)) && ReadsValue(m', ["b", "0"], "C", Some(ZERO))
            && !RightAt(m, m', "OVERRIDES", LIST_WITH_C, false, Some(["a"]), active, vars, ["b", "0"])
  {
    var m, m' := TwoValuesOfC([Ch('a')]), TwoValuesOfC(LIST_WITH_C);
    AssignList();
    SecondShape([Ch('a')]);
    SecondShape(LIST_WITH_C);
    CReadsApart(m');
    SecondIsWrong(m, m', active, vars);
  }

  // ---------------------------------------------------------------- the list depends on a name that is not tracked

  /** OVERRIDES is `${A}`, A is `${B}`, and B is one letter. */
  function ListThroughA(c: char): View {
    View(map["B" := Plainly([Ch(c)]), "A" := Plainly([] + [Ref("B")]), "OVERRIDES" := Plainly([] + [Ref("A")])], map[])
  }

  /** B is defined, and its letter is the list. */
  lemma ListIsLetter(c: char, ov: seq<string>)
    requires c != ':'
    ensures ListUnder(ListThroughA(c), ov, [[c]])
    ensures Reads(ListThroughA(c), ov, "B", true, TextRead([Ch(c)]))
    ensures TextAt(ListThroughA(c), ov, 2, "A") && Eval(ListThroughA(c), ov, 3, "OVERRIDES", true).Some?
  {
    var m, text: Value := ListThroughA(c), [Ch(c)];
    TextReads(m, ov, 1, "B", true, text);
    RefReads(m, ov, 1, "A", [], "B", TextRead(text), text);
    var a := Read(Some([] + [Ref("B")]), Parser(Some([] + text), {"B"}, {}));
    assert [] + text == text;
    RefReads(m, ov, 2, "OVERRIDES", [], "A", a, text);
    var r := Read(Some([] + [Ref("A")]), Parser(Some([] + text), {"A"}, {}));
    assert Reads(m, ov, "OVERRIDES", true, r);
    OneCharList(c);
  }

  /** The letter alone is the only list there is. */
  lemma LetterIsFixed(c: char, list: seq<string>)
    requires c != ':'
    ensures FixedPoint(ListThroughA(c), list) <==> list == [[c]]
  {
    ListIsLetter(c, list);
    if FixedPoint(ListThroughA(c), list) {
      ListIsOne(ListThroughA(c), list, list, [[c]]);
    }
  }

  /** B is not among names that are undefined. */
  lemma LetterIsDefined(c: char, names: set<string>)
    requires c != ':' && FoundUndefined(ListThroughA(c), names)
    ensures "B" !in names
  {
    var m := ListThroughA(c);
    var ov: seq<string> :| AllUndefined(m, Some(ov), names);
    ListIsLetter(c, ov);
    if "B" in names {
      assert Under(Some(ov), ov);
      ReadsOne(m, ov, "B", true, TextRead([Ch(c)]), UNDEFINED);
    }
  }
}
