/** What a read gives, put together from what was written: references stand for what reading them gives,
    a default counts where nothing is assigned, and an assignment keeps or clears what was queued. */
module ReadValues {
  import opened Wrappers
  import opened Text
  import opened Overrides
  import opened Store
  import opened Updates
  import opened ReadGraph
  import opened Removals
  import opened QueuedReads
  import Dependencies

  // ---------------------------------------------------------------- references

  /** Characters stand for themselves, references for the value of the variable or, without one, for themselves. */
  ghost predicate StandsFor(m: View, ov: seq<string>, t: Tok, w: Value) {
    match t
    case Ch(_) => w == [t]
    case Ref(x) => exists v :: ReadsValue(m, ov, x, v) && w == if v.Some? then v.value else [t]
  }

  function Flat(parts: seq<Value>): Value {
    if parts == [] then [] else parts[0] + Flat(parts[1..])
  }

  /** Part by part, what the text stands for. */
  ghost predicate Spelled(m: View, ov: seq<string>, v: Value, parts: seq<Value>) {
    |parts| == |v| && forall i | 0 <= i < |v| :: StandsFor(m, ov, v[i], parts[i])
  }

  lemma {:induction false} FlatAppend(a: seq<Value>, w: Value)
    ensures Flat(a + [w]) == Flat(a) + w
  {
    if a == [] {
      assert [w][1..] == [] && a + [w] == [w];
    } else {
      assert (a + [w])[1..] == a[1..] + [w];
      FlatAppend(a[1..], w);
    }
  }

  lemma {:induction false} PassIsSpelled(m: View, ov: seq<string>, n: nat, self: Option<string>, v: Value)
    returns (parts: seq<Value>)
    requires Pass(m, ov, n, self, v).Some?
    ensures Spelled(m, ov, v, parts) && Pass(m, ov, n, self, v) == Some(Flat(parts))
    ensures self.Some? ==> Ref(self.value) !in v
  {
    parts := [];
    if v != [] {
      var t := v[|v| - 1];
      parts := PassIsSpelled(m, ov, n, self, v[..|v| - 1]);
      var w := [t];
      if t.Ref? {
        var r := Eval(m, ov, n, t.name, true).value;
        assert Reads(m, ov, t.name, true, r);
        assert ReadsValue(m, ov, t.name, r.parser.value);
        w := Substitute(t.name, r);
      }
      assert StandsFor(m, ov, t, w);
      FlatAppend(parts, w);
      parts := parts + [w];
    }
  }

  lemma ExpansionIsSpelled(m: View, ov: seq<string>, self: Option<string>, v: Value, e: Expansion)
    returns (parts: seq<Value>)
    requires Expands(m, ov, self, v, e)
    ensures Spelled(m, ov, v, parts) && e == Expansion(Flat(parts), Refs(v) + Refs(Flat(parts)))
    ensures self.Some? ==> Ref(self.value) !in v
  {
    var n: nat :| Expand(m, ov, n, self, v) == Some(e);
    ExpansionIsPass(m, ov, n, self, v);
    parts := PassIsSpelled(m, ov, n, self, v);
    assert Refs(v) + Refs(v) == Refs(v);
  }

  /** A read that gives a value: its unexpanded text does not mention the variable, each part of it stands for
      what reading gives, and the words of the removals that apply are cut out of that. */
  lemma ReadIsSpelled(m: View, ov: seq<string>, k: string, exp: bool, r: Read) returns (sub: Read, parts: seq<Value>)
    requires Reads(m, ov, k, exp, r) && r.parser.value.Some?
    ensures r.raw.Some? && Ref(k) !in r.raw.value && Spelled(m, ov, r.raw.value, parts)
    ensures r.parser.references == Refs(r.raw.value) + Refs(Flat(parts))
    ensures ReadsChosen(m, ov, k, sub) && CutsOut(Flat(parts), Removable(m, ov, k, sub), r.parser.value.value)
    ensures WordList(r.parser.value.value) == Staying(WordList(Flat(parts)), Removable(m, ov, k, sub))
  {
    var raw: Value, x: Expansion;
    sub, raw, x := ReadParts(m, ov, k, exp, r);
    ReadCuts(m, ov, k, exp, sub, raw, x, r);
    parts := ExpansionIsSpelled(m, ov, Some(k), raw, x);
  }

  // ---------------------------------------------------------------- the text of a value

  function Chars(s: string): Value {
    seq(|s|, i requires 0 <= i < |s| => Ch(s[i]))
  }

  lemma {:induction false} RenderChars(s: string)
    ensures Render(Chars(s)) == s
  {
    if s != "" {
      RenderChars(s[..|s| - 1]);
      assert Chars(s)[..|s| - 1] == Chars(s[..|s| - 1]);
    }
  }

  lemma {:induction false} RenderAppend(v: Value, w: Value)
    ensures Render(v + w) == Render(v) + Render(w)
  {
    if w == [] {
      assert v + w == v;
    } else {
      assert (v + w)[..|v + w| - 1] == v + w[..|w| - 1];
      RenderAppend(v, w[..|w| - 1]);
    }
  }

  /** A list is read back from its names between colons. */
  lemma ListOfNames(names: seq<string>)
    requires names != [] && forall o | o in names :: ':' !in o
    ensures OverrideList(Some(Chars(Join(names, ':')))) == names && OverrideList(None) == [""]
  {
    RenderChars(Join(names, ':'));
    SplitJoin(names, ':');
  }

  lemma RenderReference(x: string)
    ensures Render([Ref(x)]) == "${" + x + "}"
  {
    assert [Ref(x)][..0] == [];
  }

  // ---------------------------------------------------------------- assignments

  lemma GivenWhileParsing(m: View, name: string, x: Value, active: seq<string>)
    requires FindKeyword(name, 0).None?
    ensures var a := AfterSetVar(m, name, x, true, active);
            && a.variants == (if ':' in name then Record(m.variants, name) else m.variants)
            && a.vars == m.vars[name := EntryOf(m, name).(content := Some(x))]
  {
    var c := Cleared(m, name, true);
    var e := EntryOf(m, name).(content := Some(x));
    assert c.vars[name := e] == m.vars[name := e];
  }

  /** While parsing, an assignment replaces the content and nothing else; what is queued or recorded stays. */
  lemma AssignedWhileParsing(m: View, name: string, x: Value, active: seq<string>)
    requires FindKeyword(name, 0).None?
    ensures var m' := AfterSetVar(m, name, x, true, active);
            && EntryOf(m', name) == EntryOf(m, name).(content := Some(x))
            && (forall k | k != name :: EntryOf(m', k) == EntryOf(m, k))
            && (forall k, v | k in m.variants && v in m.variants[k] :: k in m'.variants && v in m'.variants[k])
  {
    var m' := AfterSetVar(m, name, x, true, active);
    forall k, v | k in m.variants && v in m.variants[k] ensures k in m'.variants && v in m'.variants[k] {
      RecordOnlyAdds(m.variants, name, k, v);
    }
  }

  lemma {:induction false} RecordFromOnlyAdds(variants: VariantMap, name: string, suffix: string, base: string,
                                              k: string, v: Variant)
    requires |base| <= |name| && k in variants && v in variants[k]
    ensures var r := RecordFrom(variants, name, suffix, base); k in r && v in r[k]
    decreases |base|
  {
    if StartsName(suffix) {
      var i := RFind(base, ':');
      if i > 0 {
        var added := AddVariant(variants, base, Variant(name, suffix));
        RecordFromOnlyAdds(added, name, OverrideAt(name, i), base[..i], k, v);
      }
    }
  }

  lemma RecordOnlyAdds(variants: VariantMap, name: string, k: string, v: Variant)
    requires k in variants && v in variants[k]
    ensures var r := Record(variants, name); k in r && v in r[k]
  {
    var i := RFind(name, ':');
    RecordFromOnlyAdds(variants, name, OverrideAt(name, i), BaseAt(name, i), k, v);
  }

  /** While parsing it does not matter whether the operation or the assignment comes first. */
  lemma QueueAndAssign(m: View, op: string, t: Target, x: Value, y: Value, active: seq<string>)
    requires FindKeyword(op, 0) == Some(t) && FindKeyword(t.base, 0).None?
    ensures AfterSetVar(AfterSetVar(m, op, x, true, active), t.base, y, true, active) ==
            AfterSetVar(AfterSetVar(m, t.base, y, true, active), op, x, true, active)
  {
    var queued, e := AfterSetVar(m, op, x, true, active), EntryOf(m, t.base);
    GivenWhileParsing(m, t.base, y, active);
    GivenWhileParsing(queued, t.base, y, active);
    var both := AddOp(e, t.keyword, Op(x, t.cond)).(content := Some(y));
    assert both == AddOp(e.(content := Some(y)), t.keyword, Op(x, t.cond));
    assert AfterSetVar(queued, t.base, y, true, active).vars == m.vars[t.base := both];
  }

  /** Without variants and queued operations the value is what was assigned. */
  lemma AssignedIsBase(m: View, name: string, x: Value, active: seq<string>, ov: seq<string>)
    requires FindKeyword(name, 0).None? && LongerNames(m.variants) && Chosen(m, ov, name).None?
    requires EntryOf(m, name).appends == [] && EntryOf(m, name).prepends == []
    ensures var m' := AfterSetVar(m, name, x, true, active);
            LongerNames(m'.variants) && Raw(m', ov, name) == Some(x)
  {
    GivenWhileParsing(m, name, x, active);
    RecordKeeps(m.variants, name);
    RecordAbove(m.variants, name, name);
  }

  /** One of the variants of the variable that the list makes active. */
  ghost predicate IsActiveVariant(m: View, name: string, active: seq<string>, k: string) {
    name in m.variants && exists v | v in m.variants[name] :: v.name == k && IsActive(v.suffix, active)
  }

  lemma ActiveVariantsGo(m: View, name: string, active: seq<string>)
    requires LongerNames(m.variants)
    ensures !IsActiveVariant(m, name, active, name)
    ensures forall k :: EntryOf(WithoutActive(m, name, active), k) ==
                        if IsActiveVariant(m, name, active, k) then NO_ENTRY else EntryOf(m, k)
  {
    if name in m.variants {
      var known := m.variants[name];
      ActiveNamesAre(known, active);
      AllDeletedKeeps(m, ActiveNames(known, active));
      assert LongerThan(known, name);
      var d := AllDeleted(m, ActiveNames(known, active));
      forall k ensures EntryOf(WithoutActive(m, name, active), k) ==
                       if IsActiveVariant(m, name, active, k) then NO_ENTRY else EntryOf(m, k)
      {
        assert EntryOf(WithoutActive(m, name, active), k) == EntryOf(d, k);
        assert k in ActiveNames(known, active) <==> IsActiveVariant(m, name, active, k);
      }
    }
  }

  /** Otherwise it takes away what is queued and the active variants, and keeps default and flags. */
  lemma AssignedAfterParsing(m: View, name: string, x: Value, active: seq<string>)
    requires FindKeyword(name, 0).None? && LongerNames(m.variants)
    ensures var m', e := AfterSetVar(m, name, x, false, active), EntryOf(m, name);
            && EntryOf(m', name) == Entry(Some(x), e.weak, [], [], [], e.flags)
            && forall k | k != name ::
                 EntryOf(m', k) == if IsActiveVariant(m, name, active, k) then NO_ENTRY else EntryOf(m, k)
  {
    var c, m' := Cleared(m, name, false), AfterSetVar(m, name, x, false, active);
    ActiveVariantsGo(c, name, active);
    forall k | k != name
      ensures EntryOf(m', k) == if IsActiveVariant(m, name, active, k) then NO_ENTRY else EntryOf(m, k)
    {
      assert EntryOf(m', k) == EntryOf(WithoutActive(c, name, active), k);
      assert IsActiveVariant(c, name, active, k) <==> IsActiveVariant(m, name, active, k);
    }
  }

  // ---------------------------------------------------------------- defaults and flags

  /** The stores differ in the entry of name only, and in what is recorded for shorter names. */
  ghost predicate SameChoiceAt(m: View, m': View, ov: seq<string>, name: string) {
    && LongerNames(m.variants) && LongerNames(m'.variants) && SameFrom(m, m', ov, |name|)
    && Chosen(m', ov, name) == Chosen(m, ov, name)
  }

  lemma SameChosenRaw(m: View, m': View, ov: seq<string>, name: string)
    requires SameChoiceAt(m, m', ov, name)
    ensures RawOfChosen(m', ov, name) == RawOfChosen(m, ov, name)
  {
    if Chosen(m, ov, name).Some? {
      ChosenLonger(m, ov, name);
      SameRaw(m, m', ov, |name|, Chosen(m, ov, name).value);
    }
  }

  lemma DefaultLeaves(m: View, name: string, x: Value, ov: seq<string>)
    requires LongerNames(m.variants)
    ensures SameChoiceAt(m, AfterFlag(m, name, "_defaultval", x), ov, name)
  {
    var d := AfterFlag(m, name, "_defaultval", x);
    RecordKeeps(m.variants, name);
    forall k | |k| >= |name| ensures Chosen(d, ov, k) == Chosen(m, ov, k) {
      RecordAbove(m.variants, name, k);
    }
  }

  /** A default does not count where something is assigned. */
  lemma DefaultIsHidden(m: View, name: string, x: Value, ov: seq<string>)
    requires LongerNames(m.variants) && EntryOf(m, name).content.Some?
    ensures var m' := AfterFlag(m, name, "_defaultval", x);
            LongerNames(m'.variants) && Raw(m', ov, name) == Raw(m, ov, name)
  {
    DefaultLeaves(m, name, x, ov);
    RawByEntry(m, AfterFlag(m, name, "_defaultval", x), name, ov);
  }

  lemma RawByEntry(d: View, a: View, name: string, ov: seq<string>)
    requires SameChoiceAt(d, a, ov, name)
    requires EntryOf(a, name).appends == EntryOf(d, name).appends
    requires EntryOf(a, name).prepends == EntryOf(d, name).prepends && Base(EntryOf(a, name)) == Base(EntryOf(d, name))
    ensures Raw(d, ov, name) == Raw(a, ov, name)
  {
    var sub := Read(RawOfChosen(d, ov, name), UNDEFINED.parser);
    SameChosenRaw(d, a, ov, name);
    RawParts(d, ov, name, sub);
    RawParts(a, ov, name, sub);
  }

  /** Elsewhere it counts like an assignment while parsing. */
  lemma DefaultCounts(m: View, name: string, x: Value, active: seq<string>, ov: seq<string>)
    requires LongerNames(m.variants) && EntryOf(m, name).content.None? && FindKeyword(name, 0).None?
    ensures var d, a := AfterFlag(m, name, "_defaultval", x), AfterSetVar(m, name, x, true, active);
            LongerNames(d.variants) && d.variants == a.variants && Raw(d, ov, name) == Raw(a, ov, name)
  {
    var d, a := AfterFlag(m, name, "_defaultval", x), AfterSetVar(m, name, x, true, active);
    DefaultLeaves(m, name, x, ov);
    GivenWhileParsing(m, name, x, active);
    RawByEntry(d, a, name, ov);
  }

  /** Any other flag is read back, and no value depends on it. */
  lemma FlagIsKept(m: View, name: string, flag: string, x: Value)
    requires IsTextFlag(flag) && flag != "_defaultval" && flag != "_content"
    ensures var m', e := AfterFlag(m, name, flag, x), EntryOf(m, name);
            && m'.variants == m.variants && (forall k | k != name :: EntryOf(m', k) == EntryOf(m, k))
            && EntryOf(m', name).(flags := e.flags) == e
            && EntryOf(m', name).flags.Keys == e.flags.Keys + {flag} && EntryOf(m', name).flags[flag] == x
            && forall f | f in e.flags && f != flag :: EntryOf(m', name).flags[f] == e.flags[f]
  {
  }

  // ---------------------------------------------------------------- dependencies

  /** What a readable variable depends on: the references of its unexpanded text, those left in the expanded
      text, and what is added for it. */
  lemma DependenciesAre(s: Dependencies.Source, k: string, r: Read) returns (parts: seq<Value>)
    requires Reads(s.m, s.overrides, k, false, r) && r.parser.value.Some?
    ensures r.raw.Some? && Spelled(s.m, s.overrides, r.raw.value, parts)
    ensures forall x :: x in Dependencies.DepsIn(s, k) <==>
              Ref(x) in r.raw.value || Ref(x) in Flat(parts) || (k in s.extra && x in s.extra[k])
  {
    var sub: Read;
    sub, parts := ReadIsSpelled(s.m, s.overrides, k, false, r);
    Dependencies.ReadInIs(s, k, r);
  }
}
