/** How long an assignment lasts: exactly for which names the unexpanded value
    stays what was assigned, whatever is written elsewhere afterwards. */
module Sticky {
  import opened Wrappers
  import opened Text
  import opened Overrides
  import opened OverridesProperties
  import opened Store
  import opened Updates
  import opened LiveReads

  datatype Write =
    | Assign(name: string, value: Value, parsing: bool)
    | Delete(name: string)
    | SetFlag(name: string, flag: string, value: Value)

  /** The contents after a write; overrides is the list active at that moment. */
  function Apply(m: View, w: Write, overrides: seq<string>): View {
    match w
    case Assign(name, value, parsing) => AfterSetVar(m, name, value, parsing, overrides)
    case Delete(name) => Deleted(m, name)
    case SetFlag(name, flag, value) => AfterFlag(m, name, flag, value)
  }

  /** The write is to v itself or to a name `v:...`. */
  predicate Touches(w: Write, v: string) {
    w.name == v || StartsWith(w.name, v + ":")
  }

  /** A run of writes, each with the override list active at its time. */
  type Run = seq<(Write, seq<string>)>

  function ApplyAll(m: View, run: Run): View {
    if run == [] then m
    else Apply(ApplyAll(m, run[..|run| - 1]), run[|run| - 1].0, run[|run| - 1].1)
  }

  /** The run does the writes in order, as far as it goes. */
  ghost predicate Begins(run: Run, ws: seq<Write>) {
    |run| <= |ws| && forall i | 0 <= i < |run| :: run[i].0 == ws[i]
  }

  /** Every write is one of the run, in order. */
  ghost predicate IsRunOf(run: Run, ws: seq<Write>) {
    |run| == |ws| && Begins(run, ws)
  }

  lemma ApplyOneMore(m: View, run: Run, w: Write, active: seq<string>)
    ensures ApplyAll(m, run + [(w, active)]) == Apply(ApplyAll(m, run), w, active)
  {
    var longer := run + [(w, active)];
    assert longer[..|longer| - 1] == run;
  }

  /** The writes are to other variables. */
  ghost predicate Elsewhere(run: Run, v: string) {
    forall s | s in run :: !Touches(s.0, v) && (s.0.SetFlag? ==> IsTextFlag(s.0.flag))
  }

  /** What recording leaves behind: every variant has a colon in its name, or
      starts like an override. */
  ghost predicate VariantNames(variants: VariantMap) {
    forall k | k in variants :: KnownNames(variants[k])
  }

  ghost predicate KnownNames(known: seq<Variant>) {
    forall v | v in known :: ':' in v.name || StartsName(v.name)
  }

  ghost predicate Holds(m: View, v: string, x: Value) {
    var e := EntryOf(m, v);
    v !in m.variants && e.content == Some(x) && e.appends == [] && e.prepends == []
  }

  lemma HeldIsRead(m: View, v: string, x: Value, overrides: seq<string>)
    requires Holds(m, v, x)
    ensures ReadsRaw(m, overrides, v, Some(x))
  {
    assert ReadsChosen(m, overrides, v, UNDEFINED);
    assert Assemble(m, overrides, v, UNDEFINED) == Some(x);
  }

  // ---------------------------------------------------------------- what recording touches

  /** Recording name adds only to proper prefixes of name that are followed by a colon. */
  lemma {:induction false} RecordFromTouches(variants: VariantMap, name: string, suffix: string, base: string)
    requires |base| < |name| && StartsWith(name, base + ":")
    ensures var r := RecordFrom(variants, name, suffix, base);
            && (forall k | k in r && k !in variants :: StartsWith(name, k + ":"))
            && (':' in name && VariantNames(variants) ==> VariantNames(r))
    decreases |base|
  {
    if StartsName(suffix) {
      var v := Variant(name, suffix);
      var added := AddVariant(variants, base, v);
      var i := RFind(base, ':');
      if i > 0 {
        var shorter := base[..i];
        StartsShorter(name, base, i);
        RecordFromTouches(added, name, OverrideAt(name, i), shorter);
      }
    }
  }

  lemma StartsShorter(name: string, base: string, i: nat)
    requires StartsWith(name, base + ":") && i < |base| && base[i] == ':'
    ensures StartsWith(name, base[..i] + ":")
  {
    assert name[..i + 1] == (base + ":")[..i + 1];
    assert (base + ":")[..i + 1] == base[..i] + ":";
  }

  lemma RecordTouches(variants: VariantMap, name: string, v: string)
    requires ':' !in v && v != name && !StartsWith(name, v + ":")
    requires !StartsName(v) && v != ""
    requires VariantNames(variants)
    ensures VariantNames(Record(variants, name))
    ensures v in Record(variants, name) ==> v in variants
  {
    var i := RFind(name, ':');
    if i >= 0 {
      assert name[..i + 1] == name[..i] + ":";
      RecordFromTouches(variants, name, OverrideAt(name, i), BaseAt(name, i));
    } else if StartsName(name) {
      // the whole name is taken for an override of the name without its last character
      var base := BaseAt(name, i);
      assert base[..|base|] == base;
      assert forall j | 0 <= j < |base| :: base[j] == name[j] != ':';
      assert base != v;
    }
  }

  lemma ForgetTouches(variants: VariantMap, name: string)
    requires VariantNames(variants)
    ensures VariantNames(Forget(variants, name)) && Forget(variants, name).Keys == variants.Keys
  {
    var i := RFind(name, ':');
    if i >= 0 {
      ForgetFromKeeps(variants, name, OverrideAt(name, i), BaseAt(name, i));
    }
  }

  // ---------------------------------------------------------------- one write

  lemma DeleteKeeps(m: View, name: string, v: string, x: Value)
    requires VariantNames(m.variants) && Holds(m, v, x) && name != v
    ensures VariantNames(Deleted(m, name).variants) && Holds(Deleted(m, name), v, x)
  {
    ForgetTouches(m.variants - {name}, name);
  }

  lemma {:induction false} DeleteAllKeeps(m: View, names: seq<string>, v: string, x: Value)
    requires VariantNames(m.variants) && Holds(m, v, x) && v !in names
    ensures VariantNames(AllDeleted(m, names).variants) && Holds(AllDeleted(m, names), v, x)
  {
    if names != [] {
      DeleteAllKeeps(m, names[..|names| - 1], v, x);
      DeleteKeeps(AllDeleted(m, names[..|names| - 1]), names[|names| - 1], v, x);
    }
  }

  lemma KeywordIsColon(name: string, i: nat)
    requires i <= |name|
    ensures forall w | KeywordAt(name, i, w) :: i < |name| && name[i] == ':'
  {
    forall w | KeywordAt(name, i, w) ensures i < |name| && name[i] == ':' {
      assert name[i + 0] == KeywordText(w)[0];
    }
  }

  lemma {:induction false} KeywordBase(name: string, i: nat)
    requires i <= |name|
    ensures var t := FindKeyword(name, i);
            t.Some? ==> |t.value.base| < |name| && StartsWith(name, t.value.base + ":")
    decreases |name| - i
  {
    KeywordIsColon(name, i);
    if i < |name| && name[i] == ':' {
      assert name[..i + 1] == name[..i] + ":";
    }
    if FindKeyword(name, i).Some? && !KeywordAt(name, i, Append) && !KeywordAt(name, i, Prepend)
       && !KeywordAt(name, i, Remove) && i < |name| {
      KeywordBase(name, i + 1);
    }
  }

  lemma AssignKeeps(m: View, name: string, value: Value, parsing: bool, overrides: seq<string>, v: string, x: Value)
    requires VariantNames(m.variants) && Holds(m, v, x)
    requires v != "" && ':' !in v && !StartsName(v) && v != name && !StartsWith(name, v + ":")
    ensures VariantNames(AfterSet(m, name, value, parsing, overrides).variants)
    ensures Holds(AfterSet(m, name, value, parsing, overrides), v, x)
  {
    var c := Cleared(m, name, parsing);
    assert Holds(c, v, x);
    var d := if parsing then c else WithoutActive(c, name, overrides);
    if !parsing && name in c.variants {
      var active := ActiveNames(c.variants[name], overrides);
      ActiveNamesAre(c.variants[name], overrides);
      forall r | r in c.variants[name] ensures r.name != v {
        assert ':' in r.name || StartsName(r.name);
      }
      DeleteAllKeeps(c, active, v, x);
    }
    RecordTouches(d.variants, name, v);
  }

  lemma QueueKeeps(m: View, t: Target, name: string, value: Value, v: string, x: Value)
    requires VariantNames(m.variants) && Holds(m, v, x)
    requires v != "" && ':' !in v && !StartsName(v) && v != t.base && !StartsWith(t.base, v + ":")
    ensures VariantNames(AfterOp(m, t, value).variants) && Holds(AfterOp(m, t, value), v, x)
  {
    RecordTouches(m.variants, t.base, v);
  }

  /** A write elsewhere leaves the value of v alone, unless v looks like an override. */
  lemma WriteKeeps(m: View, w: Write, overrides: seq<string>, v: string, x: Value)
    requires VariantNames(m.variants) && Holds(m, v, x)
    requires v != "" && ':' !in v && !StartsName(v) && !Touches(w, v)
    ensures VariantNames(Apply(m, w, overrides).variants) && Holds(Apply(m, w, overrides), v, x)
  {
    match w
    case Assign(name, value, parsing) =>
      var t := FindKeyword(name, 0);
      if t.Some? {
        KeywordBase(name, 0);
        BaseIsElsewhere(name, t.value.base, v);
        QueueKeeps(m, t.value, name, value, v, x);
      } else {
        AssignKeeps(m, name, value, parsing, overrides, v, x);
      }
    case Delete(name) => DeleteKeeps(m, name, v, x);
    case SetFlag(name, flag, value) =>
      if flag == "_defaultval" && ':' in name {
        RecordTouches(m.variants, name, v);
      }
  }

  lemma BaseIsElsewhere(name: string, base: string, v: string)
    requires StartsWith(name, base + ":")
    ensures base == v || StartsWith(base, v + ":") ==> StartsWith(name, v + ":")
  {
    if StartsWith(base, v + ":") {
      var n := |v + ":"|;
      assert name[..n] == (base + ":")[..n] == base[..n];
    }
  }

  // ---------------------------------------------------------------- whole runs

  lemma {:induction false} RunKeeps(m: View, run: Run, v: string, x: Value)
    requires VariantNames(m.variants) && Holds(m, v, x)
    requires v != "" && ':' !in v && !StartsName(v) && Elsewhere(run, v)
    ensures VariantNames(ApplyAll(m, run).variants) && Holds(ApplyAll(m, run), v, x)
  {
    if run != [] {
      var init, s := run[..|run| - 1], run[|run| - 1];
      assert forall t | t in init :: t in run;
      RunKeeps(m, init, v, x);
      assert s in run;
      WriteKeeps(ApplyAll(m, init), s.0, s.1, v, x);
    }
  }

  lemma {:induction false} NoColonNoKeyword(name: string, i: nat)
    requires i <= |name| && ':' !in name
    ensures FindKeyword(name, i).None?
    decreases |name| - i
  {
    KeywordIsColon(name, i);
    if i < |name| {
      NoColonNoKeyword(name, i + 1);
    }
  }

  /** Right after a non-parsing assignment the value is held. */
  lemma AssignmentHolds(m: View, v: string, x: Value, overrides: seq<string>)
    requires v != "" && ':' !in v && VariantNames(m.variants)
    ensures AfterSetVar(m, v, x, false, overrides) == AfterSet(m, v, x, false, overrides)
    ensures Holds(AfterSet(m, v, x, false, overrides), v, x)
    ensures VariantNames(AfterSet(m, v, x, false, overrides).variants)
  {
    NoColonNoKeyword(v, 0);
    var c := Cleared(m, v, false);
    var d := WithoutActive(c, v, overrides);
    if v in c.variants {
      AllDeletedKeeps(c, ActiveNames(c.variants[v], overrides));
      AllDeletedNames(c, ActiveNames(c.variants[v], overrides));
    }
    assert EntryOf(d, v) == WithoutOps(EntryOf(m, v)) || EntryOf(d, v) == NO_ENTRY;
  }

  lemma {:induction false} AllDeletedNames(m: View, names: seq<string>)
    requires VariantNames(m.variants)
    ensures VariantNames(AllDeleted(m, names).variants)
  {
    if names != [] {
      AllDeletedNames(m, names[..|names| - 1]);
      var d := AllDeleted(m, names[..|names| - 1]);
      ForgetTouches(d.variants - {names[|names| - 1]}, names[|names| - 1]);
    }
  }

  /** Assigned at some point of any run, and then only written elsewhere: the value read is x under every list. */
  ghost predicate Stays(v: string) {
    forall m: View, x: Value, overrides: seq<string>, run: Run, later: seq<string> |
      VariantNames(m.variants) && Elsewhere(run, v) ::
      ReadsRaw(ApplyAll(AfterSetVar(m, v, x, false, overrides), run), later, v, Some(x))
  }

  /** The write that undoes an assignment to v: v with a letter added looks like an override of v. */
  function Intruder(v: string, y: Value): Write {
    Assign(v + "z" + ":append", y, false)
  }

  lemma IntruderIsQueued(v: string)
    requires ':' !in v
    ensures FindKeyword(v + "z" + ":append", 0) == Some(Target(v + "z", Append, None))
  {
    var name := v + "z" + ":append";
    SkipToKeyword(v + "z", 0);
    assert name == v + "z" + ":append";
  }

  lemma {:induction false} SkipToKeyword(base: string, i: nat)
    requires ':' !in base && i <= |base|
    ensures FindKeyword(base + ":append", i) == Some(Target(base, Append, None))
    decreases |base| - i
  {
    var name := base + ":append";
    if i < |base| {
      KeywordIsColon(name, i);
      assert name[i] == base[i];
      SkipToKeyword(base, i + 1);
    } else {
      assert KeywordText(Append) == ":append" && |":append"| == 7;
      assert name[i + 7..] == "";
      assert KeywordAt(name, i, Append);
      assert name[..i] == base;
    }
  }

  lemma PrefixEnd(s: string, p: string)
    requires p != ""
    ensures StartsWith(s, p) ==> s[|p| - 1] == p[|p| - 1]
  {
    if StartsWith(s, p) {
      assert s[..|p|][|p| - 1] == s[|p| - 1];
    }
  }

  lemma IntruderIsElsewhere(v: string, y: Value)
    requires ':' !in v
    ensures !Touches(Intruder(v, y), v)
  {
    var name := Intruder(v, y).name;
    assert name[|v|] == 'z';
    PrefixEnd(name, v + ":");
  }

  /** It records v + "z" as a variant of v, so that list [v + "z"] selects it. */
  lemma IntruderIsChosen(m: View, v: string, y: Value)
    requires v != "" && ':' !in v && StartsName(v) && v !in m.variants && v + "z" !in m.variants
    requires EntryOf(m, v + "z") == NO_ENTRY && Refs(y) == {}
    requires EntryOf(m, v).appends == [] && EntryOf(m, v).prepends == []
    ensures ReadsRaw(Apply(m, Intruder(v, y), []), [v + "z"], v, Some(y))
  {
    IntruderIsQueued(v);
    var base := v + "z";
    var m' := Apply(m, Intruder(v, y), []);
    var r := Variant(base, base);
    IntruderIsRecorded(m.variants, v);
    assert m'.variants == m.variants[v := [r]];
    assert ':' !in r.suffix;
    OneActive(r);
    var sub := VariantRead(m', base, y);
    assert ReadsChosen(m', [base], v, sub);
    assert EntryOf(m', v) == EntryOf(m, v);
    assert Assemble(m', [base], v, sub) == Some(y);
  }

  lemma IntruderIsRecorded(variants: VariantMap, v: string)
    requires v != "" && ':' !in v && StartsName(v) && v !in variants
    ensures Record(variants, v + "z") == variants[v := [Variant(v + "z", v + "z")]]
  {
    var name := v + "z";
    assert name[..|name| - 1] == v && ':' !in name && StartsName(name);
    FirstRecord(variants, name, v);
  }

  /** A name without a colon is recorded for what is left without its last character. */
  lemma FirstRecord(variants: VariantMap, name: string, v: string)
    requires name != "" && ':' !in name && StartsName(name) && v == name[..|name| - 1] && v !in variants
    ensures Record(variants, name) == variants[v := [Variant(name, name)]]
  {
    assert RFind(name, ':') == -1 && RFind(v, ':') == -1 && OverrideAt(name, -1) == name && BaseAt(name, -1) == v;
    var r := Variant(name, name);
    assert [] + [r] == [r];
    assert AddVariant(variants, v, r) == variants[v := [r]];
  }

  lemma VariantRead(m: View, base: string, y: Value) returns (sub: Read)
    requires base !in m.variants && EntryOf(m, base) == NO_ENTRY.(appends := [Op(y, None)]) && Refs(y) == {}
    ensures Reads(m, [base], base, false, sub) && sub.raw == Some(y)
  {
    var op := Op(y, None);
    assert [op][..0] == [] && [] + y == y;
    assert Appended(None, [op], [base]) == Some([] + y);
    assert Assemble(m, [base], base, UNDEFINED) == Some(y);
    forall t | t in y ensures t.Ref? ==> t.name in Refs(y) {
    }
    PassOfUnresolved(m, [base], 1, Some(base), y);
    assert Expand(m, [base], 1, Some(base), y) == Some(Expansion(y, {}));
    assert EvalChosen(m, [base], 1, base) == Some(UNDEFINED);
    assert ToRemove(m, [base], base, UNDEFINED, y) == {};
    sub := Read(Some(y), Parser(Some(y), {}, {}));
    assert Removed(m, [base], 1, y, Expansion(y, {}), {}) == Some(sub);
    assert Finish(m, [base], 1, base, false, UNDEFINED) == Some(sub);
    assert Eval(m, [base], 2, base, false) == Some(sub);
  }

  lemma RawIsOne(m: View, overrides: seq<string>, k: string, v: Option<Value>, w: Option<Value>)
    requires ReadsRaw(m, overrides, k, v) && ReadsRaw(m, overrides, k, w)
    ensures v == w
  {
    var a :| ReadsChosen(m, overrides, k, a) && Assemble(m, overrides, k, a) == v;
    var b :| ReadsChosen(m, overrides, k, b) && Assemble(m, overrides, k, b) == w;
    var chosen := Chosen(m, overrides, k);
    if chosen.Some? {
      ReadsOne(m, overrides, chosen.value, false, a, b);
    }
  }

  lemma IntruderRun(m: View, v: string, y: Value)
    ensures ApplyAll(m, [(Intruder(v, y), [])]) == Apply(m, Intruder(v, y), [])
  {
    var run := [(Intruder(v, y), [])];
    assert run[..0] == [] && ApplyAll(m, run[..0]) == m;
  }

  lemma FirstAssignment(v: string, x: Value)
    requires v != "" && ':' !in v
    ensures AfterSetVar(View(map[], map[]), v, x, false, []) == View(map[v := NO_ENTRY.(content := Some(x))], map[])
  {
    NoColonNoKeyword(v, 0);
  }

  lemma DoesNotStay(v: string)
    requires v != "" && ':' !in v && StartsName(v)
    ensures !Stays(v)
  {
    var x: Value, y: Value := [], [Ch('y')];
    var m := View(map[], map[]);
    var run := [(Intruder(v, y), [])];
    FirstAssignment(v, x);
    var m' := AfterSetVar(m, v, x, false, []);
    IntruderIsElsewhere(v, y);
    IntruderRun(m', v, y);
    IntruderIsChosen(m', v, y);
    assert Elsewhere(run, v) && VariantNames(m.variants);
    NotBoth(ApplyAll(m', run), [v + "z"], v, x, y);
    if Stays(v) {
      StaysAt(v, m, x, [], run, [v + "z"]);
    }
  }

  lemma StaysAt(v: string, m: View, x: Value, overrides: seq<string>, run: Run, later: seq<string>)
    requires Stays(v) && VariantNames(m.variants) && Elsewhere(run, v)
    ensures ReadsRaw(ApplyAll(AfterSetVar(m, v, x, false, overrides), run), later, v, Some(x))
  {
  }

  lemma NotBoth(m: View, overrides: seq<string>, k: string, x: Value, y: Value)
    requires x != y && ReadsRaw(m, overrides, k, Some(y))
    ensures !ReadsRaw(m, overrides, k, Some(x))
  {
    if ReadsRaw(m, overrides, k, Some(x)) {
      RawIsOne(m, overrides, k, Some(x), Some(y));
    }
  }

  /** An assignment lasts through every run of writes elsewhere, under every
      override list, exactly when the name does not start like an override. */
  lemma StaysIff(v: string)
    requires v != "" && ':' !in v
    ensures Stays(v) <==> !StartsName(v)
  {
    if StartsName(v) {
      DoesNotStay(v);
    } else {
      forall m: View, x: Value, overrides: seq<string>, run: Run, later: seq<string> |
        VariantNames(m.variants) && Elsewhere(run, v)
        ensures ReadsRaw(ApplyAll(AfterSetVar(m, v, x, false, overrides), run), later, v, Some(x))
      {
        AssignmentHolds(m, v, x, overrides);
        RunKeeps(AfterSet(m, v, x, false, overrides), run, v, x);
        HeldIsRead(ApplyAll(AfterSet(m, v, x, false, overrides), run), v, x, later);
      }
    }
  }
}
