/** Which assignments a computed override list outlives: exactly those to names that OVERRIDES is not
    read through. */
module ListTracking {
  import opened Wrappers
  import opened Text
  import opened Store
  import opened Updates
  import opened ReadGraph
  import opened CacheContents
  import opened OverrideLists
  import opened Datastore

  // ---------------------------------------------------------------- what a read does not depend on

  /** The two stores say the same of the names. */
  ghost predicate SameOn(m: View, m': View, ov: seq<string>, names: set<string>) {
    forall k | k in names :: EntryOf(m', k) == EntryOf(m, k) && Chosen(m', ov, k) == Chosen(m, ov, k)
  }

  /** A pass over a value that refers to the names only. */
  lemma {:induction false} SamePass(m: View, m': View, ov: seq<string>, n: nat, self: Option<string>, v: Value,
                                    names: set<string>)
    requires LongerNames(m.variants) && NoRemoves(m) && NoRemoves(m') && NextStays(m, ov, names)
    requires SameOn(m, m', ov, names) && Refs(v) <= names && Pass(m, ov, n, self, v).Some?
    ensures Pass(m', ov, n, self, v) == Pass(m, ov, n, self, v)
    decreases n, 1, |v|
  {
    if v != [] {
      RefsStep(v);
      SamePass(m, m', ov, n, self, v[..|v| - 1], names);
      var t := v[|v| - 1];
      if t.Ref? {
        SameRead(m, m', ov, n, t.name, true, names);
      }
    }
  }

  /** A read depends only on the names that it goes through. */
  lemma {:induction false} SameRead(m: View, m': View, ov: seq<string>, n: nat, k: string, exp: bool,
                                    names: set<string>)
    requires LongerNames(m.variants) && NoRemoves(m) && NoRemoves(m') && NextStays(m, ov, names)
    requires SameOn(m, m', ov, names) && k in names && Eval(m, ov, n, k, exp).Some?
    ensures Eval(m', ov, n, k, exp) == Eval(m, ov, n, k, exp)
    decreases n, 0, 0
  {
    var chosen, sub := Chosen(m, ov, k), EvalChosen(m, ov, n - 1, k).value;
    assert Next(m, ov, k) <= names;
    if chosen.Some? {
      SameRead(m, m', ov, n - 1, chosen.value, false, names);
      NothingRemoved(m, ov, n - 1, chosen.value, false);
      EvalRaw(m, ov, n - 1, chosen.value, false);
    }
    assert EvalChosen(m', ov, n - 1, k) == Some(sub);
    RawParts(m, ov, k, sub);
    SameFinish(m, m', ov, n - 1, k, exp, sub, names);
  }

  lemma {:induction false} SameFinish(m: View, m': View, ov: seq<string>, n: nat, k: string, exp: bool, sub: Read,
                                      names: set<string>)
    requires LongerNames(m.variants) && NoRemoves(m) && NoRemoves(m') && NextStays(m, ov, names)
    requires SameOn(m, m', ov, names) && k in names && sub.parser.removes == {}
    requires Finish(m, ov, n, k, exp, sub).Some? && Refs(OrEmpty(Assemble(m, ov, k, sub))) <= names
    ensures Finish(m', ov, n, k, exp, sub) == Finish(m, ov, n, k, exp, sub)
    decreases n, 3, 0
  {
    var raw := Assemble(m, ov, k, sub);
    assert Assemble(m', ov, k, sub) == raw;
    if raw.Some? {
      SameExpansion(m, m', ov, n, k, raw.value, names);
      var x := Expand(m, ov, n, Some(k), raw.value).value;
      FinishPlainly(m, ov, n, k, exp, sub, raw.value, x);
      FinishPlainly(m', ov, n, k, exp, sub, raw.value, x);
    }
  }

  lemma {:induction false} SameExpansion(m: View, m': View, ov: seq<string>, n: nat, k: string, v: Value,
                                         names: set<string>)
    requires LongerNames(m.variants) && NoRemoves(m) && NoRemoves(m') && NextStays(m, ov, names)
    requires SameOn(m, m', ov, names) && Refs(v) <= names && Expand(m, ov, n, Some(k), v).Some?
    ensures Expand(m', ov, n, Some(k), v) == Expand(m, ov, n, Some(k), v)
    decreases n, 2, 0
  {
    SamePass(m, m', ov, n, Some(k), v, names);
    PassStays(m, ov, n, Some(k), v, names);
    var p := Pass(m, ov, n, Some(k), v).value;
    if p != v {
      SamePass(m, m', ov, n, Some(k), p, names);
    }
  }

  lemma FinishPlainly(m: View, ov: seq<string>, n: nat, k: string, exp: bool, sub: Read, raw: Value, x: Expansion)
    requires NoRemoves(m) && sub.parser.removes == {} && Assemble(m, ov, k, sub) == Some(raw)
    requires Expand(m, ov, n, Some(k), raw) == Some(x)
    ensures Finish(m, ov, n, k, exp, sub) == Some(Read(Some(raw), Parser(Some(x.value), x.refs, {})))
  {
    assert EntryOf(m, k).removes == [];
    assert ActiveRemoves([], ov) == {};
    assert ToRemove(m, ov, k, sub, if exp then x.value else raw) == {};
  }

  // ---------------------------------------------------------------- values as long as a part of them

  lemma RenderLast(v: Value, t: Tok)
    ensures |Render(v + [t])| == |Render(v)| + if t.Ref? then |t.name| + 3 else 1
  {
    assert (v + [t])[..|v + [t]| - 1] == v;
  }

  lemma {:induction false} RenderAppend(v: Value, w: Value)
    ensures |Render(v + w)| == |Render(v)| + |Render(w)|
  {
    if w == [] {
      assert v + w == v;
    } else {
      var init, t := w[..|w| - 1], w[|w| - 1];
      RenderAppend(v, init);
      RenderLast(init, t);
      RenderLast(v + init, t);
      assert v + init + [t] == v + w && init + [t] == w;
    }
  }

  /** What a token becomes. */
  ghost function Stand(m: View, ov: seq<string>, n: nat, self: Option<string>, t: Tok): Option<Value> {
    match t
    case Ch(_) => Some([t])
    case Ref(x) =>
      if self == Some(x) || Eval(m, ov, n, x, true).None? then None
      else Some(Substitute(x, Eval(m, ov, n, x, true).value))
  }

  lemma PassOfLast(m: View, ov: seq<string>, n: nat, self: Option<string>, v: Value, t: Tok)
    ensures Pass(m, ov, n, self, v + [t]) == Joined(Pass(m, ov, n, self, v), Stand(m, ov, n, self, t))
  {
    assert (v + [t])[..|v + [t]| - 1] == v;
  }

  /** r, where there is one, is p and then q. */
  ghost predicate Splits(p: Option<Value>, q: Option<Value>, r: Option<Value>) {
    r.Some? ==> p.Some? && q.Some? && r.value == p.value + q.value
  }

  function Joined(p: Option<Value>, s: Option<Value>): Option<Value> {
    if p.Some? && s.Some? then Some(p.value + s.value) else None
  }

  lemma SplitsOn(p: Option<Value>, q: Option<Value>, r: Option<Value>, s: Option<Value>)
    requires Splits(p, q, r)
    ensures Splits(p, Joined(q, s), Joined(r, s))
  {
    if r.Some? && s.Some? {
      assert (p.value + q.value) + s.value == p.value + (q.value + s.value);
    }
  }

  lemma {:induction false} PassOfParts(m: View, ov: seq<string>, n: nat, self: Option<string>, v: Value, w: Value)
    ensures Splits(Pass(m, ov, n, self, v), Pass(m, ov, n, self, w), Pass(m, ov, n, self, v + w))
    decreases |w|
  {
    if w == [] {
      assert v + w == v;
    } else {
      var init, t := w[..|w| - 1], w[|w| - 1];
      PassOfParts(m, ov, n, self, v, init);
      PassOfLast(m, ov, n, self, v + init, t);
      PassOfLast(m, ov, n, self, init, t);
      SplitsOn(Pass(m, ov, n, self, v), Pass(m, ov, n, self, init), Pass(m, ov, n, self, v + init),
        Stand(m, ov, n, self, t));
      assert v + init + [t] == v + w && init + [t] == w;
    }
  }

  /** What a part of a value becomes is no longer than what the value becomes. */
  lemma PassOfInfix(m: View, ov: seq<string>, n: nat, self: Option<string>, pre: Value, v: Value, post: Value)
    requires Pass(m, ov, n, self, pre + v + post).Some?
    ensures Pass(m, ov, n, self, v).Some?
    ensures |Render(Pass(m, ov, n, self, v).value)| <= |Render(Pass(m, ov, n, self, pre + v + post).value)|
  {
    PassOfParts(m, ov, n, self, pre + v, post);
    PassOfParts(m, ov, n, self, pre, v);
    RenderAppend(Pass(m, ov, n, self, pre + v).value, Pass(m, ov, n, self, post).value);
    RenderAppend(Pass(m, ov, n, self, pre).value, Pass(m, ov, n, self, v).value);
  }

  lemma {:induction false} PassOfOther(m: View, ov: seq<string>, n: nat, self: string, self': string, v: Value)
    requires Pass(m, ov, n, Some(self), v).Some? && Pass(m, ov, n, Some(self'), v).Some?
    ensures Pass(m, ov, n, Some(self), v) == Pass(m, ov, n, Some(self'), v)
    decreases |v|
  {
    if v != [] {
      PassOfOther(m, ov, n, self, self', v[..|v| - 1]);
    }
  }

  /** Additions stand around the value. */
  ghost predicate Around(v: Option<Value>, base: Value) {
    exists pre, post :: v == Some(pre + base + post)
  }

  lemma {:induction false} AppendedAround(base: Value, ops: seq<Op>, ov: seq<string>) returns (post: Value)
    ensures Appended(Some(base), ops, ov) == Some(base + post)
  {
    post := [];
    if ops == [] {
      assert base + post == base;
    } else {
      post := AppendedAround(base, ops[..|ops| - 1], ov);
      var op := ops[|ops| - 1];
      if Applies(op.cond, ov) {
        assert base + post + op.value == base + (post + op.value);
        post := post + op.value;
      }
    }
  }

  lemma {:induction false} PrependedAround(v: Value, ops: seq<Op>, ov: seq<string>) returns (pre: Value)
    ensures Prepended(Some(v), ops, ov) == Some(pre + v)
  {
    pre := [];
    if ops == [] {
      assert pre + v == v;
    } else {
      pre := PrependedAround(v, ops[..|ops| - 1], ov);
      var op := ops[|ops| - 1];
      if Applies(op.cond, ov) {
        assert op.value + (pre + v) == op.value + pre + v;
        pre := op.value + pre;
      }
    }
  }

  lemma AssembledAround(m: View, ov: seq<string>, k: string, sub: Read, base: Value)
    requires (if sub.raw.Some? then sub.raw else Base(EntryOf(m, k))) == Some(base)
    ensures Around(Assemble(m, ov, k, sub), base)
  {
    var post := AppendedAround(base, EntryOf(m, k).appends, ov);
    var pre := PrependedAround(base + post, EntryOf(m, k).prepends, ov);
    assert pre + (base + post) == pre + base + post;
  }

  /** If k can be read at all, its value is text of at least this length. */
  ghost predicate Long(m: View, ov: seq<string>, k: string, size: nat) {
    forall n: nat, r | Eval(m, ov, n, k, true) == Some(r) ::
      r.parser.value.Some? && |Render(r.parser.value.value)| >= size
  }

  /** A value that refers to a long one is long. */
  lemma LongByReference(m: View, ov: seq<string>, n: nat, self: string, v: Value, y: string, size: nat)
    requires Pass(m, ov, n, Some(self), v).Some? && y in Refs(v) && Long(m, ov, y, size)
    ensures |Render(Pass(m, ov, n, Some(self), v).value)| >= size
  {
    var pre, post := RefInside(v, y);
    PassOfInfix(m, ov, n, Some(self), pre, [Ref(y)], post);
    PassOfRef(m, ov, n, Some(self), y);
  }

  lemma RefInside(v: Value, y: string) returns (pre: Value, post: Value)
    requires y in Refs(v)
    ensures v == pre + [Ref(y)] + post
  {
    var i :| 0 <= i < |v| && v[i] == Ref(y);
    pre, post := v[..i], v[i + 1..];
  }

  lemma PassOfRef(m: View, ov: seq<string>, n: nat, self: Option<string>, y: string)
    ensures Pass(m, ov, n, self, [Ref(y)]) == Stand(m, ov, n, self, Ref(y))
  {
    PassOfLast(m, ov, n, self, [], Ref(y));
    assert [] + [Ref(y)] == [Ref(y)];
    var s := Stand(m, ov, n, self, Ref(y));
    assert s.Some? ==> [] + s.value == s.value;
  }

  /** So is one that is made around a long variant. */
  lemma LongAround(m: View, ov: seq<string>, n: nat, x: string, raw: Value, l: nat, y: string, base: Value, size: nat)
    requires Around(Some(raw), base) && Pass(m, ov, n, Some(x), raw).Some? && l <= n
    requires Pass(m, ov, l, Some(y), base).Some? && |Render(Pass(m, ov, l, Some(y), base).value)| >= size
    ensures |Render(Pass(m, ov, n, Some(x), raw).value)| >= size
  {
    var pre, post :| Some(raw) == Some(pre + base + post);
    PassOfInfix(m, ov, n, Some(x), pre, base, post);
    PassDeeper(m, ov, l, n, Some(y), base);
    PassOfOther(m, ov, n, x, y, base);
  }

  lemma AroundVariant(m: View, ov: seq<string>, n: nat, x: string, y: string, sub: Read)
    requires LongerNames(m.variants) && Chosen(m, ov, x) == Some(y) && sub.raw.Some?
    requires Eval(m, ov, n, y, false) == Some(sub)
    ensures Around(Raw(m, ov, x), sub.raw.value)
  {
    AssembledAround(m, ov, x, sub, sub.raw.value);
    EvalRaw(m, ov, n, y, false);
    RawParts(m, ov, x, sub);
  }

  lemma VariantRead(m: View, ov: seq<string>, n: nat, x: string, y: string, size: nat) returns (sub: Read)
    requires NoRemoves(m) && Eval(m, ov, n, x, true).Some? && Chosen(m, ov, x) == Some(y) && Long(m, ov, y, size)
    ensures n > 1 && Eval(m, ov, n - 1, y, false) == Some(sub) && sub.raw.Some?
    ensures var p := Pass(m, ov, n - 2, Some(y), sub.raw.value);
            p.Some? && |Render(p.value)| >= size
  {
    assert n > 0 && EvalChosen(m, ov, n - 1, x).Some?;
    sub := Eval(m, ov, n - 1, y, false).value;
    KindsAgree(m, ov, n - 1, y);
    ValueIsPass(m, ov, n - 1, y, sub);
  }

  lemma LongByVariant(m: View, ov: seq<string>, n: nat, x: string, y: string, r: Read, size: nat)
    requires LongerNames(m.variants) && NoRemoves(m) && Eval(m, ov, n, x, true) == Some(r)
    requires Chosen(m, ov, x) == Some(y) && Long(m, ov, y, size)
    ensures r.parser.value.Some? && |Render(r.parser.value.value)| >= size
  {
    var sub := VariantRead(m, ov, n, x, y, size);
    AroundVariant(m, ov, n - 1, x, y, sub);
    EvalRaw(m, ov, n, x, true);
    ValueIsPass(m, ov, n, x, r);
    LongAround(m, ov, n - 1, x, r.raw.value, n - 2, y, sub.raw.value, size);
  }

  /** What reads a long name is long. */
  lemma LongFromNext(m: View, ov: seq<string>, x: string, y: string, size: nat)
    requires LongerNames(m.variants) && NoRemoves(m) && y in Next(m, ov, x) && Long(m, ov, y, size)
    ensures Long(m, ov, x, size)
  {
    forall n: nat, r | Eval(m, ov, n, x, true) == Some(r)
      ensures r.parser.value.Some? && |Render(r.parser.value.value)| >= size
    {
      if Chosen(m, ov, x) == Some(y) {
        LongByVariant(m, ov, n, x, y, r, size);
      } else {
        EvalRaw(m, ov, n, x, true);
        ValueIsPass(m, ov, n, x, r);
        LongByReference(m, ov, n - 1, x, r.raw.value, y, size);
      }
    }
  }

  // ---------------------------------------------------------------- assignments to plain names

  /** k has no variants, is none, and names no operation. */
  ghost predicate PlainName(m: View, k: string) {
    FindKeyword(k, 0).None? && ':' !in k && k !in m.variants && k !in RecordedNames(m)
  }

  lemma AssignedEntry(m: View, k: string, value: Value, parsing: bool, active: seq<string>)
    requires PlainName(m, k) && NoRemoves(m)
    ensures var m' := AfterSetVar(m, k, value, parsing, active);
            && m'.variants == m.variants && NoRemoves(m') && EntryOf(m', k).content == Some(value)
            && forall x | x != k :: EntryOf(m', x) == EntryOf(m, x)
  {
    var m' := AfterSetVar(m, k, value, parsing, active);
    forall x | x in m'.vars ensures m'.vars[x].removes == [] {
      assert x != k ==> m'.vars[x] == m.vars[x];
    }
  }

  /** The list outlives an assignment to a name that OVERRIDES is not read through. */
  lemma ListStays(m: View, list: seq<string>, k: string, value: Value, parsing: bool, active: seq<string>)
    requires LongerNames(m.variants) && NoRemoves(m) && FixedPoint(m, list) && PlainName(m, k)
    requires k !in ReadThrough(m, list, {}, {"OVERRIDES"})
    ensures FixedPoint(AfterSetVar(m, k, value, parsing, active), list)
  {
    var m', names := AfterSetVar(m, k, value, parsing, active), ReadThrough(m, list, {}, {"OVERRIDES"});
    AssignedEntry(m, k, value, parsing, active);
    ThroughClosed(m, list, {}, {"OVERRIDES"});
    assert NextStays(m, list, names) by {
      forall x | x in names ensures Next(m, list, x) <= names {
        assert ClosedAt(m, list, names, x);
      }
    }
    var r :| Reads(m, list, "OVERRIDES", true, r) && OverrideList(r.parser.value) == list;
    var n: nat :| Eval(m, list, n, "OVERRIDES", true) == Some(r);
    SameRead(m, m', list, n, "OVERRIDES", true, names);
    assert Reads(m', list, "OVERRIDES", true, r);
  }

  /** The unexpanded value of another name is what it was. */
  lemma {:induction false} RawStays(m: View, m': View, ov: seq<string>, k: string, x: string)
    requires LongerNames(m.variants) && m'.variants == m.variants && k !in RecordedNames(m) && x != k
    requires forall z | z != k :: EntryOf(m', z) == EntryOf(m, z)
    ensures Raw(m', ov, x) == Raw(m, ov, x) && Next(m', ov, x) == Next(m, ov, x)
    decreases LongerOnes(m, x)
  {
    var chosen := Chosen(m, ov, x);
    if chosen.Some? {
      ChosenIsRecorded(m, ov, x);
      ChosenIsLonger(m, ov, x);
      RawStays(m, m', ov, k, chosen.value);
    }
  }

  lemma TextInside(m: View, ov: seq<string>, n: nat, k: string, raw: Value, text: Value)
    requires Around(Some(raw), text) && Refs(text) == {} && Pass(m, ov, n, Some(k), raw).Some?
    ensures |Render(Pass(m, ov, n, Some(k), raw).value)| >= |Render(text)|
  {
    var pre, post :| Some(raw) == Some(pre + text + post);
    PassOfInfix(m, ov, n, Some(k), pre, text, post);
    forall t | t in text ensures t.Ref? ==> t.name in Refs(text) {
    }
    PassOfUnresolved(m, ov, n, Some(k), text);
  }

  lemma AssignedIsLong(m: View, ov: seq<string>, k: string, value: Value)
    requires LongerNames(m.variants) && NoRemoves(m) && k !in m.variants
    requires EntryOf(m, k).content == Some(value) && Refs(value) == {}
    ensures Long(m, ov, k, |Render(value)|)
  {
    forall n: nat, r | Eval(m, ov, n, k, true) == Some(r)
      ensures r.parser.value.Some? && |Render(r.parser.value.value)| >= |Render(value)|
    {
      EvalRaw(m, ov, n, k, true);
      ValueIsPass(m, ov, n, k, r);
      AssembledAround(m, ov, k, UNDEFINED, value);
      TextInside(m, ov, n - 1, k, r.raw.value, value);
    }
  }

  /** If k is long, and OVERRIDES was read through it, then OVERRIDES is long. */
  lemma LongThrough(m: View, m': View, list: seq<string>, k: string, size: nat)
    requires LongerNames(m.variants) && NoRemoves(m) && NoRemoves(m') && m'.variants == m.variants
    requires k !in RecordedNames(m) && forall z | z != k :: EntryOf(m', z) == EntryOf(m, z)
    requires Long(m', list, k, size) && k in ReadThrough(m, list, {}, {"OVERRIDES"})
    ensures Long(m', list, "OVERRIDES", size)
  {
    var names := ReadThrough(m, list, {}, {"OVERRIDES"});
    ThroughClosed(m, list, {}, {"OVERRIDES"});
    var short := set x | x in names && !Long(m', list, x, size);
    if "OVERRIDES" in short {
      forall x | x in short ensures ClosedAt(m, list, short, x) {
        assert ClosedAt(m, list, names, x) && EntryOf(m, x).removes == [];
        RawStays(m, m', list, k, x);
        forall y | y in Next(m, list, x) ensures y in short {
          if Long(m', list, y, size) {
            LongFromNext(m', list, x, y, size);
          }
        }
      }
      ThroughLeast(m, list, {}, {"OVERRIDES"}, short);
    }
  }

  function Letters(n: nat): (v: Value)
    ensures |v| == n && Refs(v) == {}
  {
    seq(n, _ => Ch('a'))
  }

  lemma {:induction false} LettersAreLong(n: nat)
    ensures |Render(Letters(n))| == n
  {
    if n > 0 {
      assert Letters(n)[..n - 1] == Letters(n - 1);
      LettersAreLong(n - 1);
    }
  }

  /** It does not outlive the assignment of enough text to one that it is read through. */
  lemma ListEnds(m: View, list: seq<string>, k: string)
    requires LongerNames(m.variants) && NoRemoves(m) && PlainName(m, k) && list != []
    requires k in ReadThrough(m, list, {}, {"OVERRIDES"})
    ensures !FixedPoint(AfterSetVar(m, k, Letters(|Join(list, ':')| + 1), false, []), list)
  {
    var size := |Join(list, ':')| + 1;
    var value := Letters(size);
    var m' := AfterSetVar(m, k, value, false, []);
    AssignedEntry(m, k, value, false, []);
    LettersAreLong(size);
    AssignedIsLong(m', list, k, value);
    LongThrough(m, m', list, k, size);
    if FixedPoint(m', list) {
      var r :| Reads(m', list, "OVERRIDES", true, r) && OverrideList(r.parser.value) == list;
      var n: nat :| Eval(m', list, n, "OVERRIDES", true) == Some(r);
      JoinSplit(Render(r.parser.value.value), ':');
    }
  }

  // ---------------------------------------------------------------- when tracking is enough

  /** Whatever is assigned to a plain name that is not tracked, the list is still right. */
  ghost predicate Lasts(m: View, list: seq<string>, tracked: set<string>) {
    forall k, value, parsing, active | PlainName(m, k) && k !in tracked ::
      FixedPoint(AfterSetVar(m, k, value, parsing, active), list)
  }

  /** A computed list lasts exactly if all plain names that OVERRIDES is read through are tracked. */
  lemma LastsIffTracked(m: View, list: seq<string>, tracked: set<string>)
    requires LongerNames(m.variants) && NoRemoves(m) && FixedPoint(m, list)
    ensures Lasts(m, list, tracked) <==>
            forall k | k in ReadThrough(m, list, {}, {"OVERRIDES"}) && PlainName(m, k) :: k in tracked
  {
    var names := ReadThrough(m, list, {}, {"OVERRIDES"});
    if Lasts(m, list, tracked) {
      forall k | k in names && PlainName(m, k) ensures k in tracked {
        if k !in tracked {
          ListEnds(m, list, k);
        }
      }
    }
    if forall k | k in names && PlainName(m, k) :: k in tracked {
      forall k, value, parsing, active | PlainName(m, k) && k !in tracked
        ensures FixedPoint(AfterSetVar(m, k, value, parsing, active), list)
      {
        ListStays(m, list, k, value, parsing, active);
      }
    }
  }

  /** In a store whose tracked names hold the plain names that OVERRIDES is read through, a computed list
      stays right when a plain name is assigned, or is dropped. */
  method AssignPlain(d: DataSmart, name: string, value: Value, parsing: bool, depth: nat)
    returns (r: Result<(), Error>)
    requires d.Valid() && !d.inOverride && d.Settled() && NoRemoves(d.Now()) && PlainName(d.Now(), name)
    requires d.overrides.Some? ==>
               forall k | k in ReadThrough(d.Now(), d.overrides.value, {}, {"OVERRIDES"}) && PlainName(d.Now(), k) ::
                 k in d.overrideVars
    modifies d, d.dict
    ensures r.Ok? ==> d.Valid() && d.Settled()
    ensures r.Ok? ==> d.overrides == if name in old(d.overrideVars) then None else old(d.overrides)
  {
    ghost var m, list := d.Now(), d.overrides;
    ghost var active, filled;
    r, active, filled := d.SetVar(name, value, parsing, depth, {});
    if r.Ok? && list.Some? && d.overrides.Some? {
      ListStays(m, list.value, name, value, parsing, active);
    }
  }
}
