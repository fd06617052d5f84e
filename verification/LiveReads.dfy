/** What reads give under every list that may be in force. */
module LiveReads {
  import opened Wrappers
  import opened Store
  import opened Steady
  import opened Updates
  import opened ReadGraph

  /** The list, or any one as long as there is none. */
  predicate Under(basis: Option<seq<string>>, ov: seq<string>) {
    basis.Some? ==> ov == basis.value
  }

  /** One of the lists that the basis allows. */
  function OneOf(basis: Option<seq<string>>): (ov: seq<string>)
    ensures Under(basis, ov)
  {
    if basis.Some? then basis.value else []
  }

  ghost predicate Narrower(basis: Option<seq<string>>, basis': Option<seq<string>>) {
    basis.Some? ==> basis' == basis
  }

  // What holds under every list that the basis allows.

  ghost predicate AllPass(m: View, basis: Option<seq<string>>, self: Option<string>, v: Value, p: Value) {
    forall ov | Under(basis, ov) :: Passes(m, ov, self, v, p)
  }

  /** The value stands for the token. */
  ghost predicate Stands(m: View, ov: seq<string>, self: Option<string>, t: Tok, v: Value) {
    match t
    case Ch(_) => v == [t]
    case Ref(x) => self != Some(x) && exists r :: Reads(m, ov, x, true, r) && v == Substitute(x, r)
  }

  ghost predicate AllStand(m: View, basis: Option<seq<string>>, self: Option<string>, t: Tok, v: Value) {
    forall ov | Under(basis, ov) :: Stands(m, ov, self, t, v)
  }

  /** Nothing stands for the token at this depth. */
  ghost predicate Falls(m: View, ov: seq<string>, n: nat, self: Option<string>, t: Tok) {
    t.Ref? && (self == Some(t.name) || Eval(m, ov, n, t.name, true).None?)
  }

  ghost predicate NoStanding(m: View, basis: Option<seq<string>>, depth: nat, self: Option<string>, t: Tok) {
    forall ov | Under(basis, ov) :: Falls(m, ov, depth, self, t)
  }

  ghost predicate NoPass(m: View, basis: Option<seq<string>>, depth: nat, self: Option<string>, v: Value) {
    forall ov | Under(basis, ov) :: Pass(m, ov, depth, self, v).None?
  }

  ghost predicate AllExpandTo(m: View, basis: Option<seq<string>>, self: Option<string>, v: Value, e: Expansion) {
    forall ov | Under(basis, ov) :: Expands(m, ov, self, v, e)
  }

  ghost predicate NoExpansion(m: View, basis: Option<seq<string>>, depth: nat, self: Option<string>, v: Value) {
    forall ov | Under(basis, ov) :: Expand(m, ov, depth, self, v).None?
  }

  ghost predicate AllReadChosen(m: View, basis: Option<seq<string>>, k: string, sub: Read) {
    forall ov | Under(basis, ov) :: ReadsChosen(m, ov, k, sub)
  }

  ghost predicate AllAppended(basis: Option<seq<string>>, start: Option<Value>, ops: seq<Op>, v: Option<Value>) {
    forall ov | Under(basis, ov) :: Appended(start, ops, ov) == v
  }

  ghost predicate AllPrepended(basis: Option<seq<string>>, start: Option<Value>, ops: seq<Op>, v: Option<Value>) {
    forall ov | Under(basis, ov) :: Prepended(start, ops, ov) == v
  }

  ghost predicate AllAssemble(m: View, basis: Option<seq<string>>, k: string, sub: Read, raw: Option<Value>) {
    forall ov | Under(basis, ov) :: Assemble(m, ov, k, sub) == raw
  }

  ghost predicate AllRaw(m: View, basis: Option<seq<string>>, k: string, raw: Option<Value>)
    requires LongerNames(m.variants)
  {
    forall ov | Under(basis, ov) :: Raw(m, ov, k) == raw
  }

  ghost predicate AllChosen(m: View, basis: Option<seq<string>>, k: string, chosen: Option<string>) {
    forall ov | Under(basis, ov) :: Chosen(m, ov, k) == chosen
  }

  ghost predicate AllRawOfChosen(m: View, basis: Option<seq<string>>, k: string, raw: Option<Value>)
    requires LongerNames(m.variants)
  {
    forall ov | Under(basis, ov) :: RawOfChosen(m, ov, k) == raw
  }

  ghost predicate AllRemove(m: View, basis: Option<seq<string>>, k: string, sub: Read, tested: Value,
                            removes: set<Value>) {
    forall ov | Under(basis, ov) :: ToRemove(m, ov, k, sub, tested) == removes
  }

  ghost predicate AllRead(m: View, basis: Option<seq<string>>, k: string, exp: bool, r: Read) {
    forall ov | Under(basis, ov) :: Reads(m, ov, k, exp, r)
  }

  ghost predicate AllReadValue(m: View, basis: Option<seq<string>>, k: string, v: Option<Value>) {
    forall ov | Under(basis, ov) :: ReadsValue(m, ov, k, v)
  }

  ghost predicate AllUndefined(m: View, basis: Option<seq<string>>, names: set<string>) {
    forall ov, x | Under(basis, ov) && x in names :: Reads(m, ov, x, true, UNDEFINED)
  }

  lemma StillReads(m: View, basis: Option<seq<string>>, basis': Option<seq<string>>, k: string, v: Option<Value>)
    requires AllReadValue(m, basis, k, v) && Narrower(basis, basis')
    ensures AllReadValue(m, basis', k, v)
  {
  }

  lemma StillUndefined(m: View, basis: Option<seq<string>>, basis': Option<seq<string>>, names: set<string>)
    requires AllUndefined(m, basis, names) && Narrower(basis, basis')
    ensures AllUndefined(m, basis', names)
  {
  }

  ghost predicate FoundUndefined(m: View, names: set<string>) {
    exists ov: seq<string> :: AllUndefined(m, Some(ov), names)
  }

  /** What tracking adds to the tracked names: the references of the value, and beside them only
      undefined names; and only the given names, if they are steady and the value keeps to them. */
  ghost predicate AddsOnly(m: View, vars: set<string>, refs: set<string>, names: set<string>, vars': set<string>) {
    && FoundUndefined(m, vars' - vars - refs)
    && (Plain(m, names) && refs <= names ==> vars' <= vars + names)
  }

  lemma AddsNothing(m: View, vars: set<string>, refs: set<string>, names: set<string>)
    ensures AddsOnly(m, vars, refs, names, vars)
  {
    assert AllUndefined(m, Some([]), {}) && vars - vars - refs == {};
  }

  ghost predicate NoRead(m: View, basis: Option<seq<string>>, depth: nat, k: string, exp: bool) {
    forall ov | Under(basis, ov) :: Eval(m, ov, depth, k, exp).None?
  }

  lemma AllReadItsValue(m: View, basis: Option<seq<string>>, k: string, exp: bool, r: Read)
    requires AllRead(m, basis, k, exp, r)
    ensures AllReadValue(m, basis, k, r.parser.value)
  {
    forall ov | Under(basis, ov) ensures ReadsValue(m, ov, k, r.parser.value) {
      KindReadsValue(m, ov, k, exp, r);
    }
  }

  lemma AllAssembleBy(m: View, basis: Option<seq<string>>, basis': Option<seq<string>>, k: string, sub: Read,
                      appended: Option<Value>, raw: Option<Value>)
    requires var e := EntryOf(m, k);
             && AllAppended(basis, if sub.raw.Some? then sub.raw else Base(e), e.appends, appended)
             && AllPrepended(basis', appended, e.prepends, raw) && Narrower(basis, basis')
    ensures AllAssemble(m, basis', k, sub, raw)
  {
    forall ov | Under(basis', ov) ensures Assemble(m, ov, k, sub) == raw {
      assert Under(basis, ov);
    }
  }

  lemma AllRawParts(m: View, basis: Option<seq<string>>, basis': Option<seq<string>>, k: string, sub: Read,
                    raw: Option<Value>)
    requires LongerNames(m.variants) && AllRawOfChosen(m, basis, k, sub.raw) && Narrower(basis, basis')
    requires AllAssemble(m, basis', k, sub, raw)
    ensures AllRaw(m, basis', k, raw)
  {
    forall ov | Under(basis', ov) ensures Raw(m, ov, k) == raw {
      assert Under(basis, ov);
      RawParts(m, ov, k, sub);
    }
  }

  lemma ChosenReads(m: View, basis: Option<seq<string>>, basis': Option<seq<string>>, k: string, chosen: string,
                    sub: Read, right: bool)
    requires LongerNames(m.variants) && AllChosen(m, basis, k, Some(chosen)) && Narrower(basis, basis')
    requires AllRaw(m, basis', chosen, sub.raw) && (right ==> AllRead(m, basis', chosen, false, sub))
    ensures AllRawOfChosen(m, basis', k, sub.raw) && (right ==> AllReadChosen(m, basis', k, sub))
  {
    forall ov | Under(basis', ov)
      ensures RawOfChosen(m, ov, k) == sub.raw && (right ==> ReadsChosen(m, ov, k, sub))
    {
      assert Under(basis, ov) && (right ==> Reads(m, ov, chosen, false, sub));
    }
  }

  lemma AllReadUndefined(m: View, basis: Option<seq<string>>, k: string, exp: bool, sub: Read)
    requires AllReadChosen(m, basis, k, sub) && AllAssemble(m, basis, k, sub, None)
    ensures AllRead(m, basis, k, exp, UNDEFINED)
  {
    forall ov | Under(basis, ov) ensures Reads(m, ov, k, exp, UNDEFINED) {
      ReadsUndefined(m, ov, k, exp, sub);
    }
  }

  lemma AllReadBy(m: View, basis: Option<seq<string>>, basis': Option<seq<string>>, k: string, exp: bool, sub: Read,
                  raw: Value, x: Expansion, expanded: map<Value, Expansion>)
    requires AllReadChosen(m, basis, k, sub) && AllExpandTo(m, basis, Some(k), raw, x)
    requires AllAssemble(m, basis, k, sub, Some(raw)) && Narrower(basis, basis')
    requires AllRemove(m, basis', k, sub, if exp then x.value else raw, expanded.Keys)
    requires AllExpand(m, basis', expanded)
    ensures AllRead(m, basis', k, exp, ReadOf(raw, x, expanded))
  {
    forall ov | Under(basis', ov) ensures Reads(m, ov, k, exp, ReadOf(raw, x, expanded)) {
      assert Under(basis, ov);
      assert forall v | v in expanded :: Expands(m, ov, None, v, expanded[v]);
      ReadsBy(m, ov, k, exp, sub, raw, x, expanded);
    }
  }

  lemma NothingToRemove(m: View, basis: Option<seq<string>>, k: string, sub: Read, tested: Value, removes: set<Value>)
    requires EntryOf(m, k).removes == [] && sub.parser.removes == {} && AllRemove(m, basis, k, sub, tested, removes)
    ensures removes == {}
  {
    assert ActiveRemoves([], OneOf(basis)) == {};
  }

  lemma AllPassNothing(m: View, basis: Option<seq<string>>, self: Option<string>)
    ensures AllPass(m, basis, self, [], [])
  {
    forall ov | Under(basis, ov) ensures Passes(m, ov, self, [], []) {
      PassesNothing(m, ov, self);
    }
  }

  lemma AllPassOne(m: View, basis: Option<seq<string>>, basis': Option<seq<string>>, self: Option<string>,
                   v: Value, p: Value, t: Tok, w: Value)
    requires AllPass(m, basis, self, v, p) && Narrower(basis, basis') && AllStand(m, basis', self, t, w)
    ensures AllPass(m, basis', self, v + [t], p + w)
  {
    forall ov | Under(basis', ov) ensures Passes(m, ov, self, v + [t], p + w) {
      assert Under(basis, ov) && Stands(m, ov, self, t, w);
      match t
      case Ch(c) => PassesChar(m, ov, self, v, p, c);
      case Ref(x) =>
        var r :| Reads(m, ov, x, true, r) && w == Substitute(x, r);
        PassesRef(m, ov, self, v, p, x, r);
    }
  }

  lemma NoPassFor(m: View, basis: Option<seq<string>>, depth: nat, self: Option<string>, v: Value, i: nat)
    requires i < |v| && NoStanding(m, basis, depth, self, v[i])
    ensures NoPass(m, basis, depth, self, v)
  {
    forall ov | Under(basis, ov) ensures Pass(m, ov, depth, self, v).None? {
      PassRefFails(m, ov, depth, self, v, i, v[i].name);
    }
  }

  lemma NoExpansionFor(m: View, basis: Option<seq<string>>, depth: nat, self: Option<string>, v: Value, s: Value)
    requires NoPass(m, basis, depth, self, s) && (s == v || AllPass(m, basis, self, v, s))
    ensures NoExpansion(m, basis, depth, self, v)
  {
    forall ov | Under(basis, ov) ensures Expand(m, ov, depth, self, v).None? {
      assert Pass(m, ov, depth, self, s).None?;
      if s != v {
        SecondPassFails(m, ov, depth, self, v, s);
      }
    }
  }

  lemma SecondIsIdle(m: View, basis: Option<seq<string>>, basis': Option<seq<string>>, self: Option<string>,
                     v: Value, p: Value, q: Value)
    requires AllPass(m, basis, self, v, p) && Narrower(basis, basis') && AllPass(m, basis', self, p, q)
    ensures q == p && AllPass(m, basis', self, v, p)
  {
    var some := OneOf(basis');
    assert Under(basis, some);
    SecondPassIsIdle(m, some, self, v, p, q);
  }

  lemma AllExpandBy(m: View, basis: Option<seq<string>>, self: Option<string>, v: Value, s: Value, refs: set<string>)
    requires refs == Refs(v) + Refs(s)
    requires if Refs(s) == {} then s == v || AllPass(m, basis, self, v, s)
             else AllPass(m, basis, self, v, s) && AllPass(m, basis, self, s, s)
    ensures AllExpandTo(m, basis, self, v, Expansion(s, refs))
  {
    forall ov | Under(basis, ov) ensures Expands(m, ov, self, v, Expansion(s, refs)) {
      if Refs(s) == {} {
        PassesPlain(m, ov, self, s);
      }
      ExpandsBy(m, ov, self, v, s);
    }
  }

  /** The removals expand to these expansions. */
  ghost predicate AllExpand(m: View, basis: Option<seq<string>>, expanded: map<Value, Expansion>) {
    forall ov, v | Under(basis, ov) && v in expanded :: Expands(m, ov, None, v, expanded[v])
  }

  lemma OneMoreExpands(m: View, basis: Option<seq<string>>, basis': Option<seq<string>>,
                       expanded: map<Value, Expansion>, v: Value, e: Expansion)
    requires AllExpand(m, basis, expanded)
    requires forall ov | Under(basis', ov) :: Under(basis, ov) && Expands(m, ov, None, v, e)
    ensures AllExpand(m, basis', expanded[v := e])
  {
  }

  // ---------------------------------------------------------------- what is left in values

  lemma UndefinedReadsNothing(m: View, ov: seq<string>, k: string, v: Option<Value>)
    requires Reads(m, ov, k, true, UNDEFINED) && ReadsValue(m, ov, k, v)
    ensures v.None?
  {
    var r :| Reads(m, ov, k, true, r) && r.parser.value == v;
    ReadsOne(m, ov, k, true, r, UNDEFINED);
  }

  /** Names left in an expanded value, or found by expanding it once more, are undefined. */
  lemma LeftUndefined(m: View, ov: seq<string>, k: string, w: Value, e: Expansion, x: string)
    requires ReadsValue(m, ov, k, Some(w)) && Expands(m, ov, Some(k), w, e) && x in e.refs
    ensures Reads(m, ov, x, true, UNDEFINED)
  {
    var r :| Reads(m, ov, k, true, r) && r.parser.value == Some(w);
    var n: nat :| Eval(m, ov, n, k, true) == Some(r);
    EvalUnresolved(m, ov, n, k, true);
    var d: nat :| Expand(m, ov, d, Some(k), w) == Some(e);
    ExpandSettles(m, ov, d, Some(k), w);
    if x in Refs(w) {
      assert Ref(x) in w;
    } else {
      assert Ref(x) in e.value;
    }
  }

  lemma AllLeftUndefined(m: View, basis: Option<seq<string>>, basis': Option<seq<string>>, k: string, w: Value,
                         e: Expansion)
    requires AllReadValue(m, basis, k, Some(w)) && Narrower(basis, basis') && AllExpandTo(m, basis', Some(k), w, e)
    ensures AllUndefined(m, basis', e.refs)
  {
    forall ov, x | Under(basis', ov) && x in e.refs ensures Reads(m, ov, x, true, UNDEFINED) {
      assert Under(basis, ov);
      LeftUndefined(m, ov, k, w, e, x);
    }
  }

  /** References that expanding a value adds are to undefined names. */
  lemma AddedUndefined(m: View, basis: Option<seq<string>>, self: Option<string>, v: Value, e: Expansion)
    requires AllExpandTo(m, basis, self, v, e)
    ensures AllUndefined(m, basis, e.refs - Refs(v))
  {
    forall ov, x | Under(basis, ov) && x in e.refs - Refs(v) ensures Reads(m, ov, x, true, UNDEFINED) {
      var d: nat :| Expand(m, ov, d, self, v) == Some(e);
      ExpandSettles(m, ov, d, self, v);
      assert Ref(x) in e.value;
    }
  }

  /** The unexpanded value of k. */
  ghost predicate ReadsRaw(m: View, overrides: seq<string>, k: string, v: Option<Value>) {
    exists sub :: ReadsChosen(m, overrides, k, sub) && Assemble(m, overrides, k, sub) == v
  }

  // ---------------------------------------------------------------- references of removals

  /** The removals refer to the names only. */
  ghost predicate RemovesIn(removes: set<Value>, names: set<string>) {
    forall v | v in removes :: Refs(v) <= names
  }

  lemma {:induction false} ActiveRemovesIn(ops: seq<Op>, overrides: seq<string>)
    ensures RemovesIn(ActiveRemoves(ops, overrides), OpNames(ops))
  {
    if ops != [] {
      ActiveRemovesIn(ops[..|ops| - 1], overrides);
    }
  }

  lemma ReadOfKeeps(raw: Value, x: Expansion, expanded: map<Value, Expansion>)
    ensures Refs(OrEmpty(ReadOf(raw, x, expanded).parser.value)) <= Refs(x.value)
    ensures ReadOf(raw, x, expanded).parser.removes <= expanded.Keys
  {
    StripKeepsTokens(x.value, AllWords(WordsOf(expanded)));
  }
}
