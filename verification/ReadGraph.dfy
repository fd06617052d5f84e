/** Which names a read goes through, how deep that is, and exactly when a
    variable can be read at all. */
module ReadGraph {
  import opened Wrappers
  import opened Overrides
  import opened Store
  import opened Updates

  ghost predicate NoRemoves(m: View) {
    forall k | k in m.vars :: m.vars[k].removes == []
  }

  // ---------------------------------------------------------------- reads without removals

  lemma FinishWithoutRemoves(m: View, overrides: seq<string>, n: nat, k: string, exp: bool, sub: Read)
    requires NoRemoves(m) && sub.parser.removes == {} && Finish(m, overrides, n, k, exp, sub).Some?
    ensures var raw, r := Assemble(m, overrides, k, sub), Finish(m, overrides, n, k, exp, sub).value;
            if raw.None? then r == UNDEFINED
            else
              var x := Expand(m, overrides, n, Some(k), raw.value);
              x.Some? && r == Read(raw, Parser(Some(x.value.value), x.value.refs, {}))
  {
    var raw := Assemble(m, overrides, k, sub);
    if raw.Some? {
      var x := Expand(m, overrides, n, Some(k), raw.value).value;
      assert EntryOf(m, k).removes == [];
      assert ActiveRemoves([], overrides) == {};
      assert ToRemove(m, overrides, k, sub, if exp then x.value else raw.value) == {};
      assert Removed(m, overrides, n, raw.value, x, {}) == Some(Read(raw, Parser(Some(x.value), x.refs, {})));
    }
  }

  lemma {:induction false} NothingRemoved(m: View, overrides: seq<string>, n: nat, k: string, exp: bool)
    requires NoRemoves(m) && Eval(m, overrides, n, k, exp).Some?
    ensures Eval(m, overrides, n, k, exp).value.parser.removes == {}
  {
    var sub := EvalChosen(m, overrides, n - 1, k).value;
    if Chosen(m, overrides, k).Some? {
      NothingRemoved(m, overrides, n - 1, Chosen(m, overrides, k).value, false);
    }
    FinishWithoutRemoves(m, overrides, n - 1, k, exp, sub);
  }

  lemma ExpansionIsPass(m: View, overrides: seq<string>, n: nat, self: Option<string>, v: Value)
    requires Expand(m, overrides, n, self, v).Some?
    ensures Pass(m, overrides, n, self, v) == Some(Expand(m, overrides, n, self, v).value.value)
    ensures Refs(v) <= Expand(m, overrides, n, self, v).value.refs
  {
    PassUnresolved(m, overrides, n, self, v);
    PassOfUnresolved(m, overrides, n, self, Pass(m, overrides, n, self, v).value);
  }

  /** Without removals the expanded value is one pass over the unexpanded one. */
  lemma ValueIsPass(m: View, overrides: seq<string>, n: nat, k: string, r: Read)
    requires NoRemoves(m) && Eval(m, overrides, n, k, true) == Some(r)
    ensures r.raw.None? ==> r == UNDEFINED
    ensures r.raw.Some? ==>
              n > 0 && r.parser.value.Some? && Pass(m, overrides, n - 1, Some(k), r.raw.value) == r.parser.value
  {
    var sub := EvalChosen(m, overrides, n - 1, k).value;
    if Chosen(m, overrides, k).Some? {
      NothingRemoved(m, overrides, n - 1, Chosen(m, overrides, k).value, false);
    }
    FinishWithoutRemoves(m, overrides, n - 1, k, true, sub);
    var raw := Assemble(m, overrides, k, sub);
    if raw.Some? {
      ExpansionIsPass(m, overrides, n - 1, Some(k), raw.value);
    }
  }

  // ---------------------------------------------------------------- the graph

  /** The recorded names that are longer than k. */
  ghost function LongerOnes(m: View, k: string): set<string> {
    set b, v | b in m.variants && v in m.variants[b] && |v.name| > |k| :: v.name
  }

  lemma ChosenIsRecorded(m: View, overrides: seq<string>, k: string)
    ensures Chosen(m, overrides, k).Some? ==>
              k in m.variants && exists v | v in m.variants[k] :: v.name == Chosen(m, overrides, k).value
  {
    if k in m.variants {
      CollectFacts(m.variants[k], overrides);
      RoundsChooseStored(overrides, CollectActive(m.variants[k], overrides), None);
    }
  }

  lemma ChosenIsLonger(m: View, overrides: seq<string>, k: string)
    requires LongerNames(m.variants) && Chosen(m, overrides, k).Some?
    ensures LongerOnes(m, Chosen(m, overrides, k).value) < LongerOnes(m, k)
  {
    ChosenIsRecorded(m, overrides, k);
    var v :| v in m.variants[k] && v.name == Chosen(m, overrides, k).value;
    assert LongerThan(m.variants[k], k);
    assert v.name in LongerOnes(m, k) && v.name !in LongerOnes(m, v.name);
  }

  /** The unexpanded value of k: no expansion takes part in it. */
  ghost function Raw(m: View, overrides: seq<string>, k: string): Option<Value>
    requires LongerNames(m.variants)
    decreases LongerOnes(m, k)
  {
    var chosen := Chosen(m, overrides, k);
    if chosen.Some? then
      ChosenIsLonger(m, overrides, k);
      Assemble(m, overrides, k, Read(Raw(m, overrides, chosen.value), UNDEFINED.parser))
    else Assemble(m, overrides, k, UNDEFINED)
  }

  ghost function RawOfChosen(m: View, overrides: seq<string>, k: string): Option<Value>
    requires LongerNames(m.variants)
  {
    var chosen := Chosen(m, overrides, k);
    if chosen.Some? then Raw(m, overrides, chosen.value) else None
  }

  lemma RawParts(m: View, overrides: seq<string>, k: string, sub: Read)
    requires LongerNames(m.variants) && sub.raw == RawOfChosen(m, overrides, k)
    ensures Raw(m, overrides, k) == Assemble(m, overrides, k, sub)
  {
  }

  /** What a read of k reads in turn: the chosen variant, and the references of the unexpanded value. */
  ghost function Next(m: View, overrides: seq<string>, k: string): set<string>
    requires LongerNames(m.variants)
  {
    var chosen := Chosen(m, overrides, k);
    (if chosen.Some? then {chosen.value} else {}) + Refs(OrEmpty(Raw(m, overrides, k)))
  }

  lemma ChosenIsNext(m: View, overrides: seq<string>, k: string)
    requires LongerNames(m.variants)
    ensures var c := Chosen(m, overrides, k);
            c.Some? ==> c.value in Next(m, overrides, k)
                        && exists b, v | b in m.variants && v in m.variants[b] :: v.name == c.value
  {
    ChosenIsRecorded(m, overrides, k);
  }

  lemma {:induction false} EvalRaw(m: View, overrides: seq<string>, n: nat, k: string, exp: bool)
    requires LongerNames(m.variants) && Eval(m, overrides, n, k, exp).Some?
    ensures Eval(m, overrides, n, k, exp).value.raw == Raw(m, overrides, k)
  {
    var sub := EvalChosen(m, overrides, n - 1, k).value;
    if Chosen(m, overrides, k).Some? {
      EvalRaw(m, overrides, n - 1, Chosen(m, overrides, k).value, false);
    }
    var raw := Assemble(m, overrides, k, sub);
    assert raw == Raw(m, overrides, k);
    if raw.Some? {
      var x := Expand(m, overrides, n - 1, Some(k), raw.value).value;
      RemovedKeepsTokens(m, overrides, n - 1, raw.value, x,
        ToRemove(m, overrides, k, sub, if exp then x.value else raw.value));
    }
  }

  // ---------------------------------------------------------------- how deep a read goes

  /** No chain of reads that starts at k has more than n names. */
  ghost predicate Shallow(m: View, overrides: seq<string>, n: nat, k: string)
    requires LongerNames(m.variants)
  {
    n > 0 && forall y | y in Next(m, overrides, k) :: Shallow(m, overrides, n - 1, y)
  }

  lemma {:induction false} LoopIsDeep(m: View, overrides: seq<string>, n: nat, k: string)
    requires LongerNames(m.variants) && k in Next(m, overrides, k)
    ensures !Shallow(m, overrides, n, k)
  {
    if n > 0 {
      LoopIsDeep(m, overrides, n - 1, k);
    }
  }

  /** Every reference in v, none of them self, can be read at this depth. */
  ghost predicate RefsWork(m: View, overrides: seq<string>, n: nat, self: string, v: Value) {
    forall x | x in Refs(v) :: x != self && Eval(m, overrides, n, x, true).Some?
  }

  lemma {:induction false} PassWorks(m: View, overrides: seq<string>, n: nat, self: string, v: Value)
    ensures Pass(m, overrides, n, Some(self), v).Some? <==> RefsWork(m, overrides, n, self, v)
  {
    if v != [] {
      var init, t := v[..|v| - 1], v[|v| - 1];
      PassWorks(m, overrides, n, self, init);
      RefsStep(v);
    }
  }

  lemma ExpandWorks(m: View, overrides: seq<string>, n: nat, k: string, v: Value)
    requires LongerNames(m.variants) && Raw(m, overrides, k).Some?
    ensures Expand(m, overrides, n, Some(k), v).Some? <==> RefsWork(m, overrides, n, k, v)
  {
    PassWorks(m, overrides, n, k, v);
    var p := Pass(m, overrides, n, Some(k), v);
    if p.Some? {
      PassUnresolved(m, overrides, n, Some(k), v);
      if Ref(k) in p.value {
        EvalRaw(m, overrides, n, k, true);
        assert false;
      }
      PassOfUnresolved(m, overrides, n, Some(k), p.value);
    }
  }

  lemma FinishWorks(m: View, overrides: seq<string>, n: nat, k: string, exp: bool, sub: Read)
    requires NoRemoves(m) && LongerNames(m.variants)
    requires EvalChosen(m, overrides, n, k) == Some(sub) && sub.parser.removes == {}
    ensures Finish(m, overrides, n, k, exp, sub).Some? <==>
              RefsWork(m, overrides, n, k, OrEmpty(Raw(m, overrides, k)))
  {
    if Chosen(m, overrides, k).Some? {
      EvalRaw(m, overrides, n, Chosen(m, overrides, k).value, false);
    }
    var raw := Assemble(m, overrides, k, sub);
    assert raw == Raw(m, overrides, k);
    if raw.Some? {
      assert OrEmpty(raw) == raw.value;
      ExpandWorks(m, overrides, n, k, raw.value);
      var x := Expand(m, overrides, n, Some(k), raw.value);
      if x.Some? {
        assert EntryOf(m, k).removes == [];
        assert ActiveRemoves([], overrides) == {};
        assert ToRemove(m, overrides, k, sub, if exp then x.value.value else raw.value) == {};
        var r := Read(raw, Parser(Some(x.value.value), x.value.refs, {}));
        assert Removed(m, overrides, n, raw.value, x.value, {}) == Some(r);
        assert Finish(m, overrides, n, k, exp, sub) == Some(r);
      }
    }
  }

  /** The chosen variant and the references of the unexpanded value, none of them k, can be read. */
  ghost predicate PartsWork(m: View, overrides: seq<string>, n: nat, k: string)
    requires LongerNames(m.variants)
  {
    && (Chosen(m, overrides, k).Some? ==> Eval(m, overrides, n, Chosen(m, overrides, k).value, false).Some?)
    && RefsWork(m, overrides, n, k, OrEmpty(Raw(m, overrides, k)))
  }

  lemma EvalParts(m: View, overrides: seq<string>, n: nat, k: string, exp: bool)
    requires NoRemoves(m) && LongerNames(m.variants)
    ensures Eval(m, overrides, n + 1, k, exp).Some? <==> PartsWork(m, overrides, n, k)
  {
    var sub, chosen := EvalChosen(m, overrides, n, k), Chosen(m, overrides, k);
    assert chosen.Some? ==> sub == Eval(m, overrides, n, chosen.value, false);
    if sub.Some? {
      if chosen.Some? {
        NothingRemoved(m, overrides, n, chosen.value, false);
      }
      FinishWorks(m, overrides, n, k, exp, sub.value);
      assert Eval(m, overrides, n + 1, k, exp) == Finish(m, overrides, n, k, exp, sub.value);
    } else {
      assert Eval(m, overrides, n + 1, k, exp).None?;
    }
  }

  /** The chosen variant and the references of the unexpanded value are shallow. */
  ghost predicate PartsShallow(m: View, overrides: seq<string>, n: nat, k: string)
    requires LongerNames(m.variants)
  {
    && (Chosen(m, overrides, k).Some? ==> Shallow(m, overrides, n, Chosen(m, overrides, k).value))
    && forall x | x in Refs(OrEmpty(Raw(m, overrides, k))) :: Shallow(m, overrides, n, x)
  }

  lemma NextIsShallower(m: View, overrides: seq<string>, n: nat, k: string, y: string)
    requires LongerNames(m.variants) && Shallow(m, overrides, n, k) && y in Next(m, overrides, k)
    ensures n > 1 && Shallow(m, overrides, n - 1, y)
  {
  }

  lemma ShallowParts(m: View, overrides: seq<string>, n: nat, k: string)
    requires LongerNames(m.variants) && n > 0
    ensures Shallow(m, overrides, n, k) <==> PartsShallow(m, overrides, n - 1, k)
  {
    var chosen := Chosen(m, overrides, k);
    if Shallow(m, overrides, n, k) {
      if chosen.Some? {
        NextIsShallower(m, overrides, n, k, chosen.value);
      }
      forall x | x in Refs(OrEmpty(Raw(m, overrides, k))) ensures Shallow(m, overrides, n - 1, x) {
        NextIsShallower(m, overrides, n, k, x);
      }
    } else if PartsShallow(m, overrides, n - 1, k) {
      forall y | y in Next(m, overrides, k) ensures Shallow(m, overrides, n - 1, y) {
        if y !in Refs(OrEmpty(Raw(m, overrides, k))) {
          assert chosen == Some(y);
        }
      }
      assert false;
    }
  }

  /** The depth that a read needs is the length of the longest chain of reads that starts at it. */
  lemma {:induction false} DepthNeeded(m: View, overrides: seq<string>, n: nat, k: string, exp: bool)
    requires NoRemoves(m) && LongerNames(m.variants)
    ensures Eval(m, overrides, n, k, exp).Some? <==> Shallow(m, overrides, n, k)
    decreases n, 0
  {
    if n > 0 {
      EvalParts(m, overrides, n - 1, k, exp);
      ShallowParts(m, overrides, n, k);
      PartsAgree(m, overrides, n - 1, k);
    }
  }

  lemma {:induction false} PartsAgree(m: View, overrides: seq<string>, n: nat, k: string)
    requires NoRemoves(m) && LongerNames(m.variants)
    ensures PartsWork(m, overrides, n, k) <==> PartsShallow(m, overrides, n, k)
    decreases n, 1
  {
    var chosen := Chosen(m, overrides, k);
    if chosen.Some? {
      DepthNeeded(m, overrides, n, chosen.value, false);
    }
    forall x | x in Refs(OrEmpty(Raw(m, overrides, k)))
      ensures x != k && Eval(m, overrides, n, x, true).Some? <==> Shallow(m, overrides, n, x)
    {
      DepthNeeded(m, overrides, n, x, true);
      if x == k {
        LoopIsDeep(m, overrides, n, k);
      }
    }
  }

  // ---------------------------------------------------------------- cycles

  /** Each name is read by the one before it. */
  ghost predicate IsChain(m: View, overrides: seq<string>, chain: seq<string>)
    requires LongerNames(m.variants)
  {
    forall i | 0 < i < |chain| :: ReadBefore(m, overrides, chain, i)
  }

  ghost predicate ReadBefore(m: View, overrides: seq<string>, chain: seq<string>, i: nat)
    requires LongerNames(m.variants) && 0 < i < |chain|
  {
    chain[i] in Next(m, overrides, chain[i - 1])
  }

  /** A chain of reads from k comes back to a name. */
  ghost predicate Cyclic(m: View, overrides: seq<string>, k: string)
    requires LongerNames(m.variants)
  {
    exists chain, i, j | 0 <= i < j < |chain| ::
      IsChain(m, overrides, chain) && chain[0] == k && chain[i] == chain[j]
  }

  lemma ChainStep(m: View, overrides: seq<string>, n: nat, chain: seq<string>, j: nat)
    requires LongerNames(m.variants) && IsChain(m, overrides, chain) && 0 < j < |chain|
    requires Shallow(m, overrides, n, chain[j - 1])
    ensures n > 1 && Shallow(m, overrides, n - 1, chain[j])
  {
    assert ReadBefore(m, overrides, chain, j);
    NextIsShallower(m, overrides, n, chain[j - 1], chain[j]);
  }

  /** What is left of the depth at j. */
  lemma {:induction false} ChainIsShallow(m: View, overrides: seq<string>, n: nat, chain: seq<string>, j: nat)
    returns (d: nat)
    requires LongerNames(m.variants) && IsChain(m, overrides, chain) && j < |chain|
    requires Shallow(m, overrides, n, chain[0])
    ensures d == n - j && Shallow(m, overrides, d, chain[j])
    decreases j
  {
    d := n;
    if j > 0 {
      var before := ChainIsShallow(m, overrides, n, chain, j - 1);
      ChainStep(m, overrides, before, chain, j);
      d := before - 1;
    }
  }

  lemma {:induction false} CycleIsDeep(m: View, overrides: seq<string>, n: nat, cycle: seq<string>)
    requires LongerNames(m.variants) && IsChain(m, overrides, cycle)
    requires |cycle| > 1 && cycle[0] == cycle[|cycle| - 1]
    ensures !Shallow(m, overrides, n, cycle[0])
  {
    if Shallow(m, overrides, n, cycle[0]) {
      var d := ChainIsShallow(m, overrides, n, cycle, |cycle| - 1);
      CycleIsDeep(m, overrides, d, cycle);
    }
  }

  /** A read that is deeper than n has a chain of more than n names. */
  lemma {:induction false} DeepChain(m: View, overrides: seq<string>, n: nat, k: string) returns (chain: seq<string>)
    requires LongerNames(m.variants) && !Shallow(m, overrides, n, k)
    ensures IsChain(m, overrides, chain) && |chain| == n + 1 && chain[0] == k
  {
    if n == 0 {
      chain := [k];
    } else {
      var y :| y in Next(m, overrides, k) && !Shallow(m, overrides, n - 1, y);
      var rest := DeepChain(m, overrides, n - 1, y);
      chain := [k] + rest;
      forall i | 0 < i < |chain| ensures ReadBefore(m, overrides, chain, i) {
        if i > 1 {
          assert ReadBefore(m, overrides, rest, i - 1);
        }
      }
    }
  }

  lemma {:induction false} Repeats(names: set<string>, s: seq<string>) returns (i: nat, j: nat)
    requires |s| > |names| && forall x | x in s :: x in names
    ensures i < j < |s| && s[i] == s[j]
  {
    var n := |s| - 1;
    var last := s[n];
    if last in s[..n] {
      i :| i < n && s[i] == last;
      j := n;
    } else {
      var rest := names - {last};
      assert last in s && |rest| == |names| - 1;
      forall x | x in s[..n] ensures x in rest {
        assert x in s;
      }
      i, j := Repeats(rest, s[..n]);
    }
  }

  // ---------------------------------------------------------------- the names a store mentions

  function OpNames(ops: seq<Op>): set<string> {
    if ops == [] then {} else OpNames(ops[..|ops| - 1]) + Refs(ops[|ops| - 1].value)
  }

  function EntryNames(e: Entry): set<string> {
    Refs(OrEmpty(e.content)) + Refs(OrEmpty(e.weak)) + OpNames(e.appends) + OpNames(e.prepends)
  }

  function NamesIn(m: View): set<string> {
    set k, x | k in m.vars && x in EntryNames(m.vars[k]) :: x
  }

  lemma {:induction false} AppendedNames(v: Option<Value>, ops: seq<Op>, overrides: seq<string>)
    ensures Refs(OrEmpty(Appended(v, ops, overrides))) <= Refs(OrEmpty(v)) + OpNames(ops)
  {
    if ops != [] {
      AppendedNames(v, ops[..|ops| - 1], overrides);
      RefsAppend(OrEmpty(Appended(v, ops[..|ops| - 1], overrides)), ops[|ops| - 1].value);
    }
  }

  lemma {:induction false} PrependedNames(v: Option<Value>, ops: seq<Op>, overrides: seq<string>)
    ensures Refs(OrEmpty(Prepended(v, ops, overrides))) <= Refs(OrEmpty(v)) + OpNames(ops)
  {
    if ops != [] {
      PrependedNames(v, ops[..|ops| - 1], overrides);
      RefsAppend(ops[|ops| - 1].value, OrEmpty(Prepended(v, ops[..|ops| - 1], overrides)));
    }
  }

  lemma AssembleNames(m: View, overrides: seq<string>, k: string, sub: Read)
    requires Refs(OrEmpty(sub.raw)) <= NamesIn(m)
    ensures Refs(OrEmpty(Assemble(m, overrides, k, sub))) <= NamesIn(m)
  {
    var e := EntryOf(m, k);
    assert k in m.vars ==> EntryNames(e) <= NamesIn(m);
    var start := if sub.raw.Some? then sub.raw else Base(e);
    AppendedNames(start, e.appends, overrides);
    PrependedNames(Appended(start, e.appends, overrides), e.prepends, overrides);
  }

  lemma {:induction false} RawNames(m: View, overrides: seq<string>, k: string)
    requires LongerNames(m.variants)
    ensures Refs(OrEmpty(Raw(m, overrides, k))) <= NamesIn(m)
    decreases LongerOnes(m, k)
  {
    var chosen := Chosen(m, overrides, k);
    if chosen.Some? {
      ChosenIsLonger(m, overrides, k);
      RawNames(m, overrides, chosen.value);
      AssembleNames(m, overrides, k, Read(Raw(m, overrides, chosen.value), UNDEFINED.parser));
    } else {
      AssembleNames(m, overrides, k, UNDEFINED);
    }
  }

  /** The names that can be read through another one. */
  ghost function Readables(m: View): set<string> {
    NamesIn(m) + set b, v | b in m.variants && v in m.variants[b] :: v.name
  }

  lemma NextIsReadable(m: View, overrides: seq<string>, k: string)
    requires LongerNames(m.variants)
    ensures Next(m, overrides, k) <= Readables(m)
  {
    RawNames(m, overrides, k);
    ChosenIsRecorded(m, overrides, k);
  }

  lemma TailIsReadable(m: View, overrides: seq<string>, chain: seq<string>)
    requires LongerNames(m.variants) && IsChain(m, overrides, chain)
    ensures forall i | 0 < i < |chain| :: chain[i] in Readables(m)
  {
    forall i | 0 < i < |chain| ensures chain[i] in Readables(m) {
      assert ReadBefore(m, overrides, chain, i);
      NextIsReadable(m, overrides, chain[i - 1]);
    }
  }

  /** A chain of reads with more names than there are comes back to one. */
  lemma DeepIsCyclic(m: View, overrides: seq<string>, k: string)
    requires LongerNames(m.variants) && !Shallow(m, overrides, |Readables(m)| + 1, k)
    ensures Cyclic(m, overrides, k)
  {
    var chain := DeepChain(m, overrides, |Readables(m)| + 1, k);
    TailIsReadable(m, overrides, chain);
    var i, j := TailRepeats(Readables(m), chain);
  }

  lemma TailRepeats(names: set<string>, chain: seq<string>) returns (i: nat, j: nat)
    requires |chain| > |names| + 1 && forall i | 0 < i < |chain| :: chain[i] in names
    ensures i < j < |chain| && chain[i] == chain[j]
  {
    var tail := chain[1..];
    forall x | x in tail ensures x in names {
      var l :| 0 <= l < |tail| && x == tail[l];
      assert tail[l] == chain[l + 1];
    }
    i, j := Repeats(names, tail);
    assert tail[i] == chain[i + 1] && tail[j] == chain[j + 1];
    i, j := i + 1, j + 1;
  }

  /** Without removals, k can be read if and only if no chain of reads that starts at it comes
      back to a name; and then a depth of one more than the number of names is enough. */
  lemma ReadsIffAcyclic(m: View, overrides: seq<string>, k: string, exp: bool)
    requires NoRemoves(m) && LongerNames(m.variants)
    ensures (exists r :: Reads(m, overrides, k, exp, r)) <==> !Cyclic(m, overrides, k)
    ensures !Cyclic(m, overrides, k) ==>
              forall n | n > |Readables(m)| :: Eval(m, overrides, n, k, exp).Some?
  {
    if Cyclic(m, overrides, k) {
      var chain, i: nat, j: nat :| 0 <= i < j < |chain| &&
        IsChain(m, overrides, chain) && chain[0] == k && chain[i] == chain[j];
      forall r ensures !Reads(m, overrides, k, exp, r) {
        if Reads(m, overrides, k, exp, r) {
          var n: nat :| Eval(m, overrides, n, k, exp) == Some(r);
          DepthNeeded(m, overrides, n, k, exp);
          var d := ChainIsShallow(m, overrides, n, chain, i);
          var cycle := chain[i..j + 1];
          forall l | 0 < l < |cycle| ensures ReadBefore(m, overrides, cycle, l) {
            assert ReadBefore(m, overrides, chain, i + l);
          }
          CycleIsDeep(m, overrides, d, cycle);
        }
      }
    } else {
      var n := |Readables(m)| + 1;
      if !Shallow(m, overrides, n, k) {
        DeepIsCyclic(m, overrides, k);
      }
      DepthNeeded(m, overrides, n, k, exp);
      var r := Eval(m, overrides, n, k, exp).value;
      assert Reads(m, overrides, k, exp, r);
      forall d | d >= n ensures Eval(m, overrides, d, k, exp).Some? {
        EvalDeeper(m, overrides, n, d, k, exp);
      }
    }
  }
}
