/** Choosing the variant of a variable that the active overrides select: the
    strip-and-match loop of `getVarFlag`. */
module Overrides {
  import opened Wrappers
  import opened Text

  /** One entry of `overridedata`: the full name of a variant and its override suffix. */
  datatype Variant = Variant(name: string, suffix: string)

  /** The dictionary `active`, from override suffix to variant name. It keeps its
      insertion order, because the loop iterates over it. */
  datatype Active = Active(order: seq<string>, names: map<string, string>) {
    ghost predicate Valid() {
      && Distinct(order)
      && (forall k :: k in order <==> k in names)
    }

    function Put(k: string, v: string): Active {
      Active(if k in names then order else order + [k], names[k := v])
    }

    function Drop(k: string): Active {
      Active(Without(order, k), names - {k})
    }
  }

  function Without(keys: seq<string>, k: string): seq<string> {
    if keys == [] then []
    else
      var n := |keys| - 1;
      if keys[n] == k then keys[..n] else Without(keys[..n], k) + [keys[n]]
  }

  /** The measure that falls whenever a key is shortened. */
  function Weight(keys: seq<string>): nat {
    if keys == [] then 0 else Weight(keys[..|keys| - 1]) + |keys[|keys| - 1]| + 1
  }

  lemma {:induction false} WithoutMembers(keys: seq<string>, k: string)
    requires Distinct(keys)
    ensures forall x :: x in Without(keys, k) <==> x in keys && x != k
  {
    if keys != [] {
      var n := |keys| - 1;
      assert forall x :: x in keys <==> x in keys[..n] || x == keys[n];
      if keys[n] != k {
        WithoutMembers(keys[..n], k);
      }
    }
  }

  lemma {:induction false} WithoutDistinct(keys: seq<string>, k: string)
    requires Distinct(keys)
    ensures Distinct(Without(keys, k))
  {
    if keys != [] {
      var n := |keys| - 1;
      if keys[n] != k {
        var init := Without(keys[..n], k);
        WithoutDistinct(keys[..n], k);
        WithoutMembers(keys[..n], k);
        forall i | 0 <= i < |init| ensures init[i] != keys[n] {
          assert init[i] in keys[..n];
        }
      }
    }
  }

  lemma {:induction false} WithoutWeight(keys: seq<string>, k: string)
    requires k in keys
    ensures Weight(Without(keys, k)) == Weight(keys) - |k| - 1
  {
    var n := |keys| - 1;
    if keys[n] != k {
      assert k in keys[..n];
      WithoutWeight(keys[..n], k);
      WeightAppend(Without(keys[..n], k), keys[n]);
    }
  }

  lemma WeightAppend(keys: seq<string>, k: string)
    ensures Weight(keys + [k]) == Weight(keys) + |k| + 1
  {
    assert (keys + [k])[..|keys + [k]| - 1] == keys;
  }

  lemma PutFacts(d: Active, k: string, v: string)
    requires d.Valid()
    ensures d.Put(k, v).Valid()
    ensures Weight(d.Put(k, v).order) <= Weight(d.order) + |k| + 1
  {
    WeightAppend(d.order, k);
  }

  lemma DropFacts(d: Active, k: string)
    requires d.Valid()
    ensures d.Drop(k).Valid()
    ensures k in d.names ==> Weight(d.Drop(k).order) == Weight(d.order) - |k| - 1
  {
    WithoutDistinct(d.order, k);
    if k in d.names { WithoutWeight(d.order, k); }
    WithoutMembers(d.order, k);
  }

  // ---------------------------------------------------------------- the loop

  /** Every component of the suffix is in the override list. */
  predicate IsActive(suffix: string, overrides: seq<string>) {
    suffix in overrides || (':' in suffix && forall c | c in Split(suffix, ':') :: c in overrides)
  }

  function CollectActive(variants: seq<Variant>, overrides: seq<string>): Active {
    if variants == [] then Active([], map[])
    else
      var d := CollectActive(variants[..|variants| - 1], overrides);
      var v := variants[|variants| - 1];
      if IsActive(v.suffix, overrides) then d.Put(v.suffix, v.name) else d
  }

  datatype LoopState = LoopState(active: Active, chosen: Option<string>, changed: bool)

  /** The body of the two inner loops: key a against override o. */
  function Visit(a: string, o: string, s: LoopState): LoopState {
    if a !in s.active.names then s
    else if EndsWith(a, ":" + o) then
      LoopState(s.active.Drop(a).Put(RemoveAll(a, ":" + o), s.active.names[a]), s.chosen, true)
    else if a == o then
      LoopState(s.active.Drop(a), Some(s.active.names[a]), s.changed)
    else s
  }

  function VisitKeys(keys: seq<string>, o: string, s: LoopState): LoopState {
    if keys == [] then s
    else Visit(keys[|keys| - 1], o, VisitKeys(keys[..|keys| - 1], o, s))
  }

  /** One round over all overrides; each works on a snapshot of the keys. */
  function Round(overrides: seq<string>, s: LoopState): LoopState {
    if overrides == [] then s
    else
      var t := Round(overrides[..|overrides| - 1], s);
      VisitKeys(t.active.order, overrides[|overrides| - 1], t)
  }

  /** What each step keeps: unique keys, no variant name from elsewhere, and a
      weight that falls with every shortening. */
  ghost predicate Shrinks(s: LoopState, t: LoopState) {
    && t.active.Valid()
    && t.active.names.Values <= s.active.names.Values
    && (t.chosen == s.chosen || (t.chosen.Some? && t.chosen.value in s.active.names.Values))
    && Weight(t.active.order) <= Weight(s.active.order)
    && (t.changed && !s.changed ==> Weight(t.active.order) < Weight(s.active.order))
    && (s.changed ==> t.changed)
    && (s.active.order != [] ==> t.active.order != [] || t.chosen.Some?)
    && (s.chosen.Some? ==> t.chosen.Some?)
  }

  lemma {:induction false} RemoveShortens(s: string, pat: string)
    requires pat != "" && EndsWith(s, pat)
    ensures |RemoveAll(s, pat)| < |s|
  {
    if s[..|pat|] != pat {
      assert EndsWith(s[1..], pat);
      RemoveShortens(s[1..], pat);
    }
  }

  lemma VisitShrinks(a: string, o: string, s: LoopState)
    requires s.active.Valid()
    ensures Shrinks(s, Visit(a, o, s))
  {
    if a in s.active.names {
      DropFacts(s.active, a);
      if EndsWith(a, ":" + o) {
        RemoveShortens(a, ":" + o);
        var shorter := RemoveAll(a, ":" + o);
        PutFacts(s.active.Drop(a), shorter, s.active.names[a]);
        assert shorter in Visit(a, o, s).active.order;
      }
    }
  }

  lemma {:induction false} VisitKeysShrinks(keys: seq<string>, o: string, s: LoopState)
    requires s.active.Valid()
    ensures Shrinks(s, VisitKeys(keys, o, s))
  {
    if keys != [] {
      VisitKeysShrinks(keys[..|keys| - 1], o, s);
      VisitShrinks(keys[|keys| - 1], o, VisitKeys(keys[..|keys| - 1], o, s));
    }
  }

  lemma {:induction false} RoundShrinks(overrides: seq<string>, s: LoopState)
    requires s.active.Valid()
    ensures Shrinks(s, Round(overrides, s))
  {
    if overrides != [] {
      RoundShrinks(overrides[..|overrides| - 1], s);
      var t := Round(overrides[..|overrides| - 1], s);
      VisitKeysShrinks(t.active.order, overrides[|overrides| - 1], t);
    }
  }

  /** The rounds, until one changes nothing. */
  function Rounds(overrides: seq<string>, active: Active, chosen: Option<string>): LoopState
    requires active.Valid()
    decreases Weight(active.order)
  {
    var t := Round(overrides, LoopState(active, chosen, false));
    RoundShrinks(overrides, LoopState(active, chosen, false));
    if t.changed then Rounds(overrides, t.active, t.chosen) else t
  }

  /** The loop chooses among the names it starts with. */
  lemma {:induction false} RoundsChooseStored(overrides: seq<string>, active: Active, chosen: Option<string>)
    requires active.Valid()
    ensures var c := Rounds(overrides, active, chosen).chosen;
            c == chosen || (c.Some? && c.value in active.names.Values)
    ensures chosen.Some? ==> Rounds(overrides, active, chosen).chosen.Some?
    decreases Weight(active.order)
  {
    var s := LoopState(active, chosen, false);
    RoundShrinks(overrides, s);
    var t := Round(overrides, s);
    if t.changed {
      RoundsChooseStored(overrides, t.active, t.chosen);
    }
  }

  lemma {:induction false} CollectValid(variants: seq<Variant>, overrides: seq<string>)
    ensures CollectActive(variants, overrides).Valid()
  {
    if variants != [] {
      var init, v := variants[..|variants| - 1], variants[|variants| - 1];
      CollectValid(init, overrides);
      PutFacts(CollectActive(init, overrides), v.suffix, v.name);
    }
  }

  /** The keys are the suffixes of active variants, and each goes to a variant with that suffix. */
  lemma {:induction false} CollectFacts(variants: seq<Variant>, overrides: seq<string>)
    ensures CollectActive(variants, overrides).Valid()
    ensures forall v | v in variants && IsActive(v.suffix, overrides) ::
              v.suffix in CollectActive(variants, overrides).names
    ensures forall k | k in CollectActive(variants, overrides).names ::
              Variant(CollectActive(variants, overrides).names[k], k) in variants && IsActive(k, overrides)
  {
    CollectValid(variants, overrides);
    if variants != [] {
      var init, v := variants[..|variants| - 1], variants[|variants| - 1];
      CollectFacts(init, overrides);
      assert v == Variant(v.name, v.suffix);
      assert forall w :: w in variants <==> w in init || w == v;
    }
  }

  /** The variant the override list selects, if any. */
  function Pick(variants: seq<Variant>, overrides: seq<string>): Option<string> {
    CollectFacts(variants, overrides);
    Rounds(overrides, CollectActive(variants, overrides), None).chosen
  }

  ghost predicate AnyActive(variants: seq<Variant>, overrides: seq<string>) {
    exists v | v in variants :: IsActive(v.suffix, overrides)
  }

  // ---------------------------------------------------------------- imperative form

  /** One override against a snapshot of the keys. */
  method StripAndMatch(o: string, active0: Active, chosen0: Option<string>, mod0: bool)
    returns (active: Active, chosen: Option<string>, mod: bool)
    requires active0.Valid()
    ensures LoopState(active, chosen, mod) == VisitKeys(active0.order, o, LoopState(active0, chosen0, mod0))
  {
    active, chosen, mod := active0, chosen0, mod0;
    var keys := active.order;
    ghost var before := LoopState(active, chosen, mod);
    for k := 0 to |keys|
      invariant LoopState(active, chosen, mod) == VisitKeys(keys[..k], o, before)
      invariant forall m | k <= m < |keys| :: keys[m] in active.names
    {
      var a := keys[k];
      assert keys[..k + 1][..k] == keys[..k];
      if EndsWith(a, ":" + o) {
        var t := active.names[a];
        active := active.Drop(a);
        active := active.Put(RemoveAll(a, ":" + o), t);
        mod := true;
      } else if a == o {
        chosen := Some(active.names[a]);
        active := active.Drop(a);
      }
    }
    assert keys[..|keys|] == keys;
  }

  method Resolve(variants: seq<Variant>, overrides: seq<string>) returns (chosen: Option<string>)
    ensures chosen == Pick(variants, overrides)
  {
    var active := Active([], map[]);
    for i := 0 to |variants|
      invariant active == CollectActive(variants[..i], overrides)
    {
      assert variants[..i + 1][..i] == variants[..i];
      if IsActive(variants[i].suffix, overrides) {
        active := active.Put(variants[i].suffix, variants[i].name);
      }
    }
    assert variants[..|variants|] == variants;
    CollectFacts(variants, overrides);
    chosen := None;
    var mod := true;
    ghost var goal := Rounds(overrides, active, None);
    while mod
      invariant active.Valid()
      invariant mod ==> Rounds(overrides, active, chosen) == goal
      invariant !mod ==> chosen == goal.chosen
      decreases mod, Weight(active.order)
    {
      ghost var start := LoopState(active, chosen, false);
      RoundShrinks(overrides, start);
      mod := false;
      for j := 0 to |overrides|
        invariant LoopState(active, chosen, mod) == Round(overrides[..j], start)
      {
        var o := overrides[j];
        assert overrides[..j + 1][..j] == overrides[..j];
        RoundShrinks(overrides[..j], start);
        active, chosen, mod := StripAndMatch(o, active, chosen, mod);
      }
      assert overrides[..|overrides|] == overrides;
    }
  }
}
