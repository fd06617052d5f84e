/** Depths at which the writes of `StaleInputs` find all that they read. */
module StaleDepths {
  import opened Wrappers
  import opened Text
  import opened Store
  import opened Updates
  import opened AssignedCache
  import opened OverrideLists
  import opened LiveReads
  import opened Failures
  import opened WriteFailures
  import opened StaleInputs

  /** The operation words of the old syntax start with an underscore. */
  lemma OldSyntaxHas(name: string)
    requires IsOldSyntax(name)
    ensures '_' in name
  {
    var word := if Contains(name, "_append") then "_append" else if Contains(name, "_prepend") then "_prepend"
                else "_remove";
    var i: nat :| i <= |name| && StandsAt(name, word, i);
    assert name[i + 0] == word[0];
  }

  /** Assigning a name without variants fails only in following the references of the new value. */
  lemma OnlyTracking(m: View, name: string, value: Value, before: Option<seq<string>>, active: seq<string>,
                     vars: set<string>, depth: nat)
    requires LongerNames(m.variants) && '_' !in name && FindKeyword(name, 0).None? && name !in m.variants
    requires SetStops(m, name, value, false, before, active, vars, depth)
    ensures name in vars && Refs(value) != {}
    ensures TrackStops(AfterSetVar(m, name, value, false, active), before.Some?, before, depth, name, value)
  {
    if IsOldSyntax(name) {
      OldSyntaxHas(name);
    }
    assert OnTheWay(m, name, false, before, active) == {};
  }

  /** Text can be expanded and followed. */
  lemma RefTracks(m: View, basis: Option<seq<string>>, n: nat, depth: nat, name: string, pre: Value, x: string)
    requires x != name && Refs(pre) == {} && forall ov | Under(basis, ov) :: TextAt(m, ov, n, x)
    requires if basis.Some? then n <= depth else !NoList(m) && n <= Spare(m, depth)
    ensures !TrackStops(m, basis.Some?, basis, depth, name, pre + [Ref(x)])
  {
    var d := if basis.Some? then depth else Spare(m, depth);
    forall ov | Under(basis, ov)
      ensures Expand(m, ov, d, Some(name), pre + [Ref(x)]).Some? && Refs(pre + [Ref(x)]) == {x}
      ensures !NoneInvolved(m, ov, d, {x})
    {
      var r :| Eval(m, ov, n, x, true) == Some(r) && r.parser.value.Some? && Refs(r.parser.value.value) == {};
      EvalDeeper(m, ov, n, d, x, true);
      RefExpands(m, ov, d, name, pre, x, r, r.parser.value.value);
      OnlyItself(m, ov, d, x, r);
    }
    assert Under(basis, OneOf(basis));
  }

  lemma OnlyItself(m: View, ov: seq<string>, n: nat, x: string, r: Read)
    requires Eval(m, ov, n, x, true) == Some(r) && r.parser.value.Some? && Refs(r.parser.value.value) == {}
    ensures !NoneInvolved(m, ov, n, {x})
  {
    ReadingIs(m, ov, n, x, r);
    forall y | Involved(m, ov, {x}, y) ensures y == x {
      if y != x {
        var z, w :| z in {x} && ReadsValue(m, ov, z, Some(w)) && y in Refs(w);
        ValueIsOne(m, ov, x, Some(w), r.parser.value);
      }
    }
  }

  /** The list of the first input can be computed, with depth to spare for B. */
  lemma FirstDepth(depth: nat)
    requires depth >= 5
    ensures var m := ListFromB(OLD_TEXT, VARIANTS_OF_B);
            !ListStops(m, depth) && !TrackStops(m, false, None, depth, "OVERRIDES", [] + [Ref("B")])
  {
    var m := ListFromB(OLD_TEXT, VARIANTS_OF_B);
    forall ov ensures Eval(m, ov, 3, "OVERRIDES", true).Some? && TextAt(m, ov, 2, "B") {
      var text := OldReads(ov);
    }
    OneCharList('o');
    ListFromBReads(OLD_TEXT, VARIANTS_OF_B, []);
    ListFromBReads(OLD_TEXT, VARIANTS_OF_B, ["o"]);
    ListSettles(m, ["o"]);
    SpareIs(m, 3, depth);
    RefTracks(m, None, 2, depth, "OVERRIDES", [], "B");
  }

  lemma SecondListDepth(depth: nat)
    requires depth >= 1
    ensures !ListStops(TwoValuesOfC([Ch('a')]), depth)
  {
    var m := TwoValuesOfC([Ch('a')]);
    forall ov ensures Eval(m, ov, 1, "OVERRIDES", true).Some? && ListUnder(m, ov, ["a"]) {
      ListIsA(ov);
    }
    ListSettles(m, ["a"]);
    SpareIs(m, 1, depth);
  }

  lemma SecondDepth(depth: nat)
    requires depth >= 2
    ensures !TrackStops(TwoValuesOfC(LIST_WITH_C), true, Some(["a"]), depth, "OVERRIDES", LIST_WITH_C)
  {
    var m, pre: Value := TwoValuesOfC(LIST_WITH_C), [Ch('b'), Ch(':')];
    CUnderA(LIST_WITH_C);
    assert Refs(pre) == {};
    RefTracks(m, Some(["a"]), 2, depth, "OVERRIDES", pre, "C");
  }

  lemma ThirdDepth(c: char, depth: nat)
    requires c != ':' && depth >= 5
    ensures !ListStops(ListThroughA(c), depth)
    ensures !TrackStops(ListThroughA(c), false, None, depth, "OVERRIDES", [] + [Ref("A")])
  {
    var m := ListThroughA(c);
    forall ov ensures Eval(m, ov, 3, "OVERRIDES", true).Some? && TextAt(m, ov, 2, "A") && ListUnder(m, ov, [[c]]) {
      ListIsLetter(c, ov);
    }
    ListSettles(m, [[c]]);
    SpareIs(m, 3, depth);
    RefTracks(m, None, 2, depth, "OVERRIDES", [], "A");
  }
}
