/** Why reads end in an error. Under a fixed list a read fails only where the specification has no
    result at its depth. Without one the list may have to be computed on the way, at any point: then
    there is no list, or the specification has no result at the depth that is left when what reading
    OVERRIDES needs is set aside. */
module Failures {
  import opened Wrappers
  import opened Store
  import opened ReadGraph
  import opened OverrideLists
  import opened LiveReads

  // ---------------------------------------------------------------- computing the list

  /** OVERRIDES can be read at this depth, under every list. */
  ghost predicate ListReads(m: View, depth: nat) {
    forall ov :: Eval(m, ov, depth, "OVERRIDES", true).Some?
  }

  /** Computing the list at this depth fails. */
  ghost predicate ListStops(m: View, depth: nat) {
    KeepsChanging(m) || !ListReads(m, depth)
  }

  /** At no depth can a list be computed. */
  ghost predicate NoList(m: View) {
    KeepsChanging(m) || forall n: nat :: !ListReads(m, n)
  }

  /** The least depth at which OVERRIDES can be read. */
  ghost function ListDepth(m: View): (d: nat)
    ensures (exists n: nat :: ListReads(m, n)) ==> ListReads(m, d) && forall n: nat | n < d :: !ListReads(m, n)
  {
    if exists n: nat :: ListReads(m, n) then
      var n: nat :| ListReads(m, n);
      LeastDepth(m, n)
    else 0
  }

  ghost function LeastDepth(m: View, n: nat): (d: nat)
    requires ListReads(m, n)
    ensures d <= n && ListReads(m, d) && forall l: nat | l < d :: !ListReads(m, l)
  {
    if exists l: nat | l < n :: ListReads(m, l) then
      var l: nat :| l < n && ListReads(m, l);
      LeastDepth(m, l)
    else n
  }

  /** The depth that is left. */
  ghost function Spare(m: View, depth: nat): nat {
    if depth < ListDepth(m) then 0 else depth - ListDepth(m)
  }

  lemma ListNeeds(m: View, depth: nat)
    requires ListStops(m, depth)
    ensures NoList(m) || depth < ListDepth(m)
  {
    if !NoList(m) && depth >= ListDepth(m) {
      var n: nat :| ListReads(m, n);
      forall ov ensures Eval(m, ov, depth, "OVERRIDES", true).Some? {
        assert Eval(m, ov, ListDepth(m), "OVERRIDES", true).Some?;
        EvalDeeper(m, ov, ListDepth(m), depth, "OVERRIDES", true);
      }
    }
  }

  /** Where OVERRIDES can be read, what is left is at least the rest. */
  lemma SpareIs(m: View, n: nat, depth: nat)
    requires !KeepsChanging(m) && ListReads(m, n) && n <= depth
    ensures !NoList(m) && !ListStops(m, depth) && Spare(m, depth) >= depth - n
  {
    if ListStops(m, depth) {
      ListNeeds(m, depth);
    }
  }

  lemma LessFails(m: View, ov: seq<string>, n: nat, depth: nat, k: string, exp: bool)
    requires n <= depth && Eval(m, ov, depth, k, exp).None?
    ensures Eval(m, ov, n, k, exp).None?
  {
    if Eval(m, ov, n, k, exp).Some? {
      EvalDeeper(m, ov, n, depth, k, exp);
    }
  }

  lemma LessExpandFails(m: View, ov: seq<string>, n: nat, depth: nat, self: Option<string>, v: Value)
    requires n <= depth && Expand(m, ov, depth, self, v).None?
    ensures Expand(m, ov, n, self, v).None?
  {
    if Expand(m, ov, n, self, v).Some? {
      ExpandDeeper(m, ov, n, depth, self, v);
    }
  }

  // ---------------------------------------------------------------- expansion

  /** One step further on the way, the list may have been computed; if it was there, it is the same. */
  ghost predicate Steps(fixed: bool, basis: Option<seq<string>>, fixed': bool, basis': Option<seq<string>>) {
    Narrower(basis, basis') && (fixed ==> fixed' && basis' == basis)
  }

  ghost predicate TokStops(m: View, fixed: bool, basis: Option<seq<string>>, depth: nat, self: Option<string>, t: Tok) {
    if fixed then NoStanding(m, basis, depth, self, t)
    else NoList(m) || exists ov | Under(basis, ov) :: Falls(m, ov, Spare(m, depth), self, t)
  }

  ghost predicate PassStops(m: View, fixed: bool, basis: Option<seq<string>>, depth: nat, self: Option<string>,
                            v: Value) {
    if fixed then NoPass(m, basis, depth, self, v)
    else NoList(m) || exists ov | Under(basis, ov) :: Pass(m, ov, Spare(m, depth), self, v).None?
  }

  ghost predicate ExpandStops(m: View, fixed: bool, basis: Option<seq<string>>, depth: nat, self: Option<string>,
                              v: Value) {
    if fixed then NoExpansion(m, basis, depth, self, v)
    else NoList(m) || exists ov | Under(basis, ov) :: Expand(m, ov, Spare(m, depth), self, v).None?
  }

  ghost predicate ReadStops(m: View, fixed: bool, basis: Option<seq<string>>, depth: nat, k: string, exp: bool) {
    if fixed then NoRead(m, basis, depth, k, exp)
    else NoList(m) || exists ov | Under(basis, ov) :: Eval(m, ov, Spare(m, depth), k, exp).None?
  }

  lemma StopsBefore(m: View, fixed: bool, basis: Option<seq<string>>, fixed': bool, basis': Option<seq<string>>,
                    depth: nat, k: string, exp: bool)
    requires ReadStops(m, fixed', basis', depth, k, exp) && Steps(fixed, basis, fixed', basis')
    ensures ReadStops(m, fixed, basis, depth, k, exp)
  {
    if !fixed && fixed' {
      LessFails(m, OneOf(basis'), Spare(m, depth), depth, k, exp);
      assert Under(basis, OneOf(basis'));
    } else if !fixed && !NoList(m) {
      var ov :| Under(basis', ov) && Eval(m, ov, Spare(m, depth), k, exp).None?;
      assert Under(basis, ov);
    }
  }

  lemma NothingStops(m: View, fixed: bool, basis: Option<seq<string>>, k: string, exp: bool)
    ensures ReadStops(m, fixed, basis, 0, k, exp)
  {
    assert Eval(m, OneOf(basis), Spare(m, 0), k, exp).None?;
  }

  lemma SelfStops(m: View, fixed: bool, basis: Option<seq<string>>, depth: nat, self: string)
    ensures TokStops(m, fixed, basis, depth, Some(self), Ref(self))
  {
    assert Falls(m, OneOf(basis), Spare(m, depth), Some(self), Ref(self));
  }

  lemma RefStops(m: View, fixed: bool, basis: Option<seq<string>>, depth: nat, self: Option<string>, x: string)
    requires ReadStops(m, fixed, basis, depth, x, true)
    ensures TokStops(m, fixed, basis, depth, self, Ref(x))
  {
    if fixed {
      assert forall ov | Under(basis, ov) :: Falls(m, ov, depth, self, Ref(x));
    } else if !NoList(m) {
      var ov :| Under(basis, ov) && Eval(m, ov, Spare(m, depth), x, true).None?;
      assert Falls(m, ov, Spare(m, depth), self, Ref(x));
    }
  }

  /** A pass stops where a token does. */
  lemma TokStopsPass(m: View, fixed: bool, basis: Option<seq<string>>, fixed': bool, basis': Option<seq<string>>,
                     depth: nat, self: Option<string>, v: Value, i: nat)
    requires i < |v| && TokStops(m, fixed', basis', depth, self, v[i]) && Steps(fixed, basis, fixed', basis')
    ensures PassStops(m, fixed, basis, depth, self, v)
  {
    if fixed {
      NoPassFor(m, basis, depth, self, v, i);
    } else if !NoList(m) {
      var ov, n := TokFailsAt(m, fixed', basis', depth, self, v[i]);
      PassRefFails(m, ov, n, self, v, i, v[i].name);
      assert Under(basis, ov);
    }
  }

  lemma TokFailsAt(m: View, fixed: bool, basis: Option<seq<string>>, depth: nat, self: Option<string>, t: Tok)
    returns (ov: seq<string>, n: nat)
    requires TokStops(m, fixed, basis, depth, self, t) && !NoList(m)
    ensures Under(basis, ov) && n == Spare(m, depth) && Falls(m, ov, n, self, t)
  {
    n := Spare(m, depth);
    if fixed {
      ov := OneOf(basis);
      assert Falls(m, ov, depth, self, t);
      if self != Some(t.name) {
        LessFails(m, ov, n, depth, t.name, true);
      }
    } else {
      ov :| Under(basis, ov) && Falls(m, ov, n, self, t);
    }
  }

  /** An expansion stops where its first or second pass does. */
  lemma PassStopsExpand(m: View, fixed: bool, basis: Option<seq<string>>, fixed': bool, basis': Option<seq<string>>,
                        depth: nat, self: Option<string>, v: Value, s: Value)
    requires PassStops(m, fixed', basis', depth, self, s) && Steps(fixed, basis, fixed', basis')
    requires s == v || AllPass(m, basis', self, v, s)
    ensures ExpandStops(m, fixed, basis, depth, self, v)
  {
    if fixed {
      NoExpansionFor(m, basis, depth, self, v, s);
    } else if fixed' {
      NoExpansionFor(m, basis', depth, self, v, s);
      var ov := OneOf(basis');
      LessExpandFails(m, ov, Spare(m, depth), depth, self, v);
      assert Under(basis, ov);
    } else if !NoList(m) {
      var ov :| Under(basis', ov) && Pass(m, ov, Spare(m, depth), self, s).None?;
      if s != v {
        SecondPassFails(m, ov, Spare(m, depth), self, v, s);
      }
      assert Under(basis, ov) && Expand(m, ov, Spare(m, depth), self, v).None?;
    }
  }

  // ---------------------------------------------------------------- the chosen variant

  /** The read of the chosen variant has no result. */
  ghost predicate ChosenStops(m: View, fixed: bool, basis: Option<seq<string>>, depth: nat, k: string)
    requires depth > 0
  {
    if fixed then forall ov | Under(basis, ov) :: EvalChosen(m, ov, depth - 1, k).None?
    else NoList(m) || exists ov | Under(basis, ov) :: NoneBelow(m, ov, Spare(m, depth), k)
  }

  ghost predicate NoneBelow(m: View, ov: seq<string>, n: nat, k: string) {
    n == 0 || EvalChosen(m, ov, n - 1, k).None?
  }

  lemma ListStopsChosen(m: View, basis: Option<seq<string>>, depth: nat, k: string)
    requires depth > 0 && ListStops(m, depth - 1)
    ensures ChosenStops(m, false, basis, depth, k)
  {
    ListNeeds(m, depth - 1);
    assert NoList(m) || NoneBelow(m, OneOf(basis), Spare(m, depth), k);
  }

  lemma VariantStops(m: View, fixed: bool, basis: Option<seq<string>>, list: seq<string>, depth: nat, k: string,
                     chosen: string)
    requires depth > 0 && Steps(fixed, basis, true, Some(list)) && Chosen(m, list, k) == Some(chosen)
    requires ReadStops(m, true, Some(list), depth - 1, chosen, false)
    ensures ChosenStops(m, fixed, basis, depth, k)
  {
    assert Under(Some(list), list) && Under(basis, list);
    if !fixed && Spare(m, depth) > 0 {
      LessFails(m, list, Spare(m, depth) - 1, depth - 1, chosen, false);
    }
    assert fixed || NoneBelow(m, list, Spare(m, depth), k);
  }

  lemma ChosenStopsRead(m: View, fixed: bool, basis: Option<seq<string>>, depth: nat, k: string, exp: bool)
    requires depth > 0 && ChosenStops(m, fixed, basis, depth, k)
    ensures ReadStops(m, fixed, basis, depth, k, exp)
  {
    if !fixed && !NoList(m) {
      var ov :| Under(basis, ov) && NoneBelow(m, ov, Spare(m, depth), k);
      assert Eval(m, ov, Spare(m, depth), k, exp).None?;
    }
  }

  // ---------------------------------------------------------------- the end of a read

  lemma ExpandStopsRead(m: View, fixed: bool, basis: Option<seq<string>>, depth: nat, k: string, exp: bool, sub: Read,
                        raw: Value)
    requires depth > 0 && AllReadChosen(m, basis, k, sub) && AllAssemble(m, basis, k, sub, Some(raw))
    requires ExpandStops(m, fixed, basis, depth - 1, Some(k), raw)
    ensures ReadStops(m, fixed, basis, depth, k, exp)
  {
    if fixed {
      forall ov | Under(basis, ov) ensures Eval(m, ov, depth, k, exp).None? {
        assert Finish(m, ov, depth - 1, k, exp, sub).None?;
        ReadFails(m, ov, depth - 1, k, exp, sub);
      }
    } else if !NoList(m) {
      var n := Spare(m, depth - 1);
      var ov :| Under(basis, ov) && Expand(m, ov, n, Some(k), raw).None?;
      assert Finish(m, ov, n, k, exp, sub).None?;
      ReadFails(m, ov, n, k, exp, sub);
      LessFails(m, ov, Spare(m, depth), n + 1, k, exp);
    }
  }

  /** Some removal has no expansion at this depth. */
  ghost predicate OneFalls(m: View, ov: seq<string>, n: nat, removes: set<Value>) {
    exists r | r in removes :: Expand(m, ov, n, None, r).None?
  }

  ghost predicate RemovesStop(m: View, fixed: bool, basis: Option<seq<string>>, depth: nat, removes: set<Value>) {
    if fixed then forall ov | Under(basis, ov) :: OneFalls(m, ov, depth, removes)
    else NoList(m) || exists ov | Under(basis, ov) :: OneFalls(m, ov, Spare(m, depth), removes)
  }

  lemma OneStops(m: View, fixed: bool, basis: Option<seq<string>>, fixed': bool, basis': Option<seq<string>>,
                 depth: nat, removes: set<Value>, r: Value)
    requires r in removes && ExpandStops(m, fixed', basis', depth, None, r) && Steps(fixed, basis, fixed', basis')
    ensures RemovesStop(m, fixed, basis, depth, removes)
  {
    if fixed {
      forall ov | Under(basis, ov) ensures OneFalls(m, ov, depth, removes) {
        assert Expand(m, ov, depth, None, r).None?;
      }
    } else if !NoList(m) {
      var ov;
      if fixed' {
        ov := OneOf(basis');
        LessExpandFails(m, ov, Spare(m, depth), depth, None, r);
      } else {
        ov :| Under(basis', ov) && Expand(m, ov, Spare(m, depth), None, r).None?;
      }
      assert Under(basis, ov) && OneFalls(m, ov, Spare(m, depth), removes);
    }
  }

  /** Some of the removals that apply to k has no expansion. */
  ghost predicate FoundStop(m: View, fixed: bool, basis: Option<seq<string>>, depth: nat, k: string, sub: Read,
                            tested: Value)
    requires depth > 0
  {
    if fixed then forall ov | Under(basis, ov) :: OneFalls(m, ov, depth - 1, ToRemove(m, ov, k, sub, tested))
    else NoList(m) || exists ov | Under(basis, ov) :: NoneFound(m, ov, Spare(m, depth), k, sub, tested)
  }

  ghost predicate NoneFound(m: View, ov: seq<string>, n: nat, k: string, sub: Read, tested: Value) {
    n == 0 || OneFalls(m, ov, n - 1, ToRemove(m, ov, k, sub, tested))
  }

  lemma ListStopsFound(m: View, basis: Option<seq<string>>, depth: nat, k: string, sub: Read, tested: Value)
    requires depth > 0 && ListStops(m, depth - 1)
    ensures FoundStop(m, false, basis, depth, k, sub, tested)
  {
    ListNeeds(m, depth - 1);
    assert NoList(m) || NoneFound(m, OneOf(basis), Spare(m, depth), k, sub, tested);
  }

  lemma RemovesStopFound(m: View, fixed: bool, basis: Option<seq<string>>, fixed': bool, basis': Option<seq<string>>,
                         depth: nat, k: string, sub: Read, tested: Value, removes: set<Value>)
    requires depth > 0 && Steps(fixed, basis, fixed', basis')
    requires AllRemove(m, basis', k, sub, tested, removes) && RemovesStop(m, fixed', basis', depth - 1, removes)
    ensures FoundStop(m, fixed, basis, depth, k, sub, tested)
  {
    if fixed {
      assert forall ov | Under(basis, ov) :: OneFalls(m, ov, depth - 1, removes);
    } else if !NoList(m) {
      var n := Spare(m, depth - 1);
      var ov;
      if fixed' {
        ov := OneOf(basis');
        var r :| r in removes && Expand(m, ov, depth - 1, None, r).None?;
        LessExpandFails(m, ov, n, depth - 1, None, r);
      } else {
        ov :| Under(basis', ov) && OneFalls(m, ov, n, removes);
      }
      assert OneFalls(m, ov, n, ToRemove(m, ov, k, sub, tested));
      assert Under(basis, ov) && NoneFound(m, ov, Spare(m, depth), k, sub, tested);
    }
  }

  lemma NoneFoundFails(m: View, ov: seq<string>, n: nat, k: string, exp: bool, sub: Read, raw: Value, x: Expansion)
    requires ReadsChosen(m, ov, k, sub) && Assemble(m, ov, k, sub) == Some(raw) && Expands(m, ov, Some(k), raw, x)
    requires NoneFound(m, ov, n, k, sub, if exp then x.value else raw)
    ensures Eval(m, ov, n, k, exp).None?
  {
    if n > 0 {
      ReadFailsInRemoval(m, ov, n - 1, k, exp, sub, raw, x);
    }
  }

  lemma FoundStopRead(m: View, fixed: bool, basis: Option<seq<string>>, depth: nat, k: string, exp: bool, sub: Read,
                      raw: Value, x: Expansion)
    requires depth > 0 && AllReadChosen(m, basis, k, sub) && AllAssemble(m, basis, k, sub, Some(raw))
    requires AllExpandTo(m, basis, Some(k), raw, x)
    requires FoundStop(m, fixed, basis, depth, k, sub, if exp then x.value else raw)
    ensures ReadStops(m, fixed, basis, depth, k, exp)
  {
    var tested := if exp then x.value else raw;
    if fixed {
      forall ov | Under(basis, ov) ensures Eval(m, ov, depth, k, exp).None? {
        assert NoneFound(m, ov, depth, k, sub, tested);
        NoneFoundFails(m, ov, depth, k, exp, sub, raw, x);
      }
    } else if !NoList(m) {
      var ov :| Under(basis, ov) && NoneFound(m, ov, Spare(m, depth), k, sub, tested);
      NoneFoundFails(m, ov, Spare(m, depth), k, exp, sub, raw, x);
    }
  }

  // ---------------------------------------------------------------- following references

  /** x is a reference left in the value of one of the names. */
  ghost predicate Left(m: View, ov: seq<string>, names: set<string>, x: string) {
    exists y, w :: y in names && ReadsValue(m, ov, y, Some(w)) && x in Refs(w)
  }

  ghost predicate AllLeft(m: View, basis: Option<seq<string>>, names: set<string>, more: set<string>) {
    forall ov, x | Under(basis, ov) && x in more :: Left(m, ov, names, x)
  }

  ghost predicate Involved(m: View, ov: seq<string>, names: set<string>, x: string) {
    x in names || Left(m, ov, names, x)
  }

  /** One of the names involved cannot be read at this depth. */
  ghost predicate NoneInvolved(m: View, ov: seq<string>, n: nat, names: set<string>) {
    exists x :: Involved(m, ov, names, x) && Eval(m, ov, n, x, true).None?
  }

  ghost predicate FollowStops(m: View, fixed: bool, basis: Option<seq<string>>, depth: nat, names: set<string>) {
    || (!fixed && NoList(m))
    || exists ov | Under(basis, ov) :: NoneInvolved(m, ov, if fixed then depth else Spare(m, depth), names)
  }

  /** The value cannot be expanded, or one of the names involved cannot be read. */
  ghost predicate TrackStops(m: View, fixed: bool, basis: Option<seq<string>>, depth: nat, name: string, value: Value) {
    || ExpandStops(m, fixed, basis, depth, Some(name), value)
    || FollowStops(m, fixed, basis, depth, Refs(value))
  }

  lemma ReadStopsFollow(m: View, fixed: bool, basis: Option<seq<string>>, depth: nat, names: set<string>, x: string)
    requires x in names && ReadStops(m, fixed, basis, depth, x, true)
    ensures FollowStops(m, fixed, basis, depth, names)
  {
    if fixed {
      assert NoneInvolved(m, OneOf(basis), depth, names);
    } else if !NoList(m) {
      var ov :| Under(basis, ov) && Eval(m, ov, Spare(m, depth), x, true).None?;
      assert NoneInvolved(m, ov, Spare(m, depth), names);
    }
  }

  /** What holds of the names holds of more, and of a moment before. */
  lemma FollowStopsBefore(m: View, fixed: bool, basis: Option<seq<string>>, fixed': bool, basis': Option<seq<string>>,
                          depth: nat, names: set<string>, names': set<string>)
    requires FollowStops(m, fixed', basis', depth, names') && Steps(fixed, basis, fixed', basis')
    requires forall ov, x | Under(basis', ov) && Involved(m, ov, names', x) :: Involved(m, ov, names, x)
    ensures FollowStops(m, fixed, basis, depth, names)
  {
    if fixed' || !NoList(m) {
      var n := if fixed then depth else Spare(m, depth);
      var ov :| Under(basis', ov) && NoneInvolved(m, ov, if fixed' then depth else Spare(m, depth), names');
      var x :| Involved(m, ov, names', x) && Eval(m, ov, if fixed' then depth else Spare(m, depth), x, true).None?;
      LessFails(m, ov, n, if fixed' then depth else Spare(m, depth), x, true);
      assert Under(basis, ov) && NoneInvolved(m, ov, n, names);
    }
  }

  /** A value can be expanded again where the references left in it can be read. */
  lemma ValueExpands(m: View, ov: seq<string>, n: nat, i: string, w: Value)
    requires ReadsValue(m, ov, i, Some(w)) && forall y | y in Refs(w) :: Eval(m, ov, n, y, true).Some?
    ensures Expand(m, ov, n, Some(i), w) == Some(Expansion(w, Refs(w)))
  {
    var r :| Reads(m, ov, i, true, r) && r.parser.value == Some(w);
    var d: nat :| Eval(m, ov, d, i, true) == Some(r);
    EvalUnresolved(m, ov, d, i, true);
    forall y | Ref(y) in w ensures y != i && Eval(m, ov, n, y, true) == Some(UNDEFINED) {
      assert Reads(m, ov, y, true, UNDEFINED) && y in Refs(w);
      ReadsOne(m, ov, y, true, UNDEFINED, Eval(m, ov, n, y, true).value);
      if y == i {
        ReadsOne(m, ov, i, true, UNDEFINED, r);
      }
    }
    PassOfUnresolved(m, ov, n, Some(i), w);
  }

  lemma AgainStopsFollow(m: View, fixed: bool, basis: Option<seq<string>>, fixed': bool, basis': Option<seq<string>>,
                         depth: nat, i: string, w: Value)
    requires AllReadValue(m, basis', i, Some(w)) && Steps(fixed, basis, fixed', basis')
    requires ExpandStops(m, fixed', basis', depth, Some(i), w)
    ensures FollowStops(m, fixed, basis, depth, {i})
  {
    if fixed' || !NoList(m) {
      var n := if fixed then depth else Spare(m, depth);
      var ov;
      if fixed' {
        ov := OneOf(basis');
        LessExpandFails(m, ov, n, depth, Some(i), w);
      } else {
        ov :| Under(basis', ov) && Expand(m, ov, n, Some(i), w).None?;
      }
      if forall y | y in Refs(w) :: Eval(m, ov, n, y, true).Some? {
        ValueExpands(m, ov, n, i, w);
      } else {
        var y :| y in Refs(w) && Eval(m, ov, n, y, true).None?;
        assert Involved(m, ov, {i}, y);
        assert Under(basis, ov) && NoneInvolved(m, ov, n, {i});
      }
    }
  }

  /** Expanding a value again reports the references left in it. */
  lemma AgainInvolves(m: View, basis: Option<seq<string>>, i: string, w: Value, e: Expansion)
    requires AllReadValue(m, basis, i, Some(w)) && AllExpandTo(m, basis, Some(i), w, e)
    ensures AllLeft(m, basis, {i}, e.refs)
  {
    forall ov, x | Under(basis, ov) && x in e.refs ensures Left(m, ov, {i}, x) {
      var r :| Reads(m, ov, i, true, r) && r.parser.value == Some(w);
      var d: nat :| Eval(m, ov, d, i, true) == Some(r);
      EvalUnresolved(m, ov, d, i, true);
      var n: nat :| Expand(m, ov, n, Some(i), w) == Some(e);
      var l := if n < d then d else n;
      ExpandDeeper(m, ov, n, l, Some(i), w);
      forall y | y in Refs(w) ensures Eval(m, ov, l, y, true).Some? {
        assert Ref(y) in w;
        EvalDeeper(m, ov, d, l, y, true);
      }
      ValueExpands(m, ov, l, i, w);
    }
  }

  lemma {:induction false} PassRefsInvolved(m: View, ov: seq<string>, n: nat, self: Option<string>, v: Value, x: string)
    requires Pass(m, ov, n, self, v).Some? && x in Refs(Pass(m, ov, n, self, v).value)
    ensures Involved(m, ov, Refs(v), x)
    decreases |v|
  {
    if v != [] {
      var init, t := v[..|v| - 1], v[|v| - 1];
      RefsStep(v);
      var p := Pass(m, ov, n, self, init).value;
      if x in Refs(p) {
        PassRefsInvolved(m, ov, n, self, init, x);
      } else if t.Ref? {
        var r := Eval(m, ov, n, t.name, true).value;
        RefsAppend(p, Substitute(t.name, r));
        assert Reads(m, ov, t.name, true, r);
        if r.parser.value.Some? {
          assert ReadsValue(m, ov, t.name, Some(r.parser.value.value));
        }
      } else {
        RefsAppend(p, [t]);
      }
    }
  }

  /** The references that an expansion reports are involved, and involve no others. */
  lemma ExpansionInvolves(m: View, ov: seq<string>, self: Option<string>, v: Value, e: Expansion, x: string)
    requires Expands(m, ov, self, v, e) && Involved(m, ov, e.refs, x)
    ensures Involved(m, ov, Refs(v), x)
  {
    var n: nat :| Expand(m, ov, n, self, v) == Some(e);
    ExpandSettles(m, ov, n, self, v);
    ExpansionIsPass(m, ov, n, self, v);
    if x in e.refs {
      if x !in Refs(v) {
        PassRefsInvolved(m, ov, n, self, v, x);
      }
    } else {
      var y, w :| y in e.refs && ReadsValue(m, ov, y, Some(w)) && x in Refs(w);
      if y !in Refs(v) {
        assert Ref(y) in e.value;
        assert Reads(m, ov, y, true, UNDEFINED);
        UndefinedReadsNothing(m, ov, y, Some(w));
      }
    }
  }

  lemma FollowStopsTrack(m: View, fixed: bool, basis: Option<seq<string>>, fixed': bool, basis': Option<seq<string>>,
                         depth: nat, name: string, value: Value, e: Expansion)
    requires AllExpandTo(m, basis', Some(name), value, e) && Steps(fixed, basis, fixed', basis')
    requires FollowStops(m, fixed', basis', depth, e.refs)
    ensures TrackStops(m, fixed, basis, depth, name, value)
  {
    forall ov, x | Under(basis', ov) && Involved(m, ov, e.refs, x) ensures Involved(m, ov, Refs(value), x) {
      ExpansionInvolves(m, ov, Some(name), value, e, x);
    }
    FollowStopsBefore(m, fixed, basis, fixed', basis', depth, Refs(value), e.refs);
  }

  /** Steady names may make sure that no list is computed; a caller that has no list need not know. */
  lemma TrackStopsBefore(m: View, fixed: bool, basis: Option<seq<string>>, depth: nat, name: string, value: Value)
    requires TrackStops(m, true, basis, depth, name, value)
    ensures TrackStops(m, fixed, basis, depth, name, value)
  {
    if !fixed {
      if ExpandStops(m, true, basis, depth, Some(name), value) {
        LessExpandFails(m, OneOf(basis), Spare(m, depth), depth, Some(name), value);
      } else {
        FollowStopsBefore(m, false, basis, true, basis, depth, Refs(value), Refs(value));
      }
    }
  }

  // ---------------------------------------------------------------- the rounds of tracking

  lemma MoreLeft(m: View, basis: Option<seq<string>>, basis': Option<seq<string>>, names: set<string>,
                 left: set<string>, i: string, more: set<string>)
    requires AllUndefined(m, basis, left) && AllLeft(m, basis, names, left) && Narrower(basis, basis')
    requires AllUndefined(m, basis', more) && AllLeft(m, basis', {i}, more) && i in names
    ensures AllUndefined(m, basis', left + more) && AllLeft(m, basis', names, left + more)
  {
    forall ov, x | Under(basis', ov) && x in left + more ensures Left(m, ov, names, x) {
      if x in more {
        var y, w :| y in {i} && ReadsValue(m, ov, y, Some(w)) && x in Refs(w);
        assert y in names;
      } else {
        assert Under(basis, ov);
      }
    }
  }

  lemma NothingLeft(m: View, basis: Option<seq<string>>, basis': Option<seq<string>>, names: set<string>,
                    left: set<string>)
    requires AllUndefined(m, basis, names) && Narrower(basis, basis') && AllLeft(m, basis', names, left)
    ensures left == {}
  {
    if left != {} {
      var ov := OneOf(basis');
      var x :| x in left;
      var y, w :| y in names && ReadsValue(m, ov, y, Some(w)) && x in Refs(w);
      assert Under(basis, ov);
      UndefinedReadsNothing(m, ov, y, Some(w));
    }
  }

  /** What following references from the names in first has done: vars are tracked, and pending come next. With a
      right cache, what comes after the first round is undefined, and nothing comes after the second. */
  ghost predicate Followed(right: bool, names: Option<set<string>>, m: View, basis: Option<seq<string>>,
                           vars0: set<string>, first: set<string>, vars: set<string>, pending: set<string>,
                           rounds: nat) {
    && vars0 + first <= vars + pending && (first == {} ==> pending == {} && vars == vars0)
    && (names.Some? ==> pending <= names.value && vars <= vars0 + names.value)
    && (right ==> FollowedRight(m, basis, vars0, first, vars, pending, rounds))
  }

  ghost predicate FollowedRight(m: View, basis: Option<seq<string>>, vars0: set<string>, first: set<string>,
                                vars: set<string>, pending: set<string>, rounds: nat) {
    && AllUndefined(m, basis, vars + pending - vars0 - first)
    && (rounds == 0 ==> pending == first)
    && (rounds > 0 ==> AllUndefined(m, basis, pending) && AllLeft(m, basis, first, pending))
    && (rounds > 1 ==> pending == {})
  }

  lemma FollowStarts(right: bool, names: Option<set<string>>, m: View, basis: Option<seq<string>>, vars: set<string>,
                     first: set<string>)
    requires names.Some? ==> first <= names.value
    ensures Followed(right, names, m, basis, vars, first, vars, first, 0)
  {
    assert vars + first - vars - first == {};
  }

  lemma FollowMoves(right: bool, names: Option<set<string>>, m: View, basis: Option<seq<string>>,
                    basis': Option<seq<string>>, vars0: set<string>, first: set<string>, vars: set<string>,
                    pending: set<string>, rounds: nat, next: set<string>)
    requires Narrower(basis, basis') && pending != {} && (names.Some? ==> next <= names.value)
    requires right ==> AllUndefined(m, basis', next) && AllLeft(m, basis', pending, next) && (rounds > 0 ==> next == {})
    ensures Followed(right, names, m, basis, vars0, first, vars, pending, rounds) ==>
              Followed(right, names, m, basis', vars0, first, vars + pending, next, rounds + 1)
  {
    if right && FollowedRight(m, basis, vars0, first, vars, pending, rounds) {
      StillUndefined(m, basis, basis', vars + pending - vars0 - first);
      assert rounds == 0 ==> AllLeft(m, basis', first, next);
    }
  }

  lemma FollowEnds(right: bool, names: Option<set<string>>, m: View, basis: Option<seq<string>>, vars0: set<string>,
                   first: set<string>, vars: set<string>, pending: set<string>, rounds: nat)
    requires Followed(right, names, m, basis, vars0, first, vars, pending, rounds) && pending <= vars
    ensures vars0 + first <= vars && (right ==> AllUndefined(m, basis, vars - vars0 - first))
  {
    assert vars + pending == vars;
  }

  lemma RoundStops(m: View, fixed: bool, basis: Option<seq<string>>, fixed': bool, basis': Option<seq<string>>,
                   depth: nat, vars0: set<string>, first: set<string>, vars: set<string>, pending: set<string>,
                   rounds: nat)
    requires FollowedRight(m, basis', vars0, first, vars, pending, rounds) && Steps(fixed, basis, fixed', basis')
    requires FollowStops(m, fixed', basis', depth, pending)
    ensures FollowStops(m, fixed, basis, depth, first)
  {
    forall ov, x | Under(basis', ov) && Involved(m, ov, pending, x) ensures Involved(m, ov, first, x) {
      if rounds > 0 && x !in pending {
        var y, w :| y in pending && ReadsValue(m, ov, y, Some(w)) && x in Refs(w);
        UndefinedReadsNothing(m, ov, y, Some(w));
      }
    }
    FollowStopsBefore(m, fixed, basis, fixed', basis', depth, first, pending);
  }
}
