/** Which variant the strip-and-match loop chooses, where the suffixes have several components.

    Going round the list again and again uses up the components of a suffix from the last one on: each is
    used up where it is met first after the one behind it. The variant that is used up last wins; of two that
    are used up by the same step, the one with the later step of its own. */
module OverrideWinner {
  import opened Wrappers
  import opened Text
  import opened Overrides
  import opened OverridesProperties

  // ---------------------------------------------------------------- how a suffix is used up

  /** The override at step t, where the list is gone through again and again. */
  function At(overrides: seq<string>, t: nat): (o: string)
    requires overrides != []
    ensures o in overrides
  {
    if t < |overrides| then overrides[t] else At(overrides, t - |overrides|)
  }

  /** How many components are left before step t. */
  function Left(overrides: seq<string>, parts: seq<string>, t: nat): (n: nat)
    requires overrides != []
    ensures n <= |parts|
  {
    if t == 0 then |parts|
    else
      var n := Left(overrides, parts, t - 1);
      if n > 0 && parts[n - 1] == At(overrides, t - 1) then n - 1 else n
  }

  /** Step t uses up the last component left. */
  predicate Uses(overrides: seq<string>, parts: seq<string>, t: nat)
    requires overrides != []
  {
    var n := Left(overrides, parts, t);
    n > 0 && parts[n - 1] == At(overrides, t)
  }

  /** It is the only one left. */
  predicate UsesUp(overrides: seq<string>, parts: seq<string>, t: nat)
    requires overrides != []
  {
    Uses(overrides, parts, t) && Left(overrides, parts, t) == 1
  }

  /** Step q * |overrides| + j is position j of round q. */
  lemma {:induction false} AtRound(overrides: seq<string>, q: nat, j: nat)
    requires j < |overrides|
    ensures q * |overrides| >= 0 && At(overrides, q * |overrides| + j) == overrides[j]
  {
    if q > 0 {
      var n := |overrides|;
      assert q * n + j - n == (q - 1) * n + j;
      AtRound(overrides, q - 1, j);
    }
  }

  /** The last component left at step t is used up where the list has it next, and none before. */
  lemma {:induction false} UsedNext(overrides: seq<string>, parts: seq<string>, t: nat, next: nat)
    requires overrides != [] && Left(overrides, parts, t) > 0 && t <= next
    requires var last := parts[Left(overrides, parts, t) - 1];
             At(overrides, next) == last && forall x: nat | t <= x < next :: At(overrides, x) != last
    ensures Left(overrides, parts, next) == Left(overrides, parts, t)
    ensures Left(overrides, parts, next + 1) == Left(overrides, parts, t) - 1
    decreases next - t
  {
    if t < next {
      UsedNext(overrides, parts, t + 1, next);
    }
  }

  /** The last step before t that only one of them takes is one that u takes. */
  ghost predicate Later(overrides: seq<string>, u: seq<string>, w: seq<string>, t: nat)
    requires overrides != []
  {
    exists x: nat :: x < t && Uses(overrides, u, x) && !Uses(overrides, w, x) && SameUses(overrides, u, w, x + 1, t)
  }

  ghost predicate SameUses(overrides: seq<string>, u: seq<string>, w: seq<string>, from: nat, to: nat)
    requires overrides != []
  {
    forall y: nat | from <= y < to :: Uses(overrides, u, y) <==> Uses(overrides, w, y)
  }

  /** u is used up after w; or by the same step, with the later step of its own. */
  ghost predicate Wins(overrides: seq<string>, u: seq<string>, w: seq<string>)
    requires overrides != []
  {
    exists x: nat :: UsesUp(overrides, u, x) && LosesAt(overrides, u, w, x)
  }

  ghost predicate LosesAt(overrides: seq<string>, u: seq<string>, w: seq<string>, x: nat)
    requires overrides != []
  {
    Left(overrides, w, x) == 0 || (UsesUp(overrides, w, x) && Later(overrides, u, w, x))
  }

  // ---------------------------------------------------------------- keys

  /** The components of an active suffix, each there once. */
  ghost predicate GoodParts(parts: seq<string>, overrides: seq<string>) {
    parts != [] && Distinct(parts) && forall p | p in parts :: IsName(p) && p in overrides
  }

  lemma GoodFront(parts: seq<string>, overrides: seq<string>, n: nat)
    requires GoodParts(parts, overrides) && 0 < n <= |parts|
    ensures GoodParts(parts[..n], overrides)
  {
    assert forall p | p in parts[..n] :: p in parts;
  }

  lemma JoinLast(parts: seq<string>)
    requires |parts| > 1
    ensures Join(parts, ':') == Join(parts[..|parts| - 1], ':') + ":" + parts[|parts| - 1]
  {
    var n := |parts| - 1;
    var last := parts[n];
    assert parts[1..] == parts[1..n] + [last] && parts[..n][1..] == parts[1..n] && [last][1..] == [];
    TailAppend(parts[1..n], [last], ':');
    assert Tail([last], ':') == ":" + last;
  }

  lemma {:induction false} OthersLast(parts: seq<string>, o: string)
    requires parts != [] && Distinct(parts) && parts[|parts| - 1] == o
    ensures Others(parts, o) == parts[..|parts| - 1]
  {
    if |parts| > 1 {
      assert parts[1..][|parts| - 2] == o && Distinct(parts[1..]);
      OthersLast(parts[1..], o);
      assert parts[..|parts| - 1] == [parts[0]] + parts[1..][..|parts| - 2];
    }
  }

  /** What one override does to a key. */
  lemma KeyStep(parts: seq<string>, o: string, overrides: seq<string>)
    requires ColonFree(overrides) && PrefixFree(overrides) && o in overrides && GoodParts(parts, overrides)
    ensures var k, n := Join(parts, ':'), |parts| - 1;
            && (EndsWith(k, ":" + o) <==> n > 0 && parts[n] == o) && (k == o <==> n == 0 && parts[n] == o)
            && (EndsWith(k, ":" + o) ==> RemoveAll(k, ":" + o) == Join(parts[..n], ':'))
  {
    var k, n := Join(parts, ':'), |parts| - 1;
    LastComponent(parts, o);
    if n == 0 {
      assert k == parts[0];
    } else {
      JoinLast(parts);
      assert k[|Join(parts[..n], ':')|] == ':';
      if parts[n] == o {
        forall p | p in parts && StartsWith(p, o) ensures p == o {
          assert IsName(p) && IsName(o);
        }
        RemoveFromKey(parts, o);
        assert Distinct(parts[1..]) && parts[1..][n - 1] == o;
        OthersLast(parts[1..], o);
        assert [parts[0]] + parts[1..][..n - 1] == parts[..n];
      }
    }
  }

  // ---------------------------------------------------------------- one override against all keys

  ghost predicate GoodKey(k: string, overrides: seq<string>) {
    GoodParts(Split(k, ':'), overrides)
  }

  ghost predicate GoodKeys(names: map<string, string>, overrides: seq<string>) {
    forall k | k in names :: GoodKey(k, overrides)
  }

  function Longer(k: string, o: string): string {
    k + ":" + o
  }

  /** The override strips or matches the key. */
  predicate Moves(k: string, o: string) {
    !Untouched(k, o)
  }

  lemma GoodKeyStep(a: string, o: string, overrides: seq<string>)
    requires ColonFree(overrides) && PrefixFree(overrides) && o in overrides && GoodKey(a, overrides)
    ensures EndsWith(a, ":" + o) ==>
              var b := RemoveAll(a, ":" + o);
              a == Longer(b, o) && GoodKey(b, overrides) && !Moves(b, o) && a != o
  {
    var parts := Split(a, ':');
    var n := |parts| - 1;
    JoinSplit(a, ':');
    KeyStep(parts, o, overrides);
    if EndsWith(a, ":" + o) {
      JoinLast(parts);
      GoodFront(parts, overrides, n);
      SplitJoin(parts[..n], ':');
      KeyStep(parts[..n], o, overrides);
    }
  }

  lemma LongerEnds(k: string, o: string)
    ensures EndsWith(Longer(k, o), ":" + o) && Longer(k, o) != o
  {
    assert forall i | 0 <= i < |":" + o| :: Longer(k, o)[|k| + i] == (":" + o)[i];
  }

  lemma LongerOnce(a: string, b: string, o: string)
    requires Longer(a, o) == Longer(b, o)
    ensures a == b
  {
    assert Longer(a, o)[..|a|] == a && Longer(b, o)[..|b|] == b;
  }

  /** A key that the override moves is not reached by stripping another one. */
  lemma NotReached(a: string, o: string, overrides: seq<string>)
    requires ColonFree(overrides) && PrefixFree(overrides) && o in overrides
    requires Moves(a, o)
    ensures !GoodKey(Longer(a, o), overrides)
  {
    if GoodKey(Longer(a, o), overrides) {
      LongerEnds(a, o);
      GoodKeyStep(Longer(a, o), o, overrides);
      LongerOnce(a, RemoveAll(Longer(a, o), ":" + o), o);
    }
  }

  /** Some of the keys have been visited: those that the override moves are gone, each shortened one has the
      name of the longer key, and a key equal to the override is chosen. */
  ghost predicate Swept(s: LoopState, keys: seq<string>, o: string, t: LoopState) {
    var n := s.active.names;
    && (forall k :: k in t.active.names <==>
          (k in n && !(k in keys && Moves(k, o))) || (Longer(k, o) in n && Longer(k, o) in keys))
    && (forall k | k in t.active.names ::
          t.active.names[k] == if Longer(k, o) in n && Longer(k, o) in keys then n[Longer(k, o)] else n[k])
    && t.chosen == if o in n && o in keys then Some(n[o]) else s.chosen
  }

  lemma SweptOne(s: LoopState, init: seq<string>, a: string, o: string, t: LoopState, overrides: seq<string>)
    requires ColonFree(overrides) && PrefixFree(overrides) && o in overrides && GoodKeys(s.active.names, overrides)
    requires a in s.active.names && a !in init && Swept(s, init, o, t)
    ensures Swept(s, init + [a], o, Visit(a, o, t))
  {
    var n, keys, u := s.active.names, init + [a], Visit(a, o, t);
    assert forall k :: k in keys <==> k in init || k == a;
    GoodKeyStep(a, o, overrides);
    if Moves(a, o) {
      NotReached(a, o, overrides);
      assert a in t.active.names && t.active.names[a] == n[a];
      forall k | Longer(k, o) == a ensures k == RemoveAll(a, ":" + o) {
        LongerEnds(k, o);
        LongerOnce(k, RemoveAll(a, ":" + o), o);
      }
    }
  }

  lemma {:induction false} KeysSwept(s: LoopState, keys: seq<string>, o: string, overrides: seq<string>)
    requires ColonFree(overrides) && PrefixFree(overrides) && o in overrides && GoodKeys(s.active.names, overrides)
    requires Distinct(keys) && forall k | k in keys :: k in s.active.names
    ensures Swept(s, keys, o, VisitKeys(keys, o, s))
  {
    if keys != [] {
      var n := |keys| - 1;
      KeysSwept(s, keys[..n], o, overrides);
      SweptOne(s, keys[..n], keys[n], o, VisitKeys(keys[..n], o, s), overrides);
      assert keys[..n] + [keys[n]] == keys;
    }
  }

  /** One override has gone over all keys. */
  ghost predicate Passed(s: LoopState, o: string, t: LoopState) {
    var n := s.active.names;
    && (forall k :: k in t.active.names <==> (k in n && !Moves(k, o)) || Longer(k, o) in n)
    && (forall k | k in t.active.names ::
          t.active.names[k] == if Longer(k, o) in n then n[Longer(k, o)] else n[k])
    && t.chosen == if o in n then Some(n[o]) else s.chosen
  }

  lemma OverridePasses(s: LoopState, o: string, overrides: seq<string>)
    requires ColonFree(overrides) && PrefixFree(overrides) && o in overrides
    requires s.active.Valid() && GoodKeys(s.active.names, overrides)
    ensures var t := VisitKeys(s.active.order, o, s);
            Passed(s, o, t) && GoodKeys(t.active.names, overrides) && t.active.Valid()
  {
    var t := VisitKeys(s.active.order, o, s);
    KeysSwept(s, s.active.order, o, overrides);
    VisitKeysShrinks(s.active.order, o, s);
    forall k | k in t.active.names ensures GoodKey(k, overrides) {
      if Longer(k, o) in s.active.names {
        LongerEnds(k, o);
        GoodKeyStep(Longer(k, o), o, overrides);
        LongerOnce(k, RemoveAll(Longer(k, o), ":" + o), o);
      }
    }
  }

  // ---------------------------------------------------------------- all suffixes together

  /** What is left of a suffix before step t. */
  function Rest(overrides: seq<string>, u: string, t: nat): string
    requires overrides != [] && Left(overrides, Split(u, ':'), t) > 0
  {
    Join(Split(u, ':')[..Left(overrides, Split(u, ':'), t)], ':')
  }

  predicate Remains(overrides: seq<string>, u: string, t: nat, k: string)
    requires overrides != []
  {
    Left(overrides, Split(u, ':'), t) > 0 && Rest(overrides, u, t) == k
  }

  ghost predicate WasLater(overrides: seq<string>, u: string, w: string, t: nat)
    requires overrides != []
  {
    Later(overrides, Split(u, ':'), Split(w, ':'), t)
  }

  /** The suffix u of d gives its name to the key: no other one of which the same is left was shortened later. */
  ghost predicate Holds(overrides: seq<string>, d: Active, t: nat, names: map<string, string>, k: string, u: string)
    requires overrides != []
  {
    && k in names && u in d.names && Remains(overrides, u, t, k) && names[k] == d.names[u]
    && forall w | w in d.names && w != u && Remains(overrides, w, t, k) :: WasLater(overrides, u, w, t)
  }

  ghost predicate IsHeld(overrides: seq<string>, d: Active, t: nat, names: map<string, string>, k: string)
    requires overrides != []
  {
    exists u :: Holds(overrides, d, t, names, k, u)
  }

  predicate IsUsed(overrides: seq<string>, u: string, t: nat)
    requires overrides != []
  {
    Left(overrides, Split(u, ':'), t) == 0
  }

  ghost predicate Beats(overrides: seq<string>, u: string, w: string)
    requires overrides != []
  {
    Wins(overrides, Split(u, ':'), Split(w, ':'))
  }

  /** u is used up, and beats all others that are. */
  ghost predicate Leads(overrides: seq<string>, d: Active, t: nat, u: string)
    requires overrides != []
  {
    && u in d.names && IsUsed(overrides, u, t)
    && forall w | w in d.names && w != u && IsUsed(overrides, w, t) :: Beats(overrides, u, w)
  }

  /** What the loop has done with the suffixes of d before step t. */
  ghost predicate Traced(overrides: seq<string>, d: Active, t: nat, active: Active, chosen: Option<string>)
    requires overrides != []
  {
    && active.Valid() && GoodKeys(active.names, overrides)
    && (forall u, k | u in d.names && Remains(overrides, u, t, k) :: k in active.names)
    && (forall k | k in active.names :: IsHeld(overrides, d, t, active.names, k))
    && Led(overrides, d, t, chosen)
  }

  ghost predicate Led(overrides: seq<string>, d: Active, t: nat, chosen: Option<string>)
    requires overrides != []
  {
    if exists u :: u in d.names && IsUsed(overrides, u, t)
    then exists u :: Leads(overrides, d, t, u) && chosen == Some(d.names[u])
    else chosen.None?
  }

  lemma FrontStep(parts: seq<string>, n: nat, o: string, overrides: seq<string>)
    requires ColonFree(overrides) && PrefixFree(overrides) && o in overrides
    requires GoodParts(parts, overrides) && 0 < n <= |parts|
    ensures var k := Join(parts[..n], ':');
            && GoodKey(k, overrides) && (Moves(k, o) <==> parts[n - 1] == o)
            && (k == o <==> n == 1 && parts[0] == o)
            && (Moves(k, o) && k != o ==> n > 1 && k == Longer(Join(parts[..n - 1], ':'), o))
  {
    GoodFront(parts, overrides, n);
    SplitJoin(parts[..n], ':');
    KeyStep(parts[..n], o, overrides);
    if n > 1 {
      JoinLast(parts[..n]);
      assert parts[..n][..n - 1] == parts[..n - 1];
    }
  }

  /** One step for one suffix. */
  lemma RestStep(overrides: seq<string>, u: string, t: nat)
    requires overrides != [] && ColonFree(overrides) && PrefixFree(overrides) && GoodKey(u, overrides)
    ensures var n, o := Left(overrides, Split(u, ':'), t), At(overrides, t);
            n > 0 ==>
              var k := Rest(overrides, u, t);
              && GoodKey(k, overrides)
              && (Moves(k, o) <==> Uses(overrides, Split(u, ':'), t))
              && (!Moves(k, o) ==> Remains(overrides, u, t + 1, k))
              && (k == o <==> UsesUp(overrides, Split(u, ':'), t)) && (k == o ==> IsUsed(overrides, u, t + 1))
              && (Moves(k, o) && k != o ==>
                    Left(overrides, Split(u, ':'), t + 1) > 0 && k == Longer(Rest(overrides, u, t + 1), o))
  {
    var parts := Split(u, ':');
    var n := Left(overrides, parts, t);
    if n > 0 {
      FrontStep(parts, n, At(overrides, t), overrides);
    }
  }

  lemma LaterStep(overrides: seq<string>, u: string, w: string, t: nat)
    requires overrides != []
    requires Uses(overrides, Split(u, ':'), t) && !Uses(overrides, Split(w, ':'), t)
    ensures WasLater(overrides, u, w, t + 1)
  {
    assert SameUses(overrides, Split(u, ':'), Split(w, ':'), t + 1, t + 1);
  }

  lemma LaterStays(overrides: seq<string>, u: seq<string>, w: seq<string>, t: nat)
    requires overrides != [] && Later(overrides, u, w, t)
    requires Uses(overrides, u, t) <==> Uses(overrides, w, t)
    ensures Later(overrides, u, w, t + 1)
  {
    var x: nat :| x < t && Uses(overrides, u, x) && !Uses(overrides, w, x) && SameUses(overrides, u, w, x + 1, t);
    forall y: nat | x + 1 <= y < t + 1 ensures Uses(overrides, u, y) <==> Uses(overrides, w, y) {
      assert y == t || y < t;
    }
    assert SameUses(overrides, u, w, x + 1, t + 1);
  }

  /** Where a key comes from. */
  lemma KeyBefore(overrides: seq<string>, w: string, t: nat, k: string)
    requires overrides != [] && ColonFree(overrides) && PrefixFree(overrides) && GoodKey(w, overrides)
    requires Remains(overrides, w, t + 1, k)
    ensures var o := At(overrides, t);
            if Uses(overrides, Split(w, ':'), t) then Remains(overrides, w, t, Longer(k, o))
            else Remains(overrides, w, t, k) && !Moves(k, o)
  {
    RestStep(overrides, w, t);
  }

  /** The holder of a key after a step: that of the longer key, if there was one, or the one before. */
  lemma HolderStep(overrides: seq<string>, d: Active, t: nat, s: LoopState, s': LoopState, k: string)
    requires overrides != [] && ColonFree(overrides) && PrefixFree(overrides) && GoodKeys(d.names, overrides)
    requires Traced(overrides, d, t, s.active, s.chosen) && Passed(s, At(overrides, t), s') && k in s'.active.names
    ensures IsHeld(overrides, d, t + 1, s'.active.names, k)
  {
    var o, n := At(overrides, t), s.active.names;
    var from := if Longer(k, o) in n then Longer(k, o) else k;
    var u :| Holds(overrides, d, t, n, from, u);
    RestStep(overrides, u, t);
    LongerEnds(k, o);
    if from == Longer(k, o) {
      LongerOnce(k, Rest(overrides, u, t + 1), o);
    }
    assert Remains(overrides, u, t + 1, k);
    forall w | w in d.names && w != u && Remains(overrides, w, t + 1, k) ensures WasLater(overrides, u, w, t + 1) {
      KeyBefore(overrides, w, t, k);
      if from == Longer(k, o) && !Uses(overrides, Split(w, ':'), t) {
        LaterStep(overrides, u, w, t);
      } else {
        assert Remains(overrides, w, t, from);
        LaterStays(overrides, Split(u, ':'), Split(w, ':'), t);
      }
    }
    assert Holds(overrides, d, t + 1, s'.active.names, k, u);
  }

  lemma RemainsStep(overrides: seq<string>, d: Active, t: nat, s: LoopState, s': LoopState, u: string, k: string)
    requires overrides != [] && ColonFree(overrides) && PrefixFree(overrides) && GoodKeys(d.names, overrides)
    requires Traced(overrides, d, t, s.active, s.chosen) && Passed(s, At(overrides, t), s')
    requires u in d.names && Remains(overrides, u, t + 1, k)
    ensures k in s'.active.names
  {
    KeyBefore(overrides, u, t, k);
  }

  /** Who is used up by the step, and leads from then on. */
  lemma LeaderStep(overrides: seq<string>, d: Active, t: nat, s: LoopState, s': LoopState)
    requires overrides != [] && ColonFree(overrides) && PrefixFree(overrides) && GoodKeys(d.names, overrides)
    requires Traced(overrides, d, t, s.active, s.chosen) && Passed(s, At(overrides, t), s')
    ensures Led(overrides, d, t + 1, s'.chosen)
  {
    var o := At(overrides, t);
    forall w | w in d.names && IsUsed(overrides, w, t + 1)
      ensures IsUsed(overrides, w, t) || (UsesUp(overrides, Split(w, ':'), t) && Remains(overrides, w, t, o))
    {
      RestStep(overrides, w, t);
    }
    if o in s.active.names {
      var u :| Holds(overrides, d, t, s.active.names, o, u);
      RestStep(overrides, u, t);
      forall w | w in d.names && w != u && IsUsed(overrides, w, t + 1) ensures Beats(overrides, u, w) {
        assert LosesAt(overrides, Split(u, ':'), Split(w, ':'), t);
      }
      assert Leads(overrides, d, t + 1, u);
    } else {
      forall w | w in d.names ensures IsUsed(overrides, w, t + 1) <==> IsUsed(overrides, w, t) {
      }
      if u :| Leads(overrides, d, t, u) && s.chosen == Some(d.names[u]) {
        assert Leads(overrides, d, t + 1, u);
      }
    }
  }

  lemma TracedStep(overrides: seq<string>, d: Active, t: nat, s: LoopState)
    requires overrides != [] && ColonFree(overrides) && PrefixFree(overrides) && GoodKeys(d.names, overrides)
    requires Traced(overrides, d, t, s.active, s.chosen)
    ensures var r := VisitKeys(s.active.order, At(overrides, t), s); Traced(overrides, d, t + 1, r.active, r.chosen)
  {
    var s' := VisitKeys(s.active.order, At(overrides, t), s);
    OverridePasses(s, At(overrides, t), overrides);
    forall u, k | u in d.names && Remains(overrides, u, t + 1, k) ensures k in s'.active.names {
      RemainsStep(overrides, d, t, s, s', u, k);
    }
    forall k | k in s'.active.names ensures IsHeld(overrides, d, t + 1, s'.active.names, k) {
      HolderStep(overrides, d, t, s, s', k);
    }
    LeaderStep(overrides, d, t, s, s');
  }

  // ---------------------------------------------------------------- rounds

  /** A round starts at step t. */
  ghost predicate Starts(overrides: seq<string>, t: nat)
    requires overrides != []
  {
    forall j: nat | j < |overrides| :: At(overrides, t + j) == overrides[j]
  }

  lemma StartsAgain(overrides: seq<string>, t: nat)
    requires overrides != [] && Starts(overrides, t)
    ensures Starts(overrides, t + |overrides|)
  {
    forall j: nat | j < |overrides| ensures At(overrides, t + |overrides| + j) == overrides[j] {
      assert At(overrides, t + j) == overrides[j];
    }
  }

  /** Whatever every step keeps, a round keeps, and all rounds do. */
  ghost predicate Keeps(overrides: seq<string>, P: (nat, Active, Option<string>) -> bool)
    requires overrides != []
  {
    forall t: nat, s: LoopState | P(t, s.active, s.chosen) ::
      var r := VisitKeys(s.active.order, At(overrides, t), s); P(t + 1, r.active, r.chosen)
  }

  lemma {:induction false} RoundKeeps(overrides: seq<string>, P: (nat, Active, Option<string>) -> bool, t: nat,
                                      s: LoopState, j: nat)
    requires overrides != [] && Keeps(overrides, P) && Starts(overrides, t) && j <= |overrides|
    requires P(t, s.active, s.chosen)
    ensures var r := Round(overrides[..j], s); P(t + j, r.active, r.chosen)
  {
    if j > 0 {
      RoundKeeps(overrides, P, t, s, j - 1);
      assert overrides[..j][..j - 1] == overrides[..j - 1];
      assert At(overrides, t + (j - 1)) == overrides[j - 1];
    }
  }

  lemma {:induction false} RoundsKeep(overrides: seq<string>, P: (nat, Active, Option<string>) -> bool, t: nat,
                                      active: Active, chosen: Option<string>) returns (end: nat)
    requires overrides != [] && Keeps(overrides, P) && Starts(overrides, t) && active.Valid() && P(t, active, chosen)
    ensures var r := Rounds(overrides, active, chosen); P(end, r.active, r.chosen)
    decreases Weight(active.order)
  {
    var s, n := LoopState(active, chosen, false), |overrides|;
    var r := Round(overrides, s);
    assert overrides[..n] == overrides;
    RoundKeeps(overrides, P, t, s, n);
    RoundShrinks(overrides, s);
    end := t + n;
    if r.changed {
      StartsAgain(overrides, t);
      end := RoundsKeep(overrides, P, end, r.active, r.chosen);
    }
  }

  // ---------------------------------------------------------------- who wins

  /** Every component of a variant is a name; an active variant has none twice; no override name starts with another. */
  ghost predicate Plain(variants: seq<Variant>, overrides: seq<string>) {
    && ColonFree(overrides) && PrefixFree(overrides) && AllRecorded(variants)
    && forall v | v in variants && IsActive(v.suffix, overrides) :: Distinct(Split(v.suffix, ':'))
  }

  /** No variant is recorded with the same suffix later. */
  predicate IsLast(variants: seq<Variant>, i: nat)
    requires i < |variants|
  {
    forall j | i < j < |variants| :: variants[j].suffix != variants[i].suffix
  }

  lemma {:induction false} CollectLast(variants: seq<Variant>, overrides: seq<string>, k: string) returns (i: nat)
    requires k in CollectActive(variants, overrides).names
    ensures i < |variants| && IsLast(variants, i) && IsActive(k, overrides)
    ensures variants[i] == Variant(CollectActive(variants, overrides).names[k], k)
  {
    var n := |variants| - 1;
    if variants[n].suffix == k && IsActive(k, overrides) {
      i := n;
    } else {
      i := CollectLast(variants[..n], overrides, k);
      forall j | i < j < |variants| ensures variants[j].suffix != variants[i].suffix {
        assert j < n ==> variants[j] == variants[..n][j];
      }
    }
  }

  lemma ActiveIsGood(overrides: seq<string>, suffix: string)
    requires ColonFree(overrides) && Recorded(suffix) && IsActive(suffix, overrides)
    requires Distinct(Split(suffix, ':'))
    ensures GoodKey(suffix, overrides)
  {
    RecordedIsCovered(suffix, overrides);
  }

  lemma Beginning(overrides: seq<string>, d: Active)
    requires overrides != [] && d.Valid() && GoodKeys(d.names, overrides)
    ensures Starts(overrides, 0) && Traced(overrides, d, 0, d, None)
  {
    forall u ensures Left(overrides, Split(u, ':'), 0) > 0 ==> Rest(overrides, u, 0) == u {
      JoinSplit(u, ':');
      assert Split(u, ':')[..|Split(u, ':')|] == Split(u, ':');
    }
    forall k | k in d.names ensures IsHeld(overrides, d, 0, d.names, k) {
      assert GoodKey(k, overrides);
      assert Holds(overrides, d, 0, d.names, k, k);
    }
    forall u | u in d.names ensures !IsUsed(overrides, u, 0) {
      assert GoodKey(u, overrides);
    }
  }

  lemma Loop(overrides: seq<string>, d: Active) returns (t: nat)
    requires overrides != [] && ColonFree(overrides) && PrefixFree(overrides)
    requires d.Valid() && GoodKeys(d.names, overrides)
    ensures var r := Rounds(overrides, d, None); Traced(overrides, d, t, r.active, r.chosen)
  {
    var P := (t: nat, active: Active, chosen: Option<string>) => Traced(overrides, d, t, active, chosen);
    forall t: nat, s: LoopState | P(t, s.active, s.chosen)
      ensures var r := VisitKeys(s.active.order, At(overrides, t), s); P(t + 1, r.active, r.chosen)
    {
      TracedStep(overrides, d, t, s);
    }
    Beginning(overrides, d);
    t := RoundsKeep(overrides, P, 0, d, None);
  }

  lemma LoopEnds(overrides: seq<string>, d: Active) returns (t: nat, u: string)
    requires overrides != [] && ColonFree(overrides) && PrefixFree(overrides)
    requires d.Valid() && GoodKeys(d.names, overrides) && d.order != []
    ensures u in d.names && Rounds(overrides, d, None).chosen == Some(d.names[u])
    ensures forall w | w in d.names && w != u :: Beats(overrides, u, w)
  {
    t := Loop(overrides, d);
    forall k | k in d.names ensures Covered(k, overrides) {
      assert GoodKey(k, overrides);
    }
    RoundsChoose(overrides, d, None);
    forall w | w in d.names ensures IsUsed(overrides, w, t) {
      if !IsUsed(overrides, w, t) {
        assert Remains(overrides, w, t, Rest(overrides, w, t));
      }
    }
    assert d.order[0] in d.names;
    u :| Leads(overrides, d, t, u) && Rounds(overrides, d, None).chosen == Some(d.names[u]);
  }

  /** The variant chosen is the last one recorded with its suffix, and its suffix beats all other active ones. */
  lemma Winner(variants: seq<Variant>, overrides: seq<string>) returns (i: nat)
    requires Plain(variants, overrides) && AnyActive(variants, overrides)
    ensures i < |variants| && IsActive(variants[i].suffix, overrides) && IsLast(variants, i)
    ensures Pick(variants, overrides) == Some(variants[i].name)
    ensures forall v | v in variants && IsActive(v.suffix, overrides) && v.suffix != variants[i].suffix ::
              Beats(overrides, variants[i].suffix, v.suffix)
  {
    CollectFacts(variants, overrides);
    var d := CollectActive(variants, overrides);
    var v :| v in variants && IsActive(v.suffix, overrides);
    assert v.suffix in d.names;
    forall k | k in d.names ensures GoodKey(k, overrides) {
      assert Variant(d.names[k], k) in variants;
      ActiveIsGood(overrides, k);
    }
    assert v.suffix in d.order && Split(v.suffix, ':')[0] in overrides;
    var t, u := LoopEnds(overrides, d);
    i := CollectLast(variants, overrides, u);
  }

  // ---------------------------------------------------------------- only one wins

  lemma {:induction false} LeftFalls(overrides: seq<string>, parts: seq<string>, t: nat, later: nat)
    requires overrides != [] && t <= later
    ensures Left(overrides, parts, later) <= Left(overrides, parts, t)
    decreases later
  {
    if t < later {
      LeftFalls(overrides, parts, t, later - 1);
    }
  }

  /** Of two suffixes that take the same steps the distance stays. */
  lemma {:induction false} DistanceStays(overrides: seq<string>, u: seq<string>, w: seq<string>, start: nat, end: nat)
    requires overrides != [] && start <= end && SameUses(overrides, u, w, start, end)
    ensures Left(overrides, u, end) - Left(overrides, w, end) == Left(overrides, u, start) - Left(overrides, w, start)
    decreases end
  {
    if start < end {
      assert SameUses(overrides, u, w, start, end - 1);
      DistanceStays(overrides, u, w, start, end - 1);
      assert Uses(overrides, u, end - 1) <==> Uses(overrides, w, end - 1);
    }
  }

  lemma LaterIsOneWay(overrides: seq<string>, u: seq<string>, w: seq<string>, t: nat)
    requires overrides != [] && Later(overrides, u, w, t)
    ensures !Later(overrides, w, u, t)
  {
  }

  lemma UsedUpOnce(overrides: seq<string>, u: seq<string>, x: nat, y: nat)
    requires overrides != [] && UsesUp(overrides, u, x) && x < y
    ensures Left(overrides, u, y) == 0
  {
    LeftFalls(overrides, u, x + 1, y);
  }

  /** Where u beats w at step x, w is used up at that step at the latest; if then, u took a later step of its own. */
  lemma LosesOnce(overrides: seq<string>, u: seq<string>, w: seq<string>, x: nat, y: nat)
    requires overrides != [] && UsesUp(overrides, u, x) && LosesAt(overrides, u, w, x) && UsesUp(overrides, w, y)
    ensures y <= x && (y == x ==> Later(overrides, u, w, x))
  {
    if x < y {
      LeftFalls(overrides, w, x, y);
      if UsesUp(overrides, w, x) {
        UsedUpOnce(overrides, w, x, y);
      }
    }
  }

  lemma WinsIsOneWay(overrides: seq<string>, u: seq<string>, w: seq<string>)
    requires overrides != [] && Wins(overrides, u, w)
    ensures !Wins(overrides, w, u)
  {
    var x: nat :| UsesUp(overrides, u, x) && LosesAt(overrides, u, w, x);
    if Wins(overrides, w, u) {
      var y: nat :| UsesUp(overrides, w, y) && LosesAt(overrides, w, u, y);
      LosesOnce(overrides, u, w, x, y);
      LosesOnce(overrides, w, u, y, x);
      LaterIsOneWay(overrides, u, w, x);
    }
  }

  /** The last variant recorded with the suffix that beats all others is the one chosen. */
  lemma WinnerIsPicked(variants: seq<Variant>, overrides: seq<string>, i: nat)
    requires Plain(variants, overrides) && overrides != [] && i < |variants|
    requires IsActive(variants[i].suffix, overrides) && IsLast(variants, i)
    requires forall v | v in variants && IsActive(v.suffix, overrides) && v.suffix != variants[i].suffix ::
               Beats(overrides, variants[i].suffix, v.suffix)
    ensures Pick(variants, overrides) == Some(variants[i].name)
  {
    assert variants[i] in variants;
    var j := Winner(variants, overrides);
    if variants[j].suffix != variants[i].suffix {
      WinsIsOneWay(overrides, Split(variants[i].suffix, ':'), Split(variants[j].suffix, ':'));
    }
  }

  /** The order in which the variants were recorded plays no part. */
  lemma AnyOrder(variants: seq<Variant>, others: seq<Variant>, overrides: seq<string>)
    requires Plain(variants, overrides) && (forall v :: v in variants <==> v in others)
    requires forall v, w | v in variants && w in variants && v.suffix == w.suffix :: v == w
    ensures Pick(variants, overrides) == Pick(others, overrides)
  {
    if AnyActive(variants, overrides) {
      var v :| v in variants && IsActive(v.suffix, overrides);
      assert v in others && Split(v.suffix, ':')[0] in Split(v.suffix, ':');
      var i := Winner(variants, overrides);
      var j := Winner(others, overrides);
      assert variants[i] in others && others[j] in variants;
      if variants[i].suffix != others[j].suffix {
        WinsIsOneWay(overrides, Split(variants[i].suffix, ':'), Split(others[j].suffix, ':'));
      }
    } else {
      PickIsActive(variants, overrides);
      PickIsActive(others, overrides);
    }
  }

  // ---------------------------------------------------------------- two suffixes with the same stem

  lemma NotBeforeFirst(overrides: seq<string>, o: string, t: nat)
    requires o in overrides && t < First(overrides, o)
    ensures At(overrides, t) != o
  {
    assert overrides[..First(overrides, o)][t] == overrides[t];
  }

  lemma StepBehind(overrides: seq<string>, q: seq<string>, o1: string, o2: string, t: nat)
    requires overrides != [] && Left(overrides, q + [o1], t) <= Left(overrides, q + [o2], t)
    requires Left(overrides, q + [o1], t) <= |q| || At(overrides, t) != o2
    ensures Left(overrides, q + [o1], t + 1) <= Left(overrides, q + [o2], t + 1)
  {
    var n := Left(overrides, q + [o1], t);
    if 0 < n <= |q| {
      assert (q + [o1])[n - 1] == q[n - 1] == (q + [o2])[n - 1];
    }
  }

  lemma LastTaken(overrides: seq<string>, q: seq<string>, o: string, t: nat)
    requires o in overrides && First(overrides, o) < t
    ensures Left(overrides, q + [o], t) <= |q|
  {
    var i := First(overrides, o);
    assert (q + [o])[|q|] == o == At(overrides, i);
    assert Left(overrides, q + [o], i + 1) <= |q|;
    LeftFalls(overrides, q + [o], i + 1, t);
  }

  /** Where the one takes its last component the other has taken its own. */
  lemma TakenBefore(overrides: seq<string>, q: seq<string>, o1: string, o2: string, t: nat)
    requires o1 in overrides && o2 in overrides && First(overrides, o1) < First(overrides, o2)
    ensures Left(overrides, q + [o1], t) <= |q| || At(overrides, t) != o2
  {
    if t < First(overrides, o2) {
      NotBeforeFirst(overrides, o2, t);
    } else {
      LastTaken(overrides, q, o1, t);
    }
  }

  /** The suffix whose last component comes first in the list is never behind. */
  lemma {:induction false} NeverBehind(overrides: seq<string>, q: seq<string>, o1: string, o2: string, t: nat)
    requires o1 in overrides && o2 in overrides && First(overrides, o1) < First(overrides, o2)
    ensures Left(overrides, q + [o1], t) <= Left(overrides, q + [o2], t)
  {
    if t > 0 {
      NeverBehind(overrides, q, o1, o2, t - 1);
      TakenBefore(overrides, q, o1, o2, t - 1);
      StepBehind(overrides, q, o1, o2, t - 1);
    }
  }

  /** Where the first took a step alone and both took the same ones from then on, it is ahead. */
  lemma StaysAhead(overrides: seq<string>, u: seq<string>, w: seq<string>, y: nat, x: nat)
    requires overrides != [] && Left(overrides, u, y) <= Left(overrides, w, y) && y < x
    requires Uses(overrides, u, y) && !Uses(overrides, w, y) && SameUses(overrides, u, w, y + 1, x)
    ensures Left(overrides, u, x) < Left(overrides, w, x)
  {
    DistanceStays(overrides, u, w, y + 1, x);
  }

  lemma AheadIfLater(overrides: seq<string>, u: seq<string>, w: seq<string>, x: nat)
    requires overrides != [] && Later(overrides, u, w, x)
    requires forall t: nat :: Left(overrides, u, t) <= Left(overrides, w, t)
    ensures Left(overrides, u, x) < Left(overrides, w, x)
  {
    var y: nat :| y < x && Uses(overrides, u, y) && !Uses(overrides, w, y) && SameUses(overrides, u, w, y + 1, x);
    StaysAhead(overrides, u, w, y, x);
  }

  lemma DoesNotWin(overrides: seq<string>, q: seq<string>, o1: string, o2: string)
    requires o1 in overrides && o2 in overrides && First(overrides, o1) < First(overrides, o2)
    ensures !Wins(overrides, q + [o1], q + [o2])
  {
    var u, w := q + [o1], q + [o2];
    forall t: nat ensures Left(overrides, u, t) <= Left(overrides, w, t) {
      NeverBehind(overrides, q, o1, o2, t);
    }
    if Wins(overrides, u, w) {
      var x: nat :| UsesUp(overrides, u, x) && LosesAt(overrides, u, w, x);
      AheadIfLater(overrides, u, w, x);
    }
  }

  /** Of stem:o1 and stem:o2 the one whose last override comes later in the list is chosen. */
  lemma LaterOverrideWins(variants: seq<Variant>, overrides: seq<string>, stem: string, o1: string, o2: string)
    returns (i: nat)
    requires Plain(variants, overrides) && o1 in overrides && o2 in overrides
    requires First(overrides, o1) < First(overrides, o2)
    requires exists v | v in variants :: v.suffix == Longer(stem, o2)
    requires forall v | v in variants && IsActive(v.suffix, overrides) ::
               v.suffix == Longer(stem, o1) || v.suffix == Longer(stem, o2)
    requires IsActive(Longer(stem, o2), overrides)
    ensures i < |variants| && variants[i].suffix == Longer(stem, o2) && IsLast(variants, i)
    ensures Pick(variants, overrides) == Some(variants[i].name)
  {
    i := Winner(variants, overrides);
    if variants[i].suffix != Longer(stem, o2) {
      SplitStemmed(stem, o1);
      SplitStemmed(stem, o2);
      DoesNotWin(overrides, Split(stem, ':'), o1, o2);
    }
  }

  lemma SplitStemmed(stem: string, o: string)
    requires ':' !in o
    ensures Split(Longer(stem, o), ':') == Split(stem, ':') + [o]
  {
    var parts := Split(stem, ':') + [o];
    JoinSplit(stem, ':');
    JoinLast(parts);
    assert parts[..|parts| - 1] == Split(stem, ':');
    SplitJoin(parts, ':');
  }

  // ---------------------------------------------------------------- an override named twice

  function Once(z: string, o: string): string { Join([z, o], ':') }

  function Twice(z: string, o: string): string { Join([z, o, o], ':') }

  /** The override strips the key to z. */
  predicate StripsTo(k: string, o: string, z: string) {
    EndsWith(k, ":" + o) && RemoveAll(k, ":" + o) == z && |z| < |k|
  }

  lemma OthersOfOne(parts: seq<string>, o: string)
    requires forall i | 0 <= i < |parts| :: parts[i] == o
    ensures Others(parts, o) == []
  {
    if parts != [] {
      OthersOfOne(parts[1..], o);
    }
  }

  lemma StrippedAlike(z: string, o: string, parts: seq<string>)
    requires IsName(z) && IsName(o) && !StartsWith(z, o) && parts in {[z, o], [z, o, o]}
    ensures StripsTo(Join(parts, ':'), o, z) && IsActive(Join(parts, ':'), [o, z])
  {
    var n := |parts| - 1;
    SplitJoin(parts, ':');
    assert IsActive(Join(parts, ':'), [o, z]) by { JoinLast(parts); }
    LastComponent(parts, o);
    RemoveFromKey(parts, o);
    OthersOfOne(parts[1..], o);
    assert Join([z], ':') == z;
    RemoveShortens(Join(parts, ':'), ":" + o);
  }

  function Pair(first: Variant, second: Variant): Active {
    Active([first.suffix, second.suffix], map[first.suffix := first.name, second.suffix := second.name])
  }

  lemma CollectPair(first: Variant, second: Variant, overrides: seq<string>)
    requires first.suffix != second.suffix && IsActive(first.suffix, overrides) && IsActive(second.suffix, overrides)
    ensures CollectActive([first, second], overrides) == Pair(first, second)
  {
    assert [first, second][..1] == [first] && [first][..0] == [];
    assert CollectActive([first], overrides) == Only(first.suffix, first.name);
  }

  lemma DropFirst(names: map<string, string>, a: string, b: string)
    requires a != b && names.Keys == {a, b}
    ensures Active([a, b], names).Drop(a) == Active([b], map[b := names[b]])
  {
    assert [a, b][..1] == [a] && Without([a], a) == [];
  }

  lemma FirstStripped(names: map<string, string>, a: string, b: string, o: string, z: string)
    requires a != b && StripsTo(a, o, z) && z != b && names.Keys == {a, b}
    ensures Visit(a, o, LoopState(Active([a, b], names), None, false)) ==
            LoopState(Active([b, z], map[b := names[b], z := names[a]]), None, true)
  {
    DropFirst(names, a, b);
    assert [b] + [z] == [b, z];
    assert Active([b], map[b := names[b]]).Put(z, names[a]) == Active([b, z], map[b := names[b], z := names[a]]);
  }

  lemma SecondStripped(names: map<string, string>, b: string, o: string, z: string)
    requires b != z && StripsTo(b, o, z) && names.Keys == {b, z}
    ensures Visit(b, o, LoopState(Active([b, z], names), None, true)) == LoopState(Only(z, names[b]), None, true)
  {
    assert [b, z][..1] == [b] && [b][..0] == [] && Without([b], b) == [];
    assert Active([b, z], names).Drop(b).order == [z];
  }

  /** Both keys are stripped to z; the second overwrites what the first has put there. */
  lemma StripPair(first: Variant, second: Variant, o: string, z: string)
    requires first.suffix != second.suffix && StripsTo(first.suffix, o, z) && StripsTo(second.suffix, o, z)
    ensures VisitKeys([first.suffix, second.suffix], o, LoopState(Pair(first, second), None, false)) ==
            LoopState(Only(z, second.name), None, true)
  {
    var a, b, s := first.suffix, second.suffix, LoopState(Pair(first, second), None, false);
    assert [a, b][..1] == [a] && [a][..0] == [];
    FirstStripped(Pair(first, second).names, a, b, o, z);
    SecondStripped(map[b := second.name, z := first.name], b, o, z);
    assert VisitKeys([a], o, s) == Visit(a, o, s);
  }

  lemma TwoRounds(first: Variant, second: Variant, o: string, z: string)
    requires first.suffix != second.suffix && StripsTo(first.suffix, o, z) && StripsTo(second.suffix, o, z)
    requires ':' !in z && z != o
    ensures var r := Round([o, z], LoopState(Pair(first, second), None, false));
            r == LoopState(Only(z, second.name).Drop(z), Some(second.name), true)
  {
    var s, t := LoopState(Pair(first, second), None, false), LoopState(Only(z, second.name), None, true);
    StripPair(first, second, o, z);
    assert [o, z][..1] == [o] && [o][..0] == [] && [z][..0] == [];
    assert Round([o], s) == t;
    PatternHoldsColon(z, z);
    assert VisitKeys([z], z, t) == Visit(z, z, t);
  }

  lemma SecondWins(first: Variant, second: Variant, o: string, z: string)
    requires IsName(z) && IsName(o) && !StartsWith(z, o)
    requires {first.suffix, second.suffix} == {Once(z, o), Twice(z, o)} && first.suffix != second.suffix
    ensures Pick([first, second], [o, z]) == Some(second.name)
  {
    StrippedAlike(z, o, [z, o]);
    StrippedAlike(z, o, [z, o, o]);
    assert first.suffix in {Once(z, o), Twice(z, o)} && second.suffix in {Once(z, o), Twice(z, o)};
    CollectPair(first, second, [o, z]);
    TwoRounds(first, second, o, z);
    var s := LoopState(Pair(first, second), None, false);
    var r := Round([o, z], s);
    CollectFacts([first, second], [o, z]);
    RoundShrinks([o, z], s);
    RoundsChooseStored([o, z], r.active, r.chosen);
  }

  /** With an override named twice the winner can depend on the order in which the variants were recorded. */
  lemma TwiceNamedIsByOrder(once: Variant, twice: Variant, o: string, z: string)
    requires IsName(z) && IsName(o) && !StartsWith(z, o)
    requires once.suffix == Once(z, o) && twice.suffix == Twice(z, o)
    ensures Pick([once, twice], [o, z]) == Some(twice.name)
    ensures Pick([twice, once], [o, z]) == Some(once.name)
  {
    SplitJoin([z, o], ':');
    SplitJoin([z, o, o], ':');
    SecondWins(once, twice, o, z);
    SecondWins(twice, once, o, z);
  }
}
