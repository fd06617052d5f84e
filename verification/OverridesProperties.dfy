/** What the strip-and-match loop selects, and exactly when it can fail to select. */
module OverridesProperties {
  import opened Wrappers
  import opened Text
  import opened Overrides
  import opened Updates

  /** A component that `_setvar_update_overrides` records: it starts with a lower-case letter or a digit. */
  predicate IsName(c: string) {
    c != "" && ':' !in c && ('a' <= c[0] <= 'z' || '0' <= c[0] <= '9')
  }

  predicate Recorded(suffix: string) {
    forall c | c in Split(suffix, ':') :: IsName(c)
  }

  ghost predicate AllRecorded(variants: seq<Variant>) {
    forall v | v in variants :: Recorded(v.suffix)
  }

  /** OVERRIDES is split at colons, so no entry holds one. */
  predicate ColonFree(overrides: seq<string>) {
    forall o | o in overrides :: ':' !in o
  }

  /** No override name starts with another one. */
  ghost predicate PrefixFree(overrides: seq<string>) {
    forall p, q | p in overrides && q in overrides && IsName(p) && IsName(q) ::
      StartsWith(q, p) ==> p == q
  }

  function Others(parts: seq<string>, o: string): seq<string> {
    if parts == [] then []
    else if parts[0] == o then Others(parts[1..], o)
    else [parts[0]] + Others(parts[1..], o)
  }

  lemma {:induction false} OthersMembers(parts: seq<string>, o: string)
    ensures forall p :: p in Others(parts, o) <==> p in parts && p != o
  {
    if parts != [] {
      OthersMembers(parts[1..], o);
      assert forall p :: p in parts <==> p == parts[0] || p in parts[1..];
    }
  }

  // ---------------------------------------------------------------- what stripping does to a key

  lemma PatternStartsComponent(p: string, rest: string, o: string)
    requires rest == "" || rest[0] == ':'
    ensures StartsWith(":" + p + rest, ":" + o) ==> StartsWith(p, o) || ':' in o
  {
    var s, pat := ":" + p + rest, ":" + o;
    if StartsWith(s, pat) {
      assert o == pat[1..] == s[1..|pat|];
      if |o| <= |p| {
        assert s[1..|pat|] == p[..|o|];
      } else {
        assert o[|p|] == s[1 + |p|] == rest[0];
      }
    }
  }

  lemma PatternHoldsColon(k: string, o: string)
    ensures EndsWith(k, ":" + o) ==> ':' in k
  {
    if EndsWith(k, ":" + o) {
      var pat := ":" + o;
      assert k[|k| - |pat| + 0] == pat[0];
    }
  }

  /** When no component merely starts with o, `replace` removes whole components. */
  lemma {:induction false} RemoveFromTail(parts: seq<string>, o: string)
    requires ':' !in o && forall p | p in parts :: ':' !in p
    requires forall p | p in parts :: StartsWith(p, o) ==> p == o
    ensures RemoveAll(Tail(parts, ':'), ":" + o) == Tail(Others(parts, o), ':')
  {
    if parts != [] {
      var p, rest, pat := parts[0], Tail(parts[1..], ':'), ":" + o;
      var s := Tail(parts, ':');
      assert forall q | q in parts[1..] :: q in parts;
      RemoveFromTail(parts[1..], o);
      assert s == ":" + p + rest;
      if p == o {
        RemoveMatch(pat, rest);
      } else {
        PatternStartsComponent(p, rest, o);
        RemoveBehindPart(p, rest, pat);
      }
    }
  }

  lemma RemoveBehindPart(p: string, rest: string, pat: string)
    requires ':' !in p && pat != "" && pat[0] == ':' && !StartsWith(":" + p + rest, pat)
    ensures RemoveAll(":" + p + rest, pat) == ":" + p + RemoveAll(rest, pat)
  {
    var s := ":" + p + rest;
    RemoveNoMatch(s, pat);
    assert s[1..] == p + rest;
    RemoveSkipsPlain(p, rest, pat);
  }

  lemma RemoveFromKey(parts: seq<string>, o: string)
    requires parts != [] && ':' !in o && forall p | p in parts :: ':' !in p
    requires forall p | p in parts :: StartsWith(p, o) ==> p == o
    ensures RemoveAll(Join(parts, ':'), ":" + o) == Join([parts[0]] + Others(parts[1..], o), ':')
  {
    RemoveSkipsPlain(parts[0], Tail(parts[1..], ':'), ":" + o);
    RemoveFromTail(parts[1..], o);
    assert ([parts[0]] + Others(parts[1..], o))[1..] == Others(parts[1..], o);
  }

  /** A key ends with ":" + o exactly when o is its last component and not its only one. */
  lemma LastComponent(parts: seq<string>, o: string)
    requires parts != [] && ':' !in o && forall p | p in parts :: ':' !in p
    ensures EndsWith(Join(parts, ':'), ":" + o) <==> |parts| > 1 && parts[|parts| - 1] == o
  {
    var s, n := Join(parts, ':'), |parts|;
    if n == 1 {
      assert s == parts[0];
      PatternHoldsColon(s, o);
    } else {
      var last := parts[n - 1];
      assert parts[1..] == parts[1..n - 1] + [last];
      TailAppend(parts[1..n - 1], [last], ':');
      var front := parts[0] + Tail(parts[1..n - 1], ':');
      assert Tail([last], ':') == ":" + last;
      assert s == front + (":" + last);
      LastPart(front, last, o);
    }
  }

  lemma LastPart(front: string, last: string, o: string)
    ensures EndsWith(front + (":" + last), ":" + last)
    ensures EndsWith(front + (":" + last), ":" + o) ==> last == o || ':' in o || ':' in last
  {
    var s, pat := front + (":" + last), ":" + o;
    assert |s| == |front| + 1 + |last| && s[|front|] == ':';
    assert forall j | 0 <= j < |last| :: s[|front| + 1 + j] == last[j];
    if EndsWith(s, pat) {
      var i := |s| - |pat|;
      assert s[i + 0] == pat[0] == ':';
      assert forall j | 0 <= j < |o| :: s[i + (1 + j)] == pat[1 + j] == o[j];
      if i < |front| {
        assert o[|front| - i - 1] == ':';
      } else if i > |front| {
        assert last[i - |front| - 1] == s[i];
      } else {
        assert |o| == |last| && forall j | 0 <= j < |o| :: o[j] == s[i + (1 + j)] == last[j];
      }
    }
  }

  // ---------------------------------------------------------------- only active variants are chosen

  /** Only a variant whose components are all active is ever selected. */
  lemma PickIsActive(variants: seq<Variant>, overrides: seq<string>)
    ensures var c := Pick(variants, overrides);
            c.Some? ==> exists v | v in variants :: v.name == c.value && IsActive(v.suffix, overrides)
  {
    CollectFacts(variants, overrides);
    var d := CollectActive(variants, overrides);
    RoundsChooseStored(overrides, d, None);
    var c := Pick(variants, overrides);
    if c.Some? {
      var k :| k in d.names && d.names[k] == c.value;
      assert Variant(c.value, k) in variants;
    }
  }

  // ---------------------------------------------------------------- some variant is chosen

  ghost predicate Covered(key: string, overrides: seq<string>) {
    forall c | c in Split(key, ':') :: IsName(c) && c in overrides
  }

  ghost predicate AllCovered(d: Active, overrides: seq<string>) {
    forall k | k in d.names :: Covered(k, overrides)
  }

  lemma StrippedIsCovered(key: string, o: string, overrides: seq<string>)
    requires ColonFree(overrides) && PrefixFree(overrides) && o in overrides
    requires Covered(key, overrides) && EndsWith(key, ":" + o)
    ensures Covered(RemoveAll(key, ":" + o), overrides)
  {
    var parts := Split(key, ':');
    JoinSplit(key, ':');
    LastComponent(parts, o);
    assert parts[|parts| - 1] == o;
    forall p | p in parts && StartsWith(p, o) ensures p == o {
      assert IsName(p) && p in overrides;
    }
    RemoveFromKey(parts, o);
    OthersMembers(parts[1..], o);
    var kept := [parts[0]] + Others(parts[1..], o);
    assert forall p | p in kept :: p in parts;
    SplitJoin(kept, ':');
  }

  /** Override o neither strips nor matches key k. */
  predicate Untouched(k: string, o: string) {
    !EndsWith(k, ":" + o) && k != o
  }

  lemma {:induction false} VisitKeysCovered(keys: seq<string>, o: string, s: LoopState, overrides: seq<string>)
    requires ColonFree(overrides) && PrefixFree(overrides) && o in overrides
    requires AllCovered(s.active, overrides)
    ensures AllCovered(VisitKeys(keys, o, s).active, overrides)
    ensures var t := VisitKeys(keys, o, s);
            !t.changed ==>
              && !s.changed
              && forall k | k in t.active.names ::
                   k in s.active.names && (k in keys ==> Untouched(k, o))
  {
    if keys != [] {
      var init, a := keys[..|keys| - 1], keys[|keys| - 1];
      VisitKeysCovered(init, o, s, overrides);
      var t := VisitKeys(init, o, s);
      if a in t.active.names && EndsWith(a, ":" + o) {
        StrippedIsCovered(a, o, overrides);
      }
      assert forall k :: k in keys <==> k in init || k == a;
    }
  }

  lemma {:induction false} RoundCovered(done: seq<string>, s: LoopState, overrides: seq<string>)
    requires ColonFree(overrides) && PrefixFree(overrides) && forall o | o in done :: o in overrides
    requires s.active.Valid() && AllCovered(s.active, overrides)
    ensures AllCovered(Round(done, s).active, overrides)
    ensures var t := Round(done, s);
            !t.changed ==> forall k, o | k in t.active.names && o in done :: Untouched(k, o)
  {
    if done != [] {
      var init, o := done[..|done| - 1], done[|done| - 1];
      assert forall p | p in init :: p in done;
      RoundCovered(init, s, overrides);
      RoundShrinks(init, s);
      var t := Round(init, s);
      VisitKeysCovered(t.active.order, o, t, overrides);
      assert forall p :: p in done <==> p in init || p == o;
      var u := Round(done, s);
      if !u.changed {
        forall k, p | k in u.active.names && p in done ensures Untouched(k, p) {
          assert k in t.active.names && k in t.active.order;
          if p != o { assert p in init; }
        }
      }
    }
  }

  lemma OrderHasKey(d: Active)
    requires d.Valid()
    ensures d.order != [] ==> exists k :: k in d.names
  {
    if d.order != [] {
      assert d.order[0] in d.names;
    }
  }

  lemma CoveredKeyMoves(key: string, overrides: seq<string>)
    requires ColonFree(overrides) && Covered(key, overrides)
    ensures exists o | o in overrides :: !Untouched(key, o)
  {
    var parts := Split(key, ':');
    JoinSplit(key, ':');
    var last := parts[|parts| - 1];
    assert last in parts;
    LastComponent(parts, last);
    if |parts| == 1 {
      assert key == parts[0] + Tail([], ':') == last;
    }
    assert !Untouched(key, last);
  }

  /** A covered key cannot outlast a round that changes nothing. */
  lemma NothingLeft(s: LoopState, overrides: seq<string>)
    requires ColonFree(overrides) && PrefixFree(overrides)
    requires s.active.Valid() && AllCovered(s.active, overrides)
    requires !Round(overrides, s).changed
    ensures Round(overrides, s).active.order == []
  {
    RoundCovered(overrides, s, overrides);
    RoundShrinks(overrides, s);
    var t := Round(overrides, s);
    forall k | k in t.active.names ensures false {
      CoveredKeyMoves(k, overrides);
    }
    OrderHasKey(t.active);
  }

  lemma {:induction false} RoundsChoose(overrides: seq<string>, active: Active, chosen: Option<string>)
    requires ColonFree(overrides) && PrefixFree(overrides)
    requires active.Valid() && AllCovered(active, overrides)
    requires active.order != [] || chosen.Some?
    ensures Rounds(overrides, active, chosen).chosen.Some?
    ensures Rounds(overrides, active, chosen).active.order == []
    decreases Weight(active.order)
  {
    var s := LoopState(active, chosen, false);
    RoundShrinks(overrides, s);
    RoundCovered(overrides, s, overrides);
    var t := Round(overrides, s);
    if t.changed {
      RoundsChoose(overrides, t.active, t.chosen);
    } else {
      NothingLeft(s, overrides);
    }
  }

  lemma RecordedIsCovered(suffix: string, overrides: seq<string>)
    requires ColonFree(overrides) && Recorded(suffix) && IsActive(suffix, overrides)
    ensures Covered(suffix, overrides)
  {
    if suffix in overrides {
      SplitOfPlain(suffix, ':');
    }
  }

  lemma PickSelectsWhenPrefixFree(variants: seq<Variant>, overrides: seq<string>)
    requires ColonFree(overrides) && PrefixFree(overrides)
    requires AllRecorded(variants) && AnyActive(variants, overrides)
    ensures Pick(variants, overrides).Some?
  {
    CollectFacts(variants, overrides);
    var d := CollectActive(variants, overrides);
    var v :| v in variants && IsActive(v.suffix, overrides);
    assert v.suffix in d.names && v.suffix in d.order;
    forall k | k in d.names ensures Covered(k, overrides) {
      var w :| w in variants && w.suffix == k && IsActive(k, overrides);
      RecordedIsCovered(k, overrides);
    }
    RoundsChoose(overrides, d, None);
  }

  // ---------------------------------------------------------------- and when none is

  function Only(key: string, name: string): Active {
    Active([key], map[key := name])
  }

  lemma {:induction false} LongestName(overrides: seq<string>, some: string) returns (l: string)
    requires some in overrides && IsName(some)
    ensures l in overrides && IsName(l)
    ensures forall o | o in overrides && IsName(o) :: |o| <= |l|
  {
    if |overrides| == 1 {
      l := some;
    } else {
      var o, rest := overrides[0], overrides[1..];
      assert forall p :: p in overrides <==> p == o || p in rest;
      if exists p :: p in rest && IsName(p) {
        var p :| p in rest && IsName(p);
        l := LongestName(rest, p);
        if IsName(o) && |o| > |l| { l := o; }
      } else {
        l := o;
      }
    }
  }

  /** A colon-free key that is no override stays. */
  lemma {:induction false} StuckRound(done: seq<string>, key: string, name: string, s: LoopState)
    requires ':' !in key && key !in done && s.active == Only(key, name)
    ensures Round(done, s) == s
  {
    if done != [] {
      var init, o := done[..|done| - 1], done[|done| - 1];
      StuckRound(init, key, name, s);
      PatternHoldsColon(key, o);
      assert VisitKeys([key][..0], o, s) == s;
      assert VisitKeys([key], o, s) == Visit(key, o, s) == s;
    }
  }

  /** The key l:q:p, where q is p with rest after it, is waiting or has become l with that rest. */
  lemma {:induction false} MangledRound(done: seq<string>, l: string, p: string, rest: string, name: string)
    requires ColonFree(done) && IsName(l) && IsName(p) && IsName(p + rest)
    requires l + rest !in done
    ensures var key := Join([l, p + rest, p], ':');
            Round(done, LoopState(Only(key, name), None, false)) ==
              if p in done then LoopState(Only(l + rest, name), None, true)
              else LoopState(Only(key, name), None, false)
  {
    var key, bad := Join([l, p + rest, p], ':'), l + rest;
    if done != [] {
      var init, o := done[..|done| - 1], done[|done| - 1];
      assert forall x | x in init :: x in done;
      MangledRound(init, l, p, rest, name);
      var t := Round(init, LoopState(Only(key, name), None, false));
      LastComponent([l, p + rest, p], o);
      Mangle(l, p, rest);
      assert key[|l|] == ':';
      var k := t.active.order[0];
      assert t.active.order == [k] && VisitKeys([k][..0], o, t) == t;
      assert VisitKeys([k], o, t) == Visit(k, o, t);
      if p in init {
        PatternHoldsColon(bad, o);
        assert Visit(k, o, t) == t;
      } else if o == p {
        assert Only(key, name).Drop(key).Put(bad, name) == Only(bad, name);
      }
      assert forall x :: x in done <==> x in init || x == o;
    }
  }

  lemma Mangle(l: string, p: string, rest: string)
    requires ':' !in l && ':' !in rest
    ensures RemoveAll(Join([l, p + rest, p], ':'), ":" + p) == l + rest
  {
    var pat := ":" + p;
    KeyOfThree(l, p, rest);
    RemovePiece(l, pat, rest + (pat + ""));
    RemovePiece(rest, pat, "");
    assert RemoveAll("", pat) == "";
  }

  lemma KeyOfThree(l: string, p: string, rest: string)
    ensures Join([l, p + rest, p], ':') == l + ((":" + p) + (rest + ((":" + p) + "")))
  {
    var q := p + rest;
    assert [l, q, p][1..] == [q, p] && [q, p][1..] == [p] && [p][1..] == [];
    assert Tail([p], ':') == ":" + p;
    assert Tail([q, p], ':') == ":" + q + (":" + p);
  }

  /** When one override name starts with another, an active variant can be missed, whatever variable it is of. */
  lemma PickCanMiss(overrides: seq<string>, base: string) returns (suffix: string)
    requires ColonFree(overrides) && !PrefixFree(overrides)
    ensures var v := Variant(base + ":" + suffix, suffix);
            && AllRecorded([v]) && AnyActive([v], overrides) && Pick([v], overrides).None?
            && (base != "" ==> IsRecorded(map[], v, base))
  {
    var p, q :| p in overrides && q in overrides && IsName(p) && IsName(q) && StartsWith(q, p) && p != q;
    var l := LongestName(overrides, p);
    var bad := l + q[|p|..];
    assert q == p + q[|p|..];
    assert |bad| > |l| && bad[0] == l[0] && IsName(bad);
    suffix := Join([l, q, p], ':');
    var v := Variant(base + ":" + suffix, suffix);
    MangledIsActive(overrides, l, p, q);
    assert v in [v];
    MangledIsMissed(overrides, v, l, p, q);
    if base != "" {
      ThreePartsRecorded(base, l, q, p);
    }
  }

  lemma MangledIsActive(overrides: seq<string>, l: string, p: string, q: string)
    requires l in overrides && p in overrides && q in overrides && IsName(l) && IsName(p) && IsName(q)
    ensures Recorded(Join([l, q, p], ':')) && IsActive(Join([l, q, p], ':'), overrides)
  {
    var parts := [l, q, p];
    SplitJoin(parts, ':');
    assert Join(parts, ':')[|l|] == ':' by { KeyOfThreeColon(l, p, q); }
  }

  lemma KeyOfThreeColon(l: string, p: string, q: string)
    ensures |Join([l, q, p], ':')| > |l| && Join([l, q, p], ':')[|l|] == ':'
  {
    assert [l, q, p][1..] == [q, p];
    assert Tail([q, p], ':')[0] == ':';
  }

  lemma MangledIsMissed(overrides: seq<string>, v: Variant, l: string, p: string, q: string)
    requires ColonFree(overrides) && p in overrides && IsName(l) && IsName(p) && IsName(q) && StartsWith(q, p)
    requires IsName(l + q[|p|..]) && l + q[|p|..] !in overrides
    requires v.suffix == Join([l, q, p], ':') && IsActive(v.suffix, overrides)
    ensures Pick([v], overrides).None?
  {
    var bad := l + q[|p|..];
    assert [v][..0] == [];
    assert CollectActive([v][..0], overrides) == Active([], map[]);
    assert CollectActive([v], overrides) == Only(v.suffix, v.name);
    MangledRound(overrides, l, p, q[|p|..], v.name);
    assert p + q[|p|..] == q;
    StuckRound(overrides, bad, v.name, LoopState(Only(bad, v.name), None, false));
    assert Rounds(overrides, Only(bad, v.name), None).chosen.None?;
  }

  /** Recording the variant leaves it as the only one of that base. */
  predicate IsRecorded(variants: VariantMap, v: Variant, base: string) {
    var r := Record(variants, v.name);
    base in r && r[base] == [v]
  }

  lemma {:induction false} LastColon(s: string, t: string)
    requires ':' !in t
    ensures RFind(s + ":" + t, ':') == |s|
  {
    var u := s + ":" + t;
    if t == "" {
      assert u[|u| - 1] == ':';
    } else {
      assert u[|u| - 1] == t[|t| - 1] && u[..|u| - 1] == s + ":" + t[..|t| - 1];
      LastColon(s, t[..|t| - 1]);
    }
  }

  /** One step of recording: the base shorter:part has been dealt with, shorter is next. */
  lemma RecordStep(variants: VariantMap, name: string, suffix: string, shorter: string, part: string, rest: string)
    requires StartsName(suffix) && shorter != "" && ':' !in part
    requires name == shorter + ":" + rest && |part| <= |rest|
    ensures RecordFrom(variants, name, suffix, shorter + ":" + part) ==
            RecordFrom(AddVariant(variants, shorter + ":" + part, Variant(name, suffix)), name, rest, shorter)
  {
    var base := shorter + ":" + part;
    LastColon(shorter, part);
    assert base[..|shorter|] == shorter && OverrideAt(name, |shorter|) == rest;
  }

  lemma RecordStart(variants: VariantMap, name: string, base: string, rest: string)
    requires ':' !in rest && name == base + ":" + rest
    ensures Record(variants, name) == RecordFrom(variants, name, rest, base)
  {
    LastColon(base, rest);
    assert name[..|base|] == base && OverrideAt(name, |base|) == rest;
  }

  /** At the base itself, whatever happens to shorter ones. */
  lemma RecordEnd(variants: VariantMap, name: string, suffix: string, base: string)
    requires base !in variants && StartsName(suffix) && |base| <= |name|
    ensures var r := RecordFrom(variants, name, suffix, base); base in r && r[base] == [Variant(name, suffix)]
  {
    var last := AddVariant(variants, base, Variant(name, suffix));
    assert last[base] == [] + [Variant(name, suffix)];
    var i := RFind(base, ':');
    if i > 0 {
      RecordFromAbove(last, name, OverrideAt(name, i), base[..i], base);
    }
  }

  lemma NameOfParts(base: string, l: string, q: string, p: string, rest: string, suffix: string, name: string)
    requires rest == q + (":" + p) && suffix == l + (":" + rest) && name == base + (":" + suffix)
    ensures name == base + ":" + l + ":" + rest && name == base + ":" + l + ":" + q + ":" + p
  {
    assert base + ":" + l + ":" + rest == base + (":" + (l + (":" + rest)));
    assert (base + ":" + l + ":" + q) + ":" + p == (base + ":" + l + ":") + (q + (":" + p));
  }

  lemma ThreePartsRecorded(base: string, l: string, q: string, p: string)
    requires base != "" && IsName(l) && IsName(q) && IsName(p)
    ensures IsRecorded(map[], Variant(base + ":" + Join([l, q, p], ':'), Join([l, q, p], ':')), base)
  {
    var suffix, rest := Join([l, q, p], ':'), q + (":" + p);
    var name, two := base + ":" + suffix, base + ":" + l;
    KeyOfThreeParts(l, q, p);
    NameOfParts(base, l, q, p, rest, suffix, name);
    AllStepsRecorded(base, l, q, p, rest, suffix, name, two);
  }

  lemma AllStepsRecorded(base: string, l: string, q: string, p: string, rest: string, suffix: string, name: string,
                         two: string)
    requires base != "" && IsName(l) && IsName(q) && IsName(p) && two == base + ":" + l
    requires StartsName(rest) && StartsName(suffix) && |q| <= |rest| && |l| <= |suffix|
    requires name == base + ":" + suffix && name == two + ":" + rest && name == (two + ":" + q) + ":" + p
    ensures IsRecorded(map[], Variant(name, suffix), base)
  {
    RecordStart(map[], name, two + ":" + q, p);
    RecordStep(map[], name, p, two, q, rest);
    var one := AddVariant(map[], two + ":" + q, Variant(name, p));
    RecordStep(one, name, rest, base, l, suffix);
    RecordEnd(AddVariant(one, two, Variant(name, rest)), name, suffix, base);
  }

  lemma KeyOfThreeParts(l: string, q: string, p: string)
    ensures Join([l, q, p], ':') == l + (":" + (q + (":" + p)))
  {
    assert [l, q, p][1..] == [q, p] && [q, p][1..] == [p] && [p][1..] == [];
    assert Tail([p], ':') == ":" + p;
    assert ":" + q + (":" + p) == ":" + (q + (":" + p));
  }

  /** The loop selects a variant for every set of active variants exactly when no
      override name starts with another. */
  lemma PickSelectsIffPrefixFree(overrides: seq<string>)
    requires ColonFree(overrides)
    ensures (forall variants: seq<Variant> | AllRecorded(variants) ::
               Pick(variants, overrides).Some? <==> AnyActive(variants, overrides))
            <==> PrefixFree(overrides)
  {
    if PrefixFree(overrides) {
      forall variants: seq<Variant> | AllRecorded(variants)
        ensures Pick(variants, overrides).Some? <==> AnyActive(variants, overrides)
      {
        PickIsActive(variants, overrides);
        if AnyActive(variants, overrides) {
          PickSelectsWhenPrefixFree(variants, overrides);
        }
      }
    } else {
      var suffix := PickCanMiss(overrides, "");
      assert AllRecorded([Variant("" + ":" + suffix, suffix)]);
    }
  }

  // ---------------------------------------------------------------- which one, for single names

  /** The position where o first occurs. */
  function First(overrides: seq<string>, o: string): (i: nat)
    requires o in overrides
    ensures i < |overrides| && overrides[i] == o && o !in overrides[..i]
  {
    if overrides[0] == o then 0 else 1 + First(overrides[1..], o)
  }

  lemma {:induction false} FirstIs(overrides: seq<string>, o: string, i: nat)
    requires i < |overrides| && overrides[i] == o && o !in overrides[..i]
    ensures First(overrides, o) == i
  {
    if i > 0 {
      assert overrides[..i][0] == overrides[0];
      assert overrides[1..][..i - 1] == overrides[..i][1..];
      FirstIs(overrides[1..], o, i - 1);
    }
  }

  lemma FirstInPrefix(overrides: seq<string>, n: nat, o: string)
    requires n <= |overrides| && o in overrides[..n]
    ensures First(overrides[..n], o) == First(overrides, o)
  {
    var i := First(overrides[..n], o);
    assert overrides[..n][..i] == overrides[..i];
    FirstIs(overrides, o, i);
  }

  ghost predicate PlainKeys(d: Active) {
    forall k | k in d.names :: ':' !in k
  }

  /** The choice after the overrides in done: the stored key that first occurs latest. */
  ghost predicate LatestOf(done: seq<string>, d: Active, chosen: Option<string>) {
    if exists k :: k in d.names && k in done then
      exists w | w in d.names && w in done ::
        && chosen == Some(d.names[w])
        && forall k | k in d.names && k in done :: First(done, k) <= First(done, w)
    else chosen.None?
  }

  lemma {:induction false} VisitPlainKeys(keys: seq<string>, o: string, s: LoopState)
    requires PlainKeys(s.active) && forall i, j | 0 <= i < j < |keys| :: keys[i] != keys[j]
    ensures VisitKeys(keys, o, s) ==
            if o in keys && o in s.active.names
            then LoopState(s.active.Drop(o), Some(s.active.names[o]), s.changed) else s
  {
    if keys != [] {
      var init, a := keys[..|keys| - 1], keys[|keys| - 1];
      VisitPlainKeys(init, o, s);
      PatternHoldsColon(a, o);
      assert forall k :: k in keys <==> k in init || k == a;
    }
  }

  lemma {:induction false} RoundOnPlainKeys(done: seq<string>, d: Active)
    requires d.Valid() && PlainKeys(d)
    ensures var t := Round(done, LoopState(d, None, false));
            && !t.changed && LatestOf(done, d, t.chosen)
            && forall k :: k in t.active.names <==> k in d.names && k !in done
    ensures forall k | k in Round(done, LoopState(d, None, false)).active.names ::
              Round(done, LoopState(d, None, false)).active.names[k] == d.names[k]
  {
    if done != [] {
      var n := |done| - 1;
      var init, o := done[..n], done[n];
      RoundOnPlainKeys(init, d);
      var s := LoopState(d, None, false);
      RoundShrinks(init, s);
      var t, u := Round(init, s), Round(done, s);
      VisitPlainKeys(t.active.order, o, t);
      assert forall k :: k in done <==> k in init || k == o;
      forall k | k in init ensures First(done, k) == First(init, k) < n {
        FirstInPrefix(done, n, k);
      }
      if o in t.active.names {
        assert First(done, o) == n;
        assert u.chosen == Some(d.names[o]);
        assert LatestOf(done, d, u.chosen);
      } else {
        assert u == t;
        if exists k :: k in d.names && k in init {
          var w :| w in d.names && w in init && t.chosen == Some(d.names[w]) &&
                   forall k | k in d.names && k in init :: First(init, k) <= First(init, w);
          forall k | k in d.names && k in done ensures First(done, k) <= First(done, w) {
            assert k in init;
          }
          assert LatestOf(done, d, u.chosen);
        }
      }
    }
  }

  /** With single-name overrides the winner is the active one that first occurs latest in OVERRIDES. */
  lemma SingleNameWinner(variants: seq<Variant>, overrides: seq<string>) returns (w: Variant)
    requires forall v | v in variants && IsActive(v.suffix, overrides) :: ':' !in v.suffix
    requires AnyActive(variants, overrides)
    ensures w in variants && w.suffix in overrides && Pick(variants, overrides) == Some(w.name)
    ensures forall v | v in variants && v.suffix in overrides ::
              First(overrides, v.suffix) <= First(overrides, w.suffix)
  {
    CollectFacts(variants, overrides);
    var d := CollectActive(variants, overrides);
    RoundOnPlainKeys(overrides, d);
    var v :| v in variants && IsActive(v.suffix, overrides);
    assert v.suffix in d.names && v.suffix in overrides;
    var t := Round(overrides, LoopState(d, None, false));
    var k :| k in d.names && k in overrides && t.chosen == Some(d.names[k]) &&
             forall m | m in d.names && m in overrides :: First(overrides, m) <= First(overrides, k);
    w := Variant(d.names[k], k);
    forall v | v in variants && v.suffix in overrides
      ensures First(overrides, v.suffix) <= First(overrides, w.suffix)
    {
      assert IsActive(v.suffix, overrides);
      assert v.suffix in d.names;
    }
  }

  /** With distinct override names as well, no active name stands after the winner in OVERRIDES. */
  lemma SingleNameWinnerIsLast(variants: seq<Variant>, overrides: seq<string>) returns (i: nat)
    requires forall i, j | 0 <= i < j < |overrides| :: overrides[i] != overrides[j]
    requires forall v | v in variants && IsActive(v.suffix, overrides) :: ':' !in v.suffix
    requires AnyActive(variants, overrides)
    ensures i < |overrides|
    ensures exists w | w in variants :: w.suffix == overrides[i] && Pick(variants, overrides) == Some(w.name)
    ensures forall j, v | i < j < |overrides| && v in variants :: v.suffix != overrides[j]
  {
    var w := SingleNameWinner(variants, overrides);
    i := First(overrides, w.suffix);
    forall j | i < j < |overrides| ensures First(overrides, overrides[j]) == j {
      FirstIs(overrides, overrides[j], j);
    }
  }

  // ---------------------------------------------------------------- a single variant

  /** The only variant is chosen when its override is the only active one. */
  lemma OneActive(r: Variant)
    requires ':' !in r.suffix
    ensures Pick([r], [r.suffix]) == Some(r.name)
  {
    var o := r.suffix;
    assert [r][..0] == [] && [o][..0] == [];
    assert CollectActive([r], [o]) == Only(o, r.name);
    PatternHoldsColon(o, o);
    var s := LoopState(Only(o, r.name), None, false);
    assert VisitKeys([o][..0], o, s) == s;
    assert VisitKeys([o], o, s) == Visit(o, o, s);
    assert Round([o], s) == Visit(o, o, s) == LoopState(Only(o, r.name).Drop(o), Some(r.name), false);
    CollectFacts([r], [o]);
  }

  lemma {:induction false} NothingToVisit(overrides: seq<string>)
    ensures Round(overrides, LoopState(Active([], map[]), None, false)) == LoopState(Active([], map[]), None, false)
  {
    if overrides != [] {
      NothingToVisit(overrides[..|overrides| - 1]);
    }
  }

  /** And nothing is when its override is not active. */
  lemma OneInactive(r: Variant, overrides: seq<string>)
    requires !IsActive(r.suffix, overrides)
    ensures Pick([r], overrides).None?
  {
    assert [r][..0] == [];
    assert CollectActive([r], overrides) == Active([], map[]);
    NothingToVisit(overrides);
    CollectFacts([r], overrides);
  }
}
