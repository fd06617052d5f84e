/** For which variables a variant is recorded and forgotten, and that deleting a variant undoes
    assigning it. */
module VariantRecords {
  import opened Wrappers
  import opened Text
  import opened Overrides
  import opened OverridesProperties
  import opened Store
  import opened Updates
  import opened OperationNames

  /** The variants recorded for b. */
  function Known(variants: VariantMap, b: string): seq<Variant> {
    if b in variants then variants[b] else []
  }

  predicate IsSmall(c: char) {
    'a' <= c <= 'z'
  }

  /** At i stands a small letter or a digit. */
  predicate NameAt(s: string, i: nat) {
    i < |s| && (IsSmall(s[i]) || '0' <= s[i] <= '9')
  }

  /** The name is that of a variant of the text before i. */
  predicate SplitsAt(name: string, i: int) {
    0 < i < |name| && name[i] == ':'
  }

  lemma OverrideIs(name: string, i: nat)
    requires i < |name|
    ensures OverrideAt(name, i) == name[i + 1..]
  {
  }

  /** The last colon before p, or -1. */
  function ColonBefore(name: string, p: nat): (i: int)
    requires p <= |name|
    ensures -1 <= i < p && (i >= 0 ==> name[i] == ':') && forall j | i < j < p :: name[j] != ':'
  {
    if p == 0 then -1 else if name[p - 1] == ':' then p - 1 else ColonBefore(name, p - 1)
  }

  lemma ColonFound(name: string, p: nat)
    requires p <= |name|
    ensures RFind(name[..p], ':') == ColonBefore(name, p)
  {
    assert forall j | 0 <= j < p :: name[..p][j] == name[j];
  }

  // ---------------------------------------------------------------- recording

  function AddNew(known: seq<Variant>, v: Variant): seq<Variant> {
    if v in known then known else known + [v]
  }

  /** Behind every colon from q to p stands a small letter or a digit. */
  ghost predicate NamesFrom(name: string, q: nat, p: nat)
    requires p < |name|
  {
    forall j | q <= j <= p && name[j] == ':' :: NameAt(name, j + 1)
  }

  lemma NamesStep(name: string, q: nat, p: nat, i: nat)
    requires q <= i < p < |name| && name[p] == ':' && forall j | i < j < p :: name[j] != ':'
    ensures NamesFrom(name, q, p) <==> NameAt(name, p + 1) && NamesFrom(name, q, i)
  {
  }

  /** Recording, by the positions of the colons. */
  function RecordDown(variants: VariantMap, name: string, p: nat): VariantMap
    requires SplitsAt(name, p)
    decreases p
  {
    if !NameAt(name, p + 1) then variants
    else
      var added, i := AddVariant(variants, name[..p], Variant(name, name[p + 1..])), ColonBefore(name, p);
      if i > 0 then RecordDown(added, name, i) else added
  }

  lemma RecordFromStep(variants: VariantMap, name: string, p: nat)
    requires SplitsAt(name, p)
    ensures var i := ColonBefore(name, p);
            RecordFrom(variants, name, name[p + 1..], name[..p]) ==
            if !NameAt(name, p + 1) then variants
            else
              var added := AddVariant(variants, name[..p], Variant(name, name[p + 1..]));
              if i > 0 then RecordFrom(added, name, name[i + 1..], name[..i]) else added
  {
    var i := ColonBefore(name, p);
    ColonFound(name, p);
    assert StartsName(name[p + 1..]) <==> NameAt(name, p + 1);
    if i > 0 {
      OverrideIs(name, i);
      assert name[..p][..i] == name[..i];
    }
  }

  lemma {:induction false} RecordFromIsDown(variants: VariantMap, name: string, p: nat)
    requires SplitsAt(name, p)
    ensures RecordFrom(variants, name, name[p + 1..], name[..p]) == RecordDown(variants, name, p)
    decreases p
  {
    RecordFromStep(variants, name, p);
    var i := ColonBefore(name, p);
    if i > 0 {
      RecordFromIsDown(AddVariant(variants, name[..p], Variant(name, name[p + 1..])), name, i);
    }
  }

  lemma AddedElsewhere(variants: VariantMap, base: string, v: Variant, k: string)
    ensures Known(AddVariant(variants, base, v), k) ==
            if k == base then AddNew(Known(variants, base), v) else Known(variants, k)
  {
  }

  lemma {:induction false} RecordDownAt(variants: VariantMap, name: string, p: nat, q: nat)
    requires SplitsAt(name, p) && SplitsAt(name, q) && q <= p
    ensures Known(RecordDown(variants, name, p), name[..q]) ==
            if NamesFrom(name, q, p) then AddNew(Known(variants, name[..q]), Variant(name, name[q + 1..]))
            else Known(variants, name[..q])
    decreases p
  {
    if NameAt(name, p + 1) {
      var v, i := Variant(name, name[p + 1..]), ColonBefore(name, p);
      var added := AddVariant(variants, name[..p], v);
      assert |name[..q]| == q && |name[..p]| == p;
      AddedElsewhere(variants, name[..p], v, name[..q]);
      if q < p {
        NamesStep(name, q, p, i);
        RecordDownAt(added, name, i, q);
      } else if i > 0 {
        RecordDownElsewhere(added, name, i, name[..p]);
      }
    }
  }

  lemma {:induction false} RecordDownElsewhere(variants: VariantMap, name: string, p: nat, k: string)
    requires SplitsAt(name, p) && forall q | SplitsAt(name, q) && q <= p :: k != name[..q]
    ensures Known(RecordDown(variants, name, p), k) == Known(variants, k)
    decreases p
  {
    var v, i := Variant(name, name[p + 1..]), ColonBefore(name, p);
    AddedElsewhere(variants, name[..p], v, k);
    if i > 0 {
      RecordDownElsewhere(AddVariant(variants, name[..p], v), name, i, k);
    }
  }

  /** The last colon of a name that is not at its start. */
  lemma LastColonOf(name: string) returns (p: nat)
    requires exists q :: SplitsAt(name, q)
    ensures SplitsAt(name, p) && RFind(name, ':') == p && forall j | p < j < |name| :: name[j] != ':'
  {
    var q :| SplitsAt(name, q);
    p := RFind(name, ':');
  }

  lemma RecordIsDown(variants: VariantMap, name: string, p: nat)
    requires SplitsAt(name, p) && RFind(name, ':') == p
    ensures Record(variants, name) == RecordDown(variants, name, p)
  {
    OverrideIs(name, p);
    RecordFromIsDown(variants, name, p);
  }

  lemma NamesToEnd(name: string, q: nat, p: nat)
    requires q <= p < |name| && forall j | p < j < |name| :: name[j] != ':'
    ensures NamesFrom(name, q, |name| - 1) <==> NamesFrom(name, q, p)
  {
  }

  /** A name is recorded, once, for the text before a colon in it exactly if behind this colon and all later
      ones stands a small letter or a digit; and for nothing else. */
  lemma RecordedFor(variants: VariantMap, name: string, q: nat)
    requires SplitsAt(name, q)
    ensures Known(Record(variants, name), name[..q]) ==
            if NamesFrom(name, q, |name| - 1) then AddNew(Known(variants, name[..q]), Variant(name, name[q + 1..]))
            else Known(variants, name[..q])
    ensures forall k | (forall i | SplitsAt(name, i) :: k != name[..i]) ::
              Known(Record(variants, name), k) == Known(variants, k)
  {
    var p := LastColonOf(name);
    RecordIsDown(variants, name, p);
    RecordDownAt(variants, name, p, q);
    NamesToEnd(name, q, p);
    forall k | (forall i | SplitsAt(name, i) :: k != name[..i])
      ensures Known(Record(variants, name), k) == Known(variants, k)
    {
      RecordDownElsewhere(variants, name, p, k);
    }
  }

  // ---------------------------------------------------------------- forgetting

  ghost predicate HasSmall(s: string) {
    exists c | c in s :: IsSmall(c)
  }

  lemma LowerIs(s: string)
    ensures IsLower(s) <==> HasSmall(s) && NoCapitals(s)
  {
  }

  /** What holds of text holds of its end, and where the end has a small letter the text has one. */
  lemma EndOf(name: string, q: nat, p: nat)
    requires q <= p < |name|
    ensures NoCapitals(name[q + 1..]) ==> NoCapitals(name[p + 1..])
    ensures HasSmall(name[p + 1..]) ==> HasSmall(name[q + 1..])
  {
    var long, short := name[q + 1..], name[p + 1..];
    assert short == long[p - q..];
    forall c | c in short ensures c in long {
    }
  }

  /** Forgetting, by the positions of the colons. */
  function ForgetDown(variants: VariantMap, name: string, p: nat): VariantMap
    requires SplitsAt(name, p)
    decreases p
  {
    if !IsLower(name[p + 1..]) then variants
    else
      var dropped, i := DropVariant(variants, name[..p], Variant(name, name[p + 1..])), ColonBefore(name, p);
      if i > 0 then ForgetDown(dropped, name, i) else dropped
  }

  lemma ForgetFromStep(variants: VariantMap, name: string, p: nat)
    requires SplitsAt(name, p)
    ensures var i := ColonBefore(name, p);
            ForgetFrom(variants, name, name[p + 1..], name[..p]) ==
            if !IsLower(name[p + 1..]) then variants
            else
              var dropped := DropVariant(variants, name[..p], Variant(name, name[p + 1..]));
              if i > 0 then ForgetFrom(dropped, name, name[i + 1..], name[..i]) else dropped
  {
    var i := ColonBefore(name, p);
    ColonFound(name, p);
    if i > 0 {
      OverrideIs(name, i);
      assert name[..p][..i] == name[..i];
    }
  }

  lemma {:induction false} ForgetFromIsDown(variants: VariantMap, name: string, p: nat)
    requires SplitsAt(name, p)
    ensures ForgetFrom(variants, name, name[p + 1..], name[..p]) == ForgetDown(variants, name, p)
    decreases p
  {
    ForgetFromStep(variants, name, p);
    var i := ColonBefore(name, p);
    if i > 0 {
      ForgetFromIsDown(DropVariant(variants, name[..p], Variant(name, name[p + 1..])), name, i);
    }
  }

  lemma DroppedElsewhere(variants: VariantMap, base: string, v: Variant, k: string)
    ensures Known(DropVariant(variants, base, v), k) ==
            if k == base then WithoutVariant(Known(variants, base), v) else Known(variants, k)
  {
  }

  lemma {:induction false} ForgetDownAt(variants: VariantMap, name: string, p: nat, q: nat)
    requires SplitsAt(name, p) && SplitsAt(name, q) && q <= p
    ensures Known(ForgetDown(variants, name, p), name[..q]) ==
            if NoCapitals(name[q + 1..]) && HasSmall(name[p + 1..])
            then WithoutVariant(Known(variants, name[..q]), Variant(name, name[q + 1..]))
            else Known(variants, name[..q])
    decreases p
  {
    LowerIs(name[p + 1..]);
    EndOf(name, q, p);
    if IsLower(name[p + 1..]) {
      var v, i := Variant(name, name[p + 1..]), ColonBefore(name, p);
      var dropped := DropVariant(variants, name[..p], v);
      assert |name[..q]| == q && |name[..p]| == p;
      DroppedElsewhere(variants, name[..p], v, name[..q]);
      if q < p {
        EndOf(name, i, p);
        ForgetDownAt(dropped, name, i, q);
      } else if i > 0 {
        ForgetDownElsewhere(dropped, name, i, name[..p]);
      }
    }
  }

  lemma {:induction false} ForgetDownElsewhere(variants: VariantMap, name: string, p: nat, k: string)
    requires SplitsAt(name, p) && forall q | SplitsAt(name, q) && q <= p :: k != name[..q]
    ensures Known(ForgetDown(variants, name, p), k) == Known(variants, k)
    decreases p
  {
    var v, i := Variant(name, name[p + 1..]), ColonBefore(name, p);
    DroppedElsewhere(variants, name[..p], v, k);
    if i > 0 {
      ForgetDownElsewhere(DropVariant(variants, name[..p], v), name, i, k);
    }
  }

  lemma ForgetIsDown(variants: VariantMap, name: string, p: nat)
    requires SplitsAt(name, p) && RFind(name, ':') == p
    ensures Forget(variants, name) == ForgetDown(variants, name, p)
  {
    OverrideIs(name, p);
    ForgetFromIsDown(variants, name, p);
  }

  /** A name is forgotten for the text before a colon in it exactly if behind this colon stands no capital,
      and behind the last one a small letter; and for nothing else. */
  lemma ForgottenFor(variants: VariantMap, name: string, q: nat)
    requires SplitsAt(name, q)
    ensures Known(Forget(variants, name), name[..q]) ==
            if NoCapitals(name[q + 1..]) && HasSmall(name[RFind(name, ':') + 1..])
            then WithoutVariant(Known(variants, name[..q]), Variant(name, name[q + 1..]))
            else Known(variants, name[..q])
    ensures forall k | (forall i | SplitsAt(name, i) :: k != name[..i]) ::
              Known(Forget(variants, name), k) == Known(variants, k)
  {
    var p := LastColonOf(name);
    ForgetIsDown(variants, name, p);
    ForgetDownAt(variants, name, p, q);
    forall k | (forall i | SplitsAt(name, i) :: k != name[..i])
      ensures Known(Forget(variants, name), k) == Known(variants, k)
    {
      ForgetDownElsewhere(variants, name, p, k);
    }
  }

  /** Without the variants of this name, the others in their order. */
  function Besides(known: seq<Variant>, name: string): seq<Variant> {
    if known == [] then []
    else (if known[0].name == name then [] else [known[0]]) + Besides(known[1..], name)
  }

  lemma {:induction false} BesidesNone(known: seq<Variant>, name: string)
    requires forall w | w in known :: w.name != name
    ensures Besides(known, name) == known
  {
    if known != [] {
      assert forall w | w in known[1..] :: w in known;
      BesidesNone(known[1..], name);
    }
  }

  lemma {:induction false} BesidesAre(known: seq<Variant>, name: string, v: Variant)
    ensures v in Besides(known, name) <==> v in known && v.name != name
  {
    if known != [] {
      BesidesAre(known[1..], name, v);
      assert known == [known[0]] + known[1..];
    }
  }

  /** The name stands in the list with this suffix only, and once at the most. */
  ghost predicate OnceAs(known: seq<Variant>, v: Variant) {
    && (forall w | w in known && w.name == v.name :: w == v)
    && forall i, j | 0 <= i < j < |known| :: known[i] == known[j] ==> known[i] != v
  }

  lemma {:induction false} WithoutIsBesides(known: seq<Variant>, v: Variant)
    requires OnceAs(known, v)
    ensures WithoutVariant(known, v) == Besides(known, v.name)
  {
    if known != [] {
      var rest := known[1..];
      assert forall w | w in rest :: w in known;
      assert forall i | 0 <= i < |rest| :: rest[i] == known[i + 1];
      if known[0] == v {
        forall w | w in rest ensures w.name != v.name {
          var i :| 0 <= i < |rest| && rest[i] == w;
          assert known[i + 1] == w;
        }
        BesidesNone(rest, v.name);
        assert [] + rest == rest;
      } else {
        WithoutIsBesides(rest, v);
      }
    }
  }

  /** k is the text before a colon in the name. */
  predicate IsBase(name: string, k: string) {
    SplitsAt(name, |k|) && k == name[..|k|]
  }

  /** The name is recorded as an assignment records it, if at all: for the text before a colon, once. */
  ghost predicate RecordedRight(variants: VariantMap, name: string) {
    forall k | k in variants ::
      if IsBase(name, k) then OnceAs(variants[k], Variant(name, name[|k| + 1..]))
      else forall w | w in variants[k] :: w.name != name
  }

  /** Where the overrides of a name start, and that they can be forgotten: behind its first colon stands no
      capital, and behind the last one a small letter. */
  ghost predicate Forgettable(name: string, first: nat) {
    && SplitsAt(name, first) && (forall j | 0 <= j < first :: name[j] != ':')
    && NoCapitals(name[first + 1..]) && HasSmall(name[RFind(name, ':') + 1..])
  }

  lemma ForgottenBefore(variants: VariantMap, name: string, first: nat, q: nat)
    requires Forgettable(name, first) && SplitsAt(name, q)
    ensures Known(Forget(variants, name), name[..q]) ==
            WithoutVariant(Known(variants, name[..q]), Variant(name, name[q + 1..]))
  {
    ForgottenFor(variants, name, q);
    EndOf(name, first, q);
  }

  lemma ForgottenAt(variants: VariantMap, name: string, first: nat, k: string)
    requires Forgettable(name, first) && IsBase(name, k)
    ensures |k| < |name| && Known(Forget(variants, name), k) ==
                            WithoutVariant(Known(variants, k), Variant(name, name[|k| + 1..]))
  {
    ForgottenBefore(variants, name, first, |k|);
  }

  lemma ForgottenElsewhere(variants: VariantMap, name: string, first: nat, k: string)
    requires Forgettable(name, first) && !IsBase(name, k)
    ensures Known(Forget(variants, name), k) == Known(variants, k)
  {
    ForgottenFor(variants, name, first);
  }

  lemma RecordedElsewhere(variants: VariantMap, name: string, first: nat, k: string)
    requires Forgettable(name, first) && !IsBase(name, k)
    ensures Known(Record(variants, name), k) == Known(variants, k)
  {
    RecordedFor(variants, name, first);
  }

  lemma RecordedAt(variants: VariantMap, name: string, k: string)
    requires IsBase(name, k)
    ensures |k| < |name|
    ensures var v := Variant(name, name[|k| + 1..]);
            || Known(Record(variants, name), k) == Known(variants, k)
            || Known(Record(variants, name), k) == AddNew(Known(variants, k), v)
  {
    RecordedFor(variants, name, |k|);
  }

  /** Deleting such a variable takes it out of every list of variants, and leaves the others in their order. */
  lemma DeletedIsForgotten(m: View, name: string, first: nat, k: string)
    requires Forgettable(name, first) && RecordedRight(m.variants, name) && k != name
    ensures Known(Deleted(m, name).variants, k) == Besides(Known(m.variants, k), name)
    ensures forall w | w in Known(Deleted(m, name).variants, k) :: w.name != name
  {
    var rest, known := m.variants - {name}, Known(m.variants, k);
    assert Known(rest, k) == known;
    if IsBase(name, k) {
      ForgottenAt(rest, name, first, k);
      WithoutIsBesides(known, Variant(name, name[|k| + 1..]));
    } else {
      ForgottenElsewhere(rest, name, first, k);
      BesidesNone(known, name);
    }
    forall w | w in Besides(known, name) ensures w.name != name {
      BesidesAre(known, name, w);
    }
  }

  // ---------------------------------------------------------------- assigning and deleting

  /** What is read depends on the entries and the variants chosen only. */
  ghost predicate SameStore(m: View, m': View, ov: seq<string>) {
    forall k :: EntryOf(m', k) == EntryOf(m, k) && Chosen(m', ov, k) == Chosen(m, ov, k)
  }

  lemma {:induction false} SamePass(m: View, m': View, ov: seq<string>, n: nat, self: Option<string>, v: Value)
    requires SameStore(m, m', ov)
    ensures Pass(m', ov, n, self, v) == Pass(m, ov, n, self, v)
    decreases n, 1, |v|
  {
    if v != [] {
      SamePass(m, m', ov, n, self, v[..|v| - 1]);
      if v[|v| - 1].Ref? {
        SameEval(m, m', ov, n, v[|v| - 1].name, true);
      }
    }
  }

  lemma {:induction false} SameExpand(m: View, m': View, ov: seq<string>, n: nat, self: Option<string>, v: Value)
    requires SameStore(m, m', ov)
    ensures Expand(m', ov, n, self, v) == Expand(m, ov, n, self, v)
    decreases n, 2, 0
  {
    SamePass(m, m', ov, n, self, v);
    var p := Pass(m, ov, n, self, v);
    if p.Some? {
      SamePass(m, m', ov, n, self, p.value);
    }
  }

  lemma {:induction false} SameRemoved(m: View, m': View, ov: seq<string>, n: nat, raw: Value, x: Expansion,
                                       removes: set<Value>)
    requires SameStore(m, m', ov)
    ensures Removed(m', ov, n, raw, x, removes) == Removed(m, ov, n, raw, x, removes)
    decreases n, 3, 0
  {
    forall r | r in removes ensures Expand(m', ov, n, None, r) == Expand(m, ov, n, None, r) {
      SameExpand(m, m', ov, n, None, r);
    }
    if removes != {} && forall r | r in removes :: Expand(m, ov, n, None, r).Some? {
      var words := map r | r in removes :: Words(Expand(m, ov, n, None, r).value.value);
      assert words == map r | r in removes :: Words(Expand(m', ov, n, None, r).value.value);
    }
  }

  lemma {:induction false} SameEval(m: View, m': View, ov: seq<string>, n: nat, k: string, exp: bool)
    requires SameStore(m, m', ov)
    ensures Eval(m', ov, n, k, exp) == Eval(m, ov, n, k, exp)
    decreases n, 0, 0
  {
    if n > 0 {
      var chosen := Chosen(m, ov, k);
      if chosen.Some? {
        SameEval(m, m', ov, n - 1, chosen.value, false);
      }
      var sub := EvalChosen(m, ov, n - 1, k);
      assert EvalChosen(m', ov, n - 1, k) == sub;
      if sub.Some? {
        SameFinish(m, m', ov, n - 1, k, exp, sub.value);
      }
    }
  }

  lemma {:induction false} SameFinish(m: View, m': View, ov: seq<string>, n: nat, k: string, exp: bool, sub: Read)
    requires SameStore(m, m', ov)
    ensures Finish(m', ov, n, k, exp, sub) == Finish(m, ov, n, k, exp, sub)
    decreases n, 4, 0
  {
    var raw := Assemble(m, ov, k, sub);
    assert Assemble(m', ov, k, sub) == raw;
    if raw.Some? {
      SameExpand(m, m', ov, n, Some(k), raw.value);
      var x := Expand(m, ov, n, Some(k), raw.value);
      if x.Some? {
        var removes := ToRemove(m, ov, k, sub, if exp then x.value.value else raw.value);
        SameRemoved(m, m', ov, n, raw.value, x.value, removes);
      }
    }
  }

  /** Nothing is known of the name. */
  ghost predicate IsNew(m: View, name: string) {
    && EntryOf(m, name) == NO_ENTRY && name !in m.variants
    && forall k, w | k in m.variants && w in m.variants[k] :: w.name != name
  }

  lemma {:induction false} WithoutLast(known: seq<Variant>, v: Variant)
    requires v !in known
    ensures WithoutVariant(known + [v], v) == known && WithoutVariant(known, v) == known
  {
    if known == [] {
      assert known + [v] == [v];
    } else {
      WithoutLast(known[1..], v);
      assert (known + [v])[1..] == known[1..] + [v];
    }
  }

  lemma RecordedAndForgotten(variants: VariantMap, name: string, first: nat, k: string)
    requires Forgettable(name, first) && forall w | w in Known(variants, k) :: w.name != name
    ensures Known(Forget(Record(variants, name), name), k) == Known(variants, k)
  {
    if IsBase(name, k) {
      RecordedAt(variants, name, k);
      ForgottenAt(Record(variants, name), name, first, k);
      WithoutLast(Known(variants, k), Variant(name, name[|k| + 1..]));
    } else {
      RecordedElsewhere(variants, name, first, k);
      ForgottenElsewhere(Record(variants, name), name, first, k);
    }
  }

  /** Assigning a new variant and deleting it again changes nothing that is read, under any list. */
  lemma AssignThenDelete(m: View, name: string, first: nat, x: Value, parsing: bool, active: seq<string>)
    requires Forgettable(name, first) && IsNew(m, name) && NoKeyword(name)
    ensures var m' := Deleted(AfterSetVar(m, name, x, parsing, active), name);
            forall ov, n: nat, k, exp :: Eval(m', ov, n, k, exp) == Eval(m, ov, n, k, exp)
  {
    OrdinaryName(name);
    var given := AfterSetVar(m, name, x, parsing, active);
    var m' := Deleted(given, name);
    assert given.variants == Record(m.variants, name) && ':' in name;
    NotItsOwnVariant(m.variants, name, first);
    assert given.variants - {name} == given.variants;
    forall k ensures Known(m'.variants, k) == Known(m.variants, k) && EntryOf(m', k) == EntryOf(m, k) {
      RecordedAndForgotten(m.variants, name, first, k);
    }
    forall ov ensures SameStore(m, m', ov) {
      SameChoices(m, m', ov);
    }
    forall ov, n: nat, k, exp ensures Eval(m', ov, n, k, exp) == Eval(m, ov, n, k, exp) {
      SameEval(m, m', ov, n, k, exp);
    }
  }

  lemma SameChoices(m: View, m': View, ov: seq<string>)
    requires forall k :: Known(m'.variants, k) == Known(m.variants, k)
    ensures forall k :: Chosen(m', ov, k) == Chosen(m, ov, k)
  {
    PickOfNone(ov);
    forall k ensures Chosen(m', ov, k) == Chosen(m, ov, k) {
      assert Known(m'.variants, k) == Known(m.variants, k);
    }
  }

  lemma PickOfNone(ov: seq<string>)
    ensures Pick([], ov).None?
  {
    NothingToVisit(ov);
    CollectFacts([], ov);
  }

  lemma NotItsOwnVariant(variants: VariantMap, name: string, first: nat)
    requires SplitsAt(name, first) && name !in variants
    ensures name !in Record(variants, name)
  {
    var p := LastColonOf(name);
    RecordFromAbove(variants, name, OverrideAt(name, p), BaseAt(name, p), name);
  }

  /** What is recorded and then deleted stays recorded exactly if deleting does not take it for an override:
      one with a capital in it, or with no small letter behind the last colon. */
  lemma StaysRecordedIff(variants: VariantMap, name: string, q: nat)
    requires SplitsAt(name, q) && forall w | w in Known(variants, name[..q]) :: w.name != name
    ensures Variant(name, name[q + 1..]) in Known(Forget(Record(variants, name), name), name[..q]) <==>
            && NamesFrom(name, q, |name| - 1)
            && !(NoCapitals(name[q + 1..]) && HasSmall(name[RFind(name, ':') + 1..]))
  {
    var known, v := Known(variants, name[..q]), Variant(name, name[q + 1..]);
    RecordedFor(variants, name, q);
    ForgottenFor(Record(variants, name), name, q);
    WithoutLast(known, v);
  }

  // ---------------------------------------------------------------- what an assignment records is chosen

  lemma VariantParts(v: string, s: string)
    ensures var name := v + ":" + s; name[..|v|] == v && name[|v| + 1..] == s && name[|v|] == ':'
  {
  }

  lemma RecordedAlone(variants: VariantMap, v: string, s: string)
    requires v != "" && ':' !in v && v !in variants && Recorded(s)
    ensures var name := v + ":" + s; Known(Record(variants, name), v) == [Variant(name, s)]
  {
    var name := v + ":" + s;
    VariantParts(v, s);
    RecordedBegins(s, name, |v|);
    RecordedFor(variants, name, |v|);
    assert [] + [Variant(name, s)] == [Variant(name, s)];
  }

  /** A new variant `V:s` of a variable without variants is what V reads where its components are active, and
      is not where some are not. */
  lemma AssignedIsChosen(m: View, v: string, s: string, x: Value, parsing: bool, active: seq<string>, ov: seq<string>)
    requires v != "" && ':' !in v && v !in m.variants && Recorded(s) && NoKeyword(v + ":" + s)
    requires (v + ":" + s) !in m.variants && ColonFree(ov) && PrefixFree(ov)
    ensures var m' := AfterSetVar(m, v + ":" + s, x, parsing, active);
            Chosen(m', ov, v) == if IsActive(s, ov) then Some(v + ":" + s) else None
  {
    var name := v + ":" + s;
    OrdinaryName(name);
    assert name[|v|] == ':';
    var m' := AfterSetVar(m, name, x, parsing, active);
    assert m'.variants == Record(m.variants, name);
    RecordedAlone(m.variants, v, s);
    OneIsChosen(Variant(name, s), ov);
  }

  /** So is a new one that only has an operation queued. */
  lemma QueuedIsChosen(m: View, v: string, s: string, w: Keyword, cond: Option<string>, x: Value, parsing: bool,
                       active: seq<string>, ov: seq<string>)
    requires v != "" && ':' !in v && v !in m.variants && Recorded(s) && NoKeyword(v + ":" + s)
    requires (v + ":" + s) !in m.variants && ColonFree(ov) && PrefixFree(ov)
    requires cond.Some? ==> NoCapitals(cond.value)
    ensures var m' := AfterSetVar(m, v + ":" + s + KeywordText(w) + Behind(cond), x, parsing, active);
            Chosen(m', ov, v) == if IsActive(s, ov) then Some(v + ":" + s) else None
  {
    var name := v + ":" + s;
    OperationIsFound(name, cond);
    RecordedAlone(m.variants, v, s);
    OneIsChosen(Variant(name, s), ov);
  }

  lemma OneIsChosen(v: Variant, ov: seq<string>)
    requires ColonFree(ov) && PrefixFree(ov) && Recorded(v.suffix)
    ensures Pick([v], ov) == if IsActive(v.suffix, ov) then Some(v.name) else None
  {
    if IsActive(v.suffix, ov) {
      assert v in [v];
      PickSelectsWhenPrefixFree([v], ov);
      PickIsActive([v], ov);
    } else {
      OneInactive(v, ov);
    }
  }

  lemma NoMoreNames(p: string, name: string, q: nat)
    requires IsName(p) && q < |name| && name[q] == ':' && name[q + 1..] == p
    ensures NamesFrom(name, q, |name| - 1)
  {
    assert forall j | 0 <= j < |p| :: name[q + 1 + j] == p[j];
  }

  lemma OneMoreName(p: string, rest: string, name: string, q: nat)
    requires IsName(p) && q < |name| && name[q] == ':' && name[q + 1..] == p + ":" + rest
    requires NamesFrom(name, q + 1 + |p|, |name| - 1)
    ensures NamesFrom(name, q, |name| - 1)
  {
    assert forall j | 0 <= j < |p| :: name[q + 1 + j] == p[j];
  }

  lemma {:induction false} RecordedBegins(s: string, name: string, q: nat)
    requires Recorded(s) && q < |name| && name[q] == ':' && name[q + 1..] == s
    ensures NamesFrom(name, q, |name| - 1)
    decreases |s|
  {
    var parts := Split(s, ':');
    JoinSplit(s, ':');
    var p := parts[0];
    assert p in parts && s == p + Tail(parts[1..], ':');
    if |parts| == 1 {
      assert s == p;
      NoMoreNames(p, name, q);
    } else {
      var rest := Join(parts[1..], ':');
      assert s == p + ":" + rest;
      assert forall x | x in parts[1..] :: x in parts;
      SplitJoin(parts[1..], ':');
      assert name[q + 1 + |p|..] == s[|p|..];
      RecordedBegins(rest, name, q + 1 + |p|);
      OneMoreName(p, rest, name, q);
    }
  }
}
