/** What queueing an operation on a variable does to reading it. */
module QueuedReads {
  import opened Wrappers
  import opened Text
  import opened Store
  import opened Updates
  import opened ReadGraph
  import opened OperationNames
  import opened Removals

  // ---------------------------------------------------------------- conditions

  /** Names that may follow a keyword, each behind a colon. */
  predicate AreNames(parts: seq<string>) {
    forall p | p in parts :: p != "" && ':' !in p && NoCapitals(p)
  }

  ghost predicate AllIn(parts: seq<string>, ov: seq<string>) {
    forall p | p in parts :: p in ov
  }

  /** The condition that is made of the names: none, or the names between colons. */
  function CondOf(parts: seq<string>): Option<string> {
    if parts == [] then None else Some(Join(parts, ':'))
  }

  /** A condition holds exactly when every name in it is in the list. */
  lemma AppliesIff(parts: seq<string>, ov: seq<string>)
    requires AreNames(parts)
    ensures Applies(CondOf(parts), ov) <==> AllIn(parts, ov)
  {
    if parts != [] {
      SplitJoin(parts, ':');
      assert parts[0] in parts;
    }
  }

  lemma {:induction false} TailHasNoCapitals(parts: seq<string>)
    requires AreNames(parts)
    ensures NoCapitals(Tail(parts, ':'))
  {
    if parts != [] {
      assert forall p | p in parts[1..] :: p in parts;
      TailHasNoCapitals(parts[1..]);
      assert NoCapitals(parts[0]);
    }
  }

  lemma TailIsBehind(parts: seq<string>)
    requires AreNames(parts)
    ensures Tail(parts, ':') == Behind(CondOf(parts)) && (parts != [] ==> NoCapitals(Join(parts, ':')))
  {
    if parts != [] {
      TailHasNoCapitals(parts);
      var t := Tail(parts, ':');
      assert t == ":" + Join(parts, ':');
      assert forall c | c in Join(parts, ':') :: c in t;
    }
  }

  /** The name of an operation on base under a condition of these names. */
  lemma OperationTargets(base: string, parts: seq<string>)
    requires NoKeyword(base) && AreNames(parts)
    ensures FindKeyword(base + ":append" + Tail(parts, ':'), 0) == Some(Target(base, Append, CondOf(parts)))
    ensures FindKeyword(base + ":prepend" + Tail(parts, ':'), 0) == Some(Target(base, Prepend, CondOf(parts)))
    ensures FindKeyword(base + ":remove" + Tail(parts, ':'), 0) == Some(Target(base, Remove, CondOf(parts)))
  {
    TailIsBehind(parts);
    OperationIsFound(base, CondOf(parts));
  }

  // ---------------------------------------------------------------- what stays as it was

  /** From names of this length on, the stores have the same entries and choose the same variants. */
  ghost predicate SameFrom(m: View, m': View, ov: seq<string>, size: nat) {
    forall k | |k| > size :: EntryOf(m', k) == EntryOf(m, k) && Chosen(m', ov, k) == Chosen(m, ov, k)
  }

  lemma {:induction false} SameRaw(m: View, m': View, ov: seq<string>, size: nat, k: string)
    requires LongerNames(m.variants) && LongerNames(m'.variants) && SameFrom(m, m', ov, size) && |k| > size
    ensures Raw(m', ov, k) == Raw(m, ov, k)
    decreases LongerOnes(m, k)
  {
    var chosen := Chosen(m, ov, k);
    if chosen.Some? {
      ChosenIsLonger(m, ov, k);
      ChosenLonger(m, ov, k);
      SameRaw(m, m', ov, size, chosen.value);
    }
  }

  lemma ChosenLonger(m: View, ov: seq<string>, k: string)
    requires LongerNames(m.variants) && Chosen(m, ov, k).Some?
    ensures |Chosen(m, ov, k).value| > |k|
  {
    ChosenIsRecorded(m, ov, k);
    assert LongerThan(m.variants[k], k);
  }

  /** Queueing an operation on v leaves longer names alone, and the variant that v reads. */
  lemma QueueLeaves(m: View, v: string, w: Keyword, cond: Option<string>, x: Value, ov: seq<string>)
    requires LongerNames(m.variants)
    ensures var m' := AfterOp(m, Target(v, w, cond), x);
            && LongerNames(m'.variants) && SameFrom(m, m', ov, |v|)
            && EntryOf(m', v) == AddOp(EntryOf(m, v), w, Op(x, cond)) && Chosen(m', ov, v) == Chosen(m, ov, v)
            && RawOfChosen(m', ov, v) == RawOfChosen(m, ov, v)
  {
    var m' := AfterOp(m, Target(v, w, cond), x);
    RecordKeeps(m.variants, v);
    forall k | |k| >= |v| ensures Chosen(m', ov, k) == Chosen(m, ov, k) {
      RecordAbove(m.variants, v, k);
    }
    if Chosen(m, ov, v).Some? {
      ChosenLonger(m, ov, v);
      SameRaw(m, m', ov, |v|, Chosen(m, ov, v).value);
    }
  }

  /** Recording a name adds nothing to names that are as long. */
  lemma RecordAbove(variants: VariantMap, name: string, k: string)
    requires |k| >= |name|
    ensures var r := Record(variants, name);
            (k in r <==> k in variants) && (k in variants ==> r[k] == variants[k])
  {
    if name != "" {
      var i := RFind(name, ':');
      RecordFromAbove(variants, name, OverrideAt(name, i), BaseAt(name, i), k);
    }
  }

  // ---------------------------------------------------------------- additions

  lemma {:induction false} PrependedOver(v: Option<Value>, x: Value, ops: seq<Op>, ov: seq<string>)
    ensures Prepended(Some(OrEmpty(v) + x), ops, ov) == Some(OrEmpty(Prepended(v, ops, ov)) + x)
  {
    if ops != [] {
      var init, op := ops[..|ops| - 1], ops[|ops| - 1];
      PrependedOver(v, x, init, ov);
      var w := OrEmpty(Prepended(v, init, ov));
      assert op.value + (w + x) == (op.value + w) + x;
    }
  }

  lemma OneMoreAdded(v: Option<Value>, ops: seq<Op>, op: Op, ov: seq<string>)
    ensures Appended(v, ops + [op], ov) ==
            if Applies(op.cond, ov) then Some(OrEmpty(Appended(v, ops, ov)) + op.value) else Appended(v, ops, ov)
    ensures Prepended(v, ops + [op], ov) ==
            if Applies(op.cond, ov) then Some(op.value + OrEmpty(Prepended(v, ops, ov))) else Prepended(v, ops, ov)
  {
    assert (ops + [op])[..|ops + [op]| - 1] == ops;
  }

  /** The additions to a value when one more operation has been queued. */
  lemma MoreAdditions(e: Entry, w: Keyword, op: Op, start: Option<Value>, ov: seq<string>)
    ensures var e', raw := AddOp(e, w, op), Prepended(Appended(start, e.appends, ov), e.prepends, ov);
            Prepended(Appended(start, e'.appends, ov), e'.prepends, ov) ==
            if !Applies(op.cond, ov) || w == Remove then raw
            else Some(if w == Append then OrEmpty(raw) + op.value else op.value + OrEmpty(raw))
  {
    var appended := Appended(start, e.appends, ov);
    match w
    case Append =>
      OneMoreAdded(start, e.appends, op, ov);
      PrependedOver(appended, op.value, e.prepends, ov);
    case Prepend => OneMoreAdded(appended, e.prepends, op, ov);
    case Remove =>
  }

  lemma QueuedAssemble(m: View, m': View, v: string, w: Keyword, op: Op, sub: Read, ov: seq<string>)
    requires EntryOf(m', v) == AddOp(EntryOf(m, v), w, op)
    ensures var raw := Assemble(m, ov, v, sub);
            Assemble(m', ov, v, sub) ==
            if !Applies(op.cond, ov) || w == Remove then raw
            else Some(if w == Append then OrEmpty(raw) + op.value else op.value + OrEmpty(raw))
  {
    var e := EntryOf(m, v);
    MoreAdditions(e, w, op, if sub.raw.Some? then sub.raw else Base(e), ov);
    assert Base(AddOp(e, w, op)) == Base(e);
  }

  lemma QueuedRaw(m: View, m': View, v: string, w: Keyword, op: Op, ov: seq<string>)
    requires LongerNames(m.variants) && m' == AfterOp(m, Target(v, w, op.cond), op.value)
    ensures LongerNames(m'.variants)
    ensures var raw := Raw(m, ov, v);
            Raw(m', ov, v) == if !Applies(op.cond, ov) || w == Remove then raw
                              else Some(if w == Append then OrEmpty(raw) + op.value else op.value + OrEmpty(raw))
  {
    QueueLeaves(m, v, w, op.cond, op.value, ov);
    var sub := Read(RawOfChosen(m, ov, v), UNDEFINED.parser);
    RawParts(m, ov, v, sub);
    RawParts(m', ov, v, sub);
    QueuedAssemble(m, m', v, w, op, sub, ov);
  }

  /** `setVar` on `V:append`, with the condition made of the names: whatever the unexpanded value was, the
      new text stands behind it, if every name is in the list. */
  lemma AppendIsRead(m: View, v: string, parts: seq<string>, x: Value, parsing: bool, active: seq<string>,
                     ov: seq<string>)
    requires LongerNames(m.variants) && NoKeyword(v) && AreNames(parts)
    ensures var m' := AfterSetVar(m, v + ":append" + Tail(parts, ':'), x, parsing, active);
            LongerNames(m'.variants) &&
            Raw(m', ov, v) == if AllIn(parts, ov) then Some(OrEmpty(Raw(m, ov, v)) + x) else Raw(m, ov, v)
  {
    OperationTargets(v, parts);
    AppliesIff(parts, ov);
    QueuedRaw(m, AfterOp(m, Target(v, Append, CondOf(parts)), x), v, Append, Op(x, CondOf(parts)), ov);
  }

  /** On `V:prepend`, it stands before it. */
  lemma PrependIsRead(m: View, v: string, parts: seq<string>, x: Value, parsing: bool, active: seq<string>,
                      ov: seq<string>)
    requires LongerNames(m.variants) && NoKeyword(v) && AreNames(parts)
    ensures var m' := AfterSetVar(m, v + ":prepend" + Tail(parts, ':'), x, parsing, active);
            LongerNames(m'.variants) &&
            Raw(m', ov, v) == if AllIn(parts, ov) then Some(x + OrEmpty(Raw(m, ov, v))) else Raw(m, ov, v)
  {
    OperationTargets(v, parts);
    AppliesIff(parts, ov);
    QueuedRaw(m, AfterOp(m, Target(v, Prepend, CondOf(parts)), x), v, Prepend, Op(x, CondOf(parts)), ov);
  }

  // ---------------------------------------------------------------- removals

  /** On `V:remove` the unexpanded value stays; the removal applies beside the others if every name is in
      the list, and then no word of its expansion is left in what a read gives. */
  lemma RemoveIsRead(m: View, v: string, parts: seq<string>, x: Value, parsing: bool, active: seq<string>,
                     ov: seq<string>)
    requires LongerNames(m.variants) && NoKeyword(v) && AreNames(parts)
    ensures var m' := AfterSetVar(m, v + ":remove" + Tail(parts, ':'), x, parsing, active);
            && LongerNames(m'.variants) && Raw(m', ov, v) == Raw(m, ov, v)
            && (forall sub, q :: IsRemoval(m', ov, v, sub, q) <==>
                                   IsRemoval(m, ov, v, sub, q) || (AllIn(parts, ov) && q == x))
            && (AllIn(parts, ov) ==>
                  forall exp, r, u | Reads(m', ov, v, exp, r) && HasWord(m', ov, x, u) :: NoWord(r, u))
  {
    OperationTargets(v, parts);
    AppliesIff(parts, ov);
    var m', op := AfterSetVar(m, v + ":remove" + Tail(parts, ':'), x, parsing, active), Op(x, CondOf(parts));
    QueuedRaw(m, m', v, Remove, op, ov);
    QueueLeaves(m, v, Remove, op.cond, x, ov);
    forall sub, q ensures IsRemoval(m', ov, v, sub, q) <==>
                            IsRemoval(m, ov, v, sub, q) || (AllIn(parts, ov) && q == x)
    {
      RemovalAdded(m, m', ov, v, op, sub, q);
    }
    forall exp, r, u | AllIn(parts, ov) && Reads(m', ov, v, exp, r) && HasWord(m', ov, x, u) ensures NoWord(r, u) {
      if r.parser.value.Some? {
        RemovedWordIsOut(m', ov, v, exp, r, x, u);
      }
    }
  }

  /** u is no word of the value read. */
  ghost predicate NoWord(r: Read, u: Value) {
    r.parser.value.Some? ==> u !in WordList(r.parser.value.value)
  }

  lemma RemovalAdded(m: View, m': View, ov: seq<string>, v: string, op: Op, sub: Read, q: Value)
    requires EntryOf(m', v).removes == EntryOf(m, v).removes + [op]
    ensures IsRemoval(m', ov, v, sub, q) <==>
            IsRemoval(m, ov, v, sub, q) || (Applies(op.cond, ov) && q == op.value)
  {
    var ops := EntryOf(m, v).removes;
    assert forall o :: o in ops + [op] <==> o in ops || o == op;
  }

  lemma RemovedWordIsOut(m: View, ov: seq<string>, k: string, exp: bool, r: Read, q: Value, u: Value)
    requires Reads(m, ov, k, exp, r) && r.parser.value.Some?
    requires (forall sub :: IsRemoval(m, ov, k, sub, q)) && HasWord(m, ov, q, u)
    ensures u !in WordList(r.parser.value.value)
  {
    var sub, raw, x := ReadParts(m, ov, k, exp, r);
    ReadCuts(m, ov, k, exp, sub, raw, x, r);
    StayingAre(WordList(x.value), Removable(m, ov, k, sub), u);
    assert Takes(m, ov, k, sub, u);
  }
}
