/** Variables whose values cannot depend on the override list: no variants, no
    queued operations, and references only to variables of the same kind. */
module Steady {
  import opened Wrappers
  import opened Store

  function EntryRefs(e: Entry): set<string> {
    Refs(OrEmpty(e.content)) + Refs(OrEmpty(e.weak))
  }

  ghost predicate PlainAt(m: View, k: string, names: set<string>) {
    var e := EntryOf(m, k);
    k !in m.variants && e.appends == [] && e.prepends == [] && e.removes == [] && EntryRefs(e) <= names
  }

  ghost predicate Plain(m: View, names: set<string>) {
    forall k | k in names :: PlainAt(m, k, names)
  }

  /** The two stores differ in nothing that a value of these names is made of. */
  ghost predicate Agree(m: View, m': View, names: set<string>) {
    forall k | k in names :: Valued(EntryOf(m, k)) == Valued(EntryOf(m', k))
  }

  /** An entry without the flags that play no part in its value. */
  function Valued(e: Entry): Entry {
    e.(flags := map[])
  }

  lemma {:induction false} PlainPass(m: View, m': View, overrides: seq<string>, overrides': seq<string>,
                                     n: nat, self: Option<string>, v: Value, names: set<string>)
    requires Plain(m, names) && Plain(m', names) && Agree(m, m', names) && Refs(v) <= names
    ensures var p := Pass(m, overrides, n, self, v);
            p == Pass(m', overrides', n, self, v) && (p.Some? ==> Refs(p.value) <= names)
    decreases n, 1, |v|
  {
    if v != [] {
      var init, t := v[..|v| - 1], v[|v| - 1];
      RefsStep(v);
      PlainPass(m, m', overrides, overrides', n, self, init, names);
      var p := Pass(m, overrides, n, self, init);
      if p.Some? {
        match t
        case Ch(_) => RefsAppend(p.value, [t]);
        case Ref(x) =>
          PlainEval(m, m', overrides, overrides', n, x, true, names);
          var g := Eval(m, overrides, n, x, true);
          if g.Some? {
            RefsAppend(p.value, Substitute(x, g.value));
          }
      }
    }
  }

  lemma {:induction false} PlainExpand(m: View, m': View, overrides: seq<string>, overrides': seq<string>,
                                       n: nat, self: Option<string>, v: Value, names: set<string>)
    requires Plain(m, names) && Plain(m', names) && Agree(m, m', names) && Refs(v) <= names
    ensures var e := Expand(m, overrides, n, self, v);
            e == Expand(m', overrides', n, self, v)
            && (e.Some? ==> Refs(e.value.value) <= names && e.value.refs <= names)
    decreases n, 2, 0
  {
    PlainPass(m, m', overrides, overrides', n, self, v, names);
    var p := Pass(m, overrides, n, self, v);
    if p.Some? {
      PlainPass(m, m', overrides, overrides', n, self, p.value, names);
    }
  }

  /** The override list plays no part in reading such a variable, and neither does the rest of the store. */
  lemma {:induction false} PlainEval(m: View, m': View, overrides: seq<string>, overrides': seq<string>,
                                     n: nat, k: string, exp: bool, names: set<string>)
    requires Plain(m, names) && Plain(m', names) && Agree(m, m', names) && k in names
    ensures var r := Eval(m, overrides, n, k, exp);
            r == Eval(m', overrides', n, k, exp)
            && (r.Some? ==> r.value.parser.references <= names)
            && (r.Some? && r.value.parser.value.Some? ==> Refs(r.value.parser.value.value) <= names)
    decreases n, 0, 0
  {
    if n > 0 {
      assert PlainAt(m, k, names) && PlainAt(m', k, names);
      assert Valued(EntryOf(m, k)) == Valued(EntryOf(m', k));
      var raw := Base(EntryOf(m, k));
      assert Assemble(m, overrides, k, UNDEFINED) == raw == Assemble(m', overrides', k, UNDEFINED);
      assert EvalChosen(m, overrides, n - 1, k) == Some(UNDEFINED) == EvalChosen(m', overrides', n - 1, k);
      if raw.Some? {
        PlainExpand(m, m', overrides, overrides', n - 1, Some(k), raw.value, names);
        var x := Expand(m, overrides, n - 1, Some(k), raw.value);
        if x.Some? {
          var tested := if exp then x.value.value else raw.value;
          assert ToRemove(m, overrides, k, UNDEFINED, tested) == {} == ToRemove(m', overrides', k, UNDEFINED, tested);
          var r := Read(raw, Parser(Some(x.value.value), x.value.refs, {}));
          assert Removed(m, overrides, n - 1, raw.value, x.value, {}) == Some(r);
          assert Removed(m', overrides', n - 1, raw.value, x.value, {}) == Some(r);
        }
      }
    }
  }

  lemma PlainReads(m: View, m': View, overrides: seq<string>, overrides': seq<string>,
                   k: string, exp: bool, r: Read, names: set<string>)
    requires Plain(m, names) && Plain(m', names) && Agree(m, m', names) && k in names
    requires Reads(m, overrides, k, exp, r)
    ensures Reads(m', overrides', k, exp, r)
    ensures r.parser.references <= names
    ensures r.parser.value.Some? ==> Refs(r.parser.value.value) <= names
  {
    var n: nat :| Eval(m, overrides, n, k, exp) == Some(r);
    PlainEval(m, m', overrides, overrides', n, k, exp, names);
  }
}
