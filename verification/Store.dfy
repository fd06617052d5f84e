/** The values a datastore holds and what they mean: the unexpanded value of a
    variable under an override list, and its expansion. No cache and no layers
    appear here; `DataSmart` is proved to compute these functions. */
module Store {
  import opened Wrappers
  import opened Text
  import opened Overrides

  // ---------------------------------------------------------------- values

  /** A value is text with references `${name}` in it. */
  datatype Tok = Ch(c: char) | Ref(name: string)

  type Value = seq<Tok>

  /** One queued `:append`, `:prepend` or `:remove` with its override condition. */
  datatype Op = Op(value: Value, cond: Option<string>)

  /** The flags of one variable; `weak` is `_defaultval`. */
  datatype Entry = Entry(
    content: Option<Value>,
    weak: Option<Value>,
    appends: seq<Op>,
    prepends: seq<Op>,
    removes: seq<Op>,
    flags: map<string, Value>)

  /** The empty flag dictionary, which also marks a deleted variable. */
  const NO_ENTRY := Entry(None, None, [], [], [], map[])

  /** A whole datastore with its layers flattened. */
  datatype View = View(vars: map<string, Entry>, variants: map<string, seq<Variant>>)

  function EntryOf(m: View, k: string): Entry {
    if k in m.vars then m.vars[k] else NO_ENTRY
  }

  function Refs(v: Value): set<string> {
    set t | t in v && t.Ref? :: t.name
  }

  lemma RefsStep(v: Value)
    requires v != []
    ensures Refs(v) == Refs(v[..|v| - 1]) + (if v[|v| - 1].Ref? then {v[|v| - 1].name} else {})
  {
    assert forall t :: t in v <==> t in v[..|v| - 1] || t == v[|v| - 1];
  }

  lemma RefsAppend(v: Value, w: Value)
    ensures Refs(v + w) == Refs(v) + Refs(w)
  {
    assert forall t :: t in v + w <==> t in v || t in w;
  }

  function Render(v: Value): string {
    if v == [] then ""
    else Render(v[..|v| - 1]) +
         match v[|v| - 1] case Ch(c) => [c] case Ref(x) => "${" + x + "}"
  }

  /** `(value or "").split(":")` */
  function OverrideList(v: Option<Value>): seq<string> {
    Split(if v.Some? then Render(v.value) else "", ':')
  }

  // ---------------------------------------------------------------- queued operations

  predicate Applies(cond: Option<string>, overrides: seq<string>) {
    cond.None? || cond.value == "" || forall o | o in Split(cond.value, ':') :: o in overrides
  }

  function OrEmpty(v: Option<Value>): Value {
    if v.Some? then v.value else []
  }

  function Appended(v: Option<Value>, ops: seq<Op>, overrides: seq<string>): Option<Value> {
    if ops == [] then v
    else
      var w, op := Appended(v, ops[..|ops| - 1], overrides), ops[|ops| - 1];
      if Applies(op.cond, overrides) then Some(OrEmpty(w) + op.value) else w
  }

  function Prepended(v: Option<Value>, ops: seq<Op>, overrides: seq<string>): Option<Value> {
    if ops == [] then v
    else
      var w, op := Prepended(v, ops[..|ops| - 1], overrides), ops[|ops| - 1];
      if Applies(op.cond, overrides) then Some(op.value + OrEmpty(w)) else w
  }

  function ActiveRemoves(ops: seq<Op>, overrides: seq<string>): set<Value> {
    if ops == [] then {}
    else
      var rest, op := ActiveRemoves(ops[..|ops| - 1], overrides), ops[|ops| - 1];
      if Applies(op.cond, overrides) then rest + {op.value} else rest
  }

  // ---------------------------------------------------------------- removal of words

  predicate IsSpace(t: Tok) {
    t.Ch? && (t.c == ' ' || '\t' <= t.c <= '\r' || '\U{1c}' <= t.c <= '\U{1f}')
  }

  /** `re.split(r'(\s)', s)`: words and the single separators between them. */
  function Pieces(v: Value): (ps: seq<Value>)
    ensures |ps| > 0
  {
    if v == [] then [[]]
    else
      var rest := Pieces(v[1..]);
      if IsSpace(v[0]) then [[], [v[0]]] + rest else [[v[0]] + rest[0]] + rest[1..]
  }

  /** `s.split()` */
  function Words(v: Value): set<Value> {
    set p | p in Pieces(v) && p != [] && !IsSpace(p[0])
  }

  function KeepPieces(ps: seq<Value>, gone: set<Value>): Value {
    if ps == [] then []
    else
      var kept := KeepPieces(ps[..|ps| - 1], gone);
      if ps[|ps| - 1] in gone then kept else kept + ps[|ps| - 1]
  }

  function Strip(v: Value, gone: set<Value>): Value {
    KeepPieces(Pieces(v), gone)
  }

  function AllWords(words: map<Value, set<Value>>): set<Value> {
    set r, w | r in words && w in words[r] :: w
  }

  function Hits(v: Value, words: map<Value, set<Value>>): set<Value> {
    set r, p | r in words && p in Pieces(v) && p in words[r] :: r
  }

  // ---------------------------------------------------------------- evaluation

  /** The parser object of one read: the expanded value, the names referenced,
      and the removals that took something away. */
  datatype Parser = Parser(value: Option<Value>, references: set<string>, removes: set<Value>)

  /** What a read gives: the unexpanded value and its parser. */
  datatype Read = Read(raw: Option<Value>, parser: Parser)

  datatype Expansion = Expansion(value: Value, refs: set<string>)

  const UNDEFINED := Read(None, Parser(None, {}, {}))

  function Base(e: Entry): Option<Value> {
    if e.content.Some? then e.content else e.weak
  }

  function Chosen(m: View, overrides: seq<string>, k: string): Option<string> {
    if k in m.variants then Pick(m.variants[k], overrides) else None
  }

  /** What a reference stands for: the value read, or itself when undefined. */
  function Substitute(x: string, r: Read): Value {
    if r.parser.value.Some? then r.parser.value.value else [Ref(x)]
  }

  /** One substitution pass over v while expanding variable self. None stands
      for an exception: a variable that references itself, or recursion deeper than n. */
  ghost function Pass(m: View, overrides: seq<string>, n: nat, self: Option<string>, v: Value): Option<Value>
    decreases n, 1, |v|
  {
    if v == [] then Some([])
    else
      var p := Pass(m, overrides, n, self, v[..|v| - 1]);
      if p.None? then None
      else match v[|v| - 1]
        case Ch(_) => Some(p.value + [v[|v| - 1]])
        case Ref(x) =>
          if self == Some(x) then None
          else
            var g := Eval(m, overrides, n, x, true);
            if g.None? then None
            else Some(p.value + Substitute(x, g.value))
  }

  /** Repeated passes; `DataSmart` shows that the loop stops after the second. */
  ghost function Expand(m: View, overrides: seq<string>, n: nat, self: Option<string>, v: Value): Option<Expansion>
    decreases n, 2, 0
  {
    var p := Pass(m, overrides, n, self, v);
    if p.None? then None
    else if p.value == v then Some(Expansion(v, Refs(v)))
    else
      var q := Pass(m, overrides, n, self, p.value);
      if q.None? then None else Some(Expansion(q.value, Refs(v) + Refs(p.value)))
  }

  /** The last part of a read: take the removed words out of the expanded value. */
  ghost function Removed(m: View, overrides: seq<string>, n: nat,
                         raw: Value, x: Expansion, removes: set<Value>): Option<Read>
    decreases n, 3, 0
  {
    if removes == {} then Some(Read(Some(raw), Parser(Some(x.value), x.refs, {})))
    else if exists r | r in removes :: Expand(m, overrides, n, None, r).None? then None
    else
      var words := map r | r in removes :: Words(Expand(m, overrides, n, None, r).value.value);
      Some(Read(Some(raw), Parser(Some(Strip(x.value, AllWords(words))), x.refs, Hits(x.value, words))))
  }

  /** The unexpanded value of k, given what reading the chosen variant gave. */
  ghost function Assemble(m: View, overrides: seq<string>, k: string, sub: Read): Option<Value> {
    var e := EntryOf(m, k);
    Prepended(Appended(if sub.raw.Some? then sub.raw else Base(e), e.appends, overrides), e.prepends, overrides)
  }

  /** What follows once the chosen variant has been read. */
  ghost function Finish(m: View, overrides: seq<string>, n: nat, k: string, exp: bool, sub: Read): Option<Read>
    decreases n, 4, 0
  {
    var raw := Assemble(m, overrides, k, sub);
    if raw.None? then Some(UNDEFINED)
    else
      var x := Expand(m, overrides, n, Some(k), raw.value);
      if x.None? then None
      else Removed(m, overrides, n, raw.value, x.value,
                   ToRemove(m, overrides, k, sub, if exp then x.value.value else raw.value))
  }

  /** The removals to apply; none when the value tested is empty. */
  ghost function ToRemove(m: View, overrides: seq<string>, k: string, sub: Read, tested: Value): set<Value> {
    if tested == [] then {} else sub.parser.removes + ActiveRemoves(EntryOf(m, k).removes, overrides)
  }

  /** A read of k with at most n nested reads. exp tells a read of the expanded
      value from a read of the unexpanded value together with its parse. */
  ghost function Eval(m: View, overrides: seq<string>, n: nat, k: string, exp: bool): Option<Read>
    decreases n, 0, 0
  {
    if n == 0 then None
    else
      var sub := EvalChosen(m, overrides, n - 1, k);
      if sub.None? then None else Finish(m, overrides, n - 1, k, exp, sub.value)
  }

  /** The read of the chosen variant, or nothing when none is chosen. */
  ghost function EvalChosen(m: View, overrides: seq<string>, n: nat, k: string): Option<Read>
    decreases n, 4, 0
  {
    var chosen := Chosen(m, overrides, k);
    if chosen.Some? then Eval(m, overrides, n, chosen.value, false) else Some(UNDEFINED)
  }

  /** Some depth of recursion suffices for the read of k, and it gives p. */
  ghost predicate Reads(m: View, overrides: seq<string>, k: string, exp: bool, p: Read) {
    exists n: nat :: Eval(m, overrides, n, k, exp) == Some(p)
  }

  /** The expanded value of k is v. */
  ghost predicate ReadsValue(m: View, overrides: seq<string>, k: string, v: Option<Value>) {
    exists r :: Reads(m, overrides, k, true, r) && r.parser.value == v
  }

  // ---------------------------------------------------------------- more depth changes nothing

  lemma {:induction false} PassMore(m: View, overrides: seq<string>, n: nat, self: Option<string>, v: Value)
    requires Pass(m, overrides, n, self, v).Some?
    ensures Pass(m, overrides, n + 1, self, v) == Pass(m, overrides, n, self, v)
    decreases n, 1, |v|
  {
    if v != [] {
      PassMore(m, overrides, n, self, v[..|v| - 1]);
      match v[|v| - 1]
      case Ch(_) =>
      case Ref(x) => EvalMore(m, overrides, n, x, true);
    }
  }

  lemma {:induction false} ExpandMore(m: View, overrides: seq<string>, n: nat, self: Option<string>, v: Value)
    requires Expand(m, overrides, n, self, v).Some?
    ensures Expand(m, overrides, n + 1, self, v) == Expand(m, overrides, n, self, v)
    decreases n, 2, 0
  {
    PassMore(m, overrides, n, self, v);
    var p := Pass(m, overrides, n, self, v).value;
    if p != v {
      PassMore(m, overrides, n, self, p);
    }
  }

  lemma {:induction false} RemovedMore(m: View, overrides: seq<string>, n: nat,
                                       raw: Value, x: Expansion, removes: set<Value>)
    requires Removed(m, overrides, n, raw, x, removes).Some?
    ensures Removed(m, overrides, n + 1, raw, x, removes) == Removed(m, overrides, n, raw, x, removes)
    decreases n, 3, 0
  {
    forall r | r in removes
      ensures Expand(m, overrides, n + 1, None, r) == Expand(m, overrides, n, None, r)
    {
      ExpandMore(m, overrides, n, None, r);
    }
    if removes != {} {
      var words := map r | r in removes :: Words(Expand(m, overrides, n, None, r).value.value);
      assert words == map r | r in removes :: Words(Expand(m, overrides, n + 1, None, r).value.value);
    }
  }

  lemma {:induction false} FinishMore(m: View, overrides: seq<string>, n: nat, k: string, exp: bool, sub: Read)
    requires Finish(m, overrides, n, k, exp, sub).Some?
    ensures Finish(m, overrides, n + 1, k, exp, sub) == Finish(m, overrides, n, k, exp, sub)
    decreases n, 4, 0
  {
    var raw := Assemble(m, overrides, k, sub);
    if raw.Some? {
      ExpandMore(m, overrides, n, Some(k), raw.value);
      var x := Expand(m, overrides, n, Some(k), raw.value).value;
      RemovedMore(m, overrides, n, raw.value, x,
        ToRemove(m, overrides, k, sub, if exp then x.value else raw.value));
    }
  }

  lemma {:induction false} EvalMore(m: View, overrides: seq<string>, n: nat, k: string, exp: bool)
    requires Eval(m, overrides, n, k, exp).Some?
    ensures Eval(m, overrides, n + 1, k, exp) == Eval(m, overrides, n, k, exp)
    decreases n, 0, 0
  {
    var chosen := Chosen(m, overrides, k);
    if chosen.Some? {
      EvalMore(m, overrides, n - 1, chosen.value, false);
    }
    FinishMore(m, overrides, n - 1, k, exp, EvalChosen(m, overrides, n - 1, k).value);
  }

  lemma {:induction false} EvalDeeper(m: View, overrides: seq<string>, n: nat, d: nat, k: string, exp: bool)
    requires n <= d && Eval(m, overrides, n, k, exp).Some?
    ensures Eval(m, overrides, d, k, exp) == Eval(m, overrides, n, k, exp)
    decreases d - n
  {
    if n < d {
      EvalMore(m, overrides, n, k, exp);
      EvalDeeper(m, overrides, n + 1, d, k, exp);
    }
  }

  /** A read gives one result, whatever depth was needed. */
  lemma ReadsOne(m: View, overrides: seq<string>, k: string, exp: bool, p: Read, q: Read)
    requires Reads(m, overrides, k, exp, p) && Reads(m, overrides, k, exp, q)
    ensures p == q
  {
    var i: nat :| Eval(m, overrides, i, k, exp) == Some(p);
    var j: nat :| Eval(m, overrides, j, k, exp) == Some(q);
    EvalDeeper(m, overrides, i, if i < j then j else i, k, exp);
    EvalDeeper(m, overrides, j, if i < j then j else i, k, exp);
  }

  lemma ValueIsOne(m: View, overrides: seq<string>, k: string, v: Option<Value>, w: Option<Value>)
    requires ReadsValue(m, overrides, k, v) && ReadsValue(m, overrides, k, w)
    ensures v == w
  {
    var a :| Reads(m, overrides, k, true, a) && a.parser.value == v;
    var b :| Reads(m, overrides, k, true, b) && b.parser.value == w;
    ReadsOne(m, overrides, k, true, a, b);
  }

  lemma KindReadsValue(m: View, overrides: seq<string>, k: string, exp: bool, r: Read)
    requires Reads(m, overrides, k, exp, r)
    ensures ReadsValue(m, overrides, k, r.parser.value)
  {
    var n: nat :| Eval(m, overrides, n, k, exp) == Some(r);
    if !exp {
      KindsAgree(m, overrides, n, k);
    }
    assert Reads(m, overrides, k, true, r);
  }

  // ---------------------------------------------------------------- the two kinds of read agree

  lemma {:induction false} KeepNothing(gone: set<Value>)
    requires [] !in gone
    ensures Strip([], gone) == []
  {
    assert KeepPieces([[]][..0], gone) == [];
  }

  lemma NoWordIsEmpty(m: View, overrides: seq<string>, n: nat, raw: Value, refs: set<string>, removes: set<Value>)
    requires Removed(m, overrides, n, raw, Expansion([], refs), removes).Some?
    ensures Removed(m, overrides, n, raw, Expansion([], refs), removes) ==
            Some(Read(Some(raw), Parser(Some([]), refs, {})))
  {
    if removes != {} {
      var words := map r | r in removes :: Words(Expand(m, overrides, n, None, r).value.value);
      assert forall r | r in words :: [] !in words[r];
      KeepNothing(AllWords(words));
      assert Pieces([]) == [[]];
      assert Hits([], words) == {};
    }
  }

  lemma KindsAgree(m: View, overrides: seq<string>, n: nat, k: string)
    requires Eval(m, overrides, n, k, false).Some?
    ensures Eval(m, overrides, n, k, true) == Eval(m, overrides, n, k, false)
  {
    var sub := EvalChosen(m, overrides, n - 1, k).value;
    var raw := Assemble(m, overrides, k, sub);
    if raw.Some? {
      var x := Expand(m, overrides, n - 1, Some(k), raw.value).value;
      if raw.value == [] {
        assert Pass(m, overrides, n - 1, Some(k), []) == Some([]);
      } else if x.value == [] {
        assert x == Expansion([], x.refs);
        assert ToRemove(m, overrides, k, sub, x.value) == {};
        assert Removed(m, overrides, n - 1, raw.value, x, {}) == Some(Read(raw, Parser(Some([]), x.refs, {})));
        NoWordIsEmpty(m, overrides, n - 1, raw.value, x.refs, ToRemove(m, overrides, k, sub, raw.value));
      }
    }
  }

  // ---------------------------------------------------------------- expansion settles in one pass

  ghost predicate Unresolved(m: View, overrides: seq<string>, n: nat, v: Value) {
    forall x | Ref(x) in v :: Eval(m, overrides, n, x, true) == Some(UNDEFINED)
  }

  lemma {:induction false} PiecesAreParts(v: Value)
    ensures forall p, t | p in Pieces(v) && t in p :: t in v
  {
    if v != [] {
      PiecesAreParts(v[1..]);
      var rest := Pieces(v[1..]);
      forall p, t | p in Pieces(v) && t in p ensures t in v {
        if p in rest { assert t in v[1..]; }
        else if !IsSpace(v[0]) && t != v[0] { assert t in rest[0] && rest[0] in rest; }
      }
    }
  }

  lemma {:induction false} KeptAreParts(ps: seq<Value>, gone: set<Value>)
    ensures forall t | t in KeepPieces(ps, gone) :: exists p | p in ps :: t in p
  {
    if ps != [] {
      KeptAreParts(ps[..|ps| - 1], gone);
      assert ps == ps[..|ps| - 1] + [ps[|ps| - 1]];
    }
  }

  lemma StripKeepsTokens(v: Value, gone: set<Value>)
    ensures forall t | t in Strip(v, gone) :: t in v
  {
    PiecesAreParts(v);
    KeptAreParts(Pieces(v), gone);
  }

  /** Removal keeps only tokens of the expanded value. */
  lemma RemovedKeepsTokens(m: View, overrides: seq<string>, n: nat, raw: Value, x: Expansion, removes: set<Value>)
    requires Removed(m, overrides, n, raw, x, removes).Some?
    ensures var p := Removed(m, overrides, n, raw, x, removes).value;
            && p.raw == Some(raw) && p.parser.references == x.refs && p.parser.value.Some?
            && forall t | t in p.parser.value.value :: t in x.value
  {
    if removes != {} {
      var words := map r | r in removes :: Words(Expand(m, overrides, n, None, r).value.value);
      StripKeepsTokens(x.value, AllWords(words));
    }
  }

  lemma UndefinedHasNoValue(m: View, overrides: seq<string>, n: nat, k: string, exp: bool)
    requires Eval(m, overrides, n, k, exp).Some? && Eval(m, overrides, n, k, exp).value.parser.value.None?
    ensures Eval(m, overrides, n, k, exp) == Some(UNDEFINED)
  {
    var sub := EvalChosen(m, overrides, n - 1, k).value;
    var raw := Assemble(m, overrides, k, sub);
    if raw.Some? {
      var x := Expand(m, overrides, n - 1, Some(k), raw.value).value;
      RemovedKeepsTokens(m, overrides, n - 1, raw.value, x,
        ToRemove(m, overrides, k, sub, if exp then x.value else raw.value));
    }
  }

  lemma {:induction false} PassUnresolved(m: View, overrides: seq<string>, n: nat, self: Option<string>, v: Value)
    requires Pass(m, overrides, n, self, v).Some?
    ensures Unresolved(m, overrides, n, Pass(m, overrides, n, self, v).value)
    decreases n, 1, |v|
  {
    if v != [] {
      PassUnresolved(m, overrides, n, self, v[..|v| - 1]);
      match v[|v| - 1]
      case Ch(_) =>
      case Ref(x) =>
        if Eval(m, overrides, n, x, true).value.parser.value.Some? {
          EvalUnresolved(m, overrides, n, x, true);
        } else {
          UndefinedHasNoValue(m, overrides, n, x, true);
        }
    }
  }

  /** References left in an expanded value are to undefined variables. */
  lemma {:induction false} EvalUnresolved(m: View, overrides: seq<string>, n: nat, k: string, exp: bool)
    requires Eval(m, overrides, n, k, exp).Some? && Eval(m, overrides, n, k, exp).value.parser.value.Some?
    ensures Unresolved(m, overrides, n, Eval(m, overrides, n, k, exp).value.parser.value.value)
    decreases n, 0, 0
  {
    var sub := EvalChosen(m, overrides, n - 1, k).value;
    var raw := Assemble(m, overrides, k, sub).value;
    var x := Expand(m, overrides, n - 1, Some(k), raw).value;
    ExpandSettles(m, overrides, n - 1, Some(k), raw);
    RemovedKeepsTokens(m, overrides, n - 1, raw, x, ToRemove(m, overrides, k, sub, if exp then x.value else raw));
    forall y | Ref(y) in x.value ensures Eval(m, overrides, n, y, true) == Some(UNDEFINED) {
      EvalMore(m, overrides, n - 1, y, true);
    }
  }

  lemma {:induction false} PassOfUnresolved(m: View, overrides: seq<string>, n: nat, self: Option<string>, v: Value)
    requires Unresolved(m, overrides, n, v)
    ensures Pass(m, overrides, n, self, v) == if self.Some? && Ref(self.value) in v then None else Some(v)
  {
    if v != [] {
      var init, t := v[..|v| - 1], v[|v| - 1];
      assert forall u :: u in v <==> u in init || u == t;
      PassOfUnresolved(m, overrides, n, self, init);
      if t.Ref? {
        assert Eval(m, overrides, n, t.name, true) == Some(UNDEFINED);
      }
      assert v == init + [t];
    }
  }

  /** The value after the first pass is final: a second pass leaves it alone. */
  lemma {:induction false} ExpandSettles(m: View, overrides: seq<string>, n: nat, self: Option<string>, v: Value)
    requires Expand(m, overrides, n, self, v).Some?
    ensures var e := Expand(m, overrides, n, self, v).value;
            Unresolved(m, overrides, n, e.value) && e.refs == Refs(v) + Refs(e.value)
    decreases n, 2, 0
  {
    PassUnresolved(m, overrides, n, self, v);
    var p := Pass(m, overrides, n, self, v).value;
    PassOfUnresolved(m, overrides, n, self, p);
  }

  // ---------------------------------------------------------------- reads of some depth

  ghost predicate Passes(m: View, overrides: seq<string>, self: Option<string>, v: Value, p: Value) {
    exists n: nat :: Pass(m, overrides, n, self, v) == Some(p)
  }

  ghost predicate Expands(m: View, overrides: seq<string>, self: Option<string>, v: Value, e: Expansion) {
    exists n: nat :: Expand(m, overrides, n, self, v) == Some(e)
  }

  function Max(a: nat, b: nat): nat {
    if a < b then b else a
  }

  lemma {:induction false} PassDeeper(m: View, overrides: seq<string>, n: nat, d: nat, self: Option<string>, v: Value)
    requires n <= d && Pass(m, overrides, n, self, v).Some?
    ensures Pass(m, overrides, d, self, v) == Pass(m, overrides, n, self, v)
    decreases d - n
  {
    if n < d {
      PassMore(m, overrides, n, self, v);
      PassDeeper(m, overrides, n + 1, d, self, v);
    }
  }

  lemma {:induction false} ExpandDeeper(m: View, overrides: seq<string>, n: nat, d: nat, self: Option<string>, v: Value)
    requires n <= d && Expand(m, overrides, n, self, v).Some?
    ensures Expand(m, overrides, d, self, v) == Expand(m, overrides, n, self, v)
    decreases d - n
  {
    if n < d {
      ExpandMore(m, overrides, n, self, v);
      ExpandDeeper(m, overrides, n + 1, d, self, v);
    }
  }

  lemma PassesNothing(m: View, overrides: seq<string>, self: Option<string>)
    ensures Passes(m, overrides, self, [], [])
  {
    assert Pass(m, overrides, 0, self, []) == Some([]);
  }

  lemma PassesChar(m: View, overrides: seq<string>, self: Option<string>, v: Value, p: Value, c: char)
    requires Passes(m, overrides, self, v, p)
    ensures Passes(m, overrides, self, v + [Ch(c)], p + [Ch(c)])
  {
    var n: nat :| Pass(m, overrides, n, self, v) == Some(p);
    var w := v + [Ch(c)];
    assert w[..|w| - 1] == v;
    assert Pass(m, overrides, n, self, w) == Some(p + [Ch(c)]);
  }

  lemma PassStep(m: View, overrides: seq<string>, n: nat, self: Option<string>, v: Value, p: Value, x: string, r: Read)
    requires Pass(m, overrides, n, self, v) == Some(p) && self != Some(x) && Eval(m, overrides, n, x, true) == Some(r)
    ensures Pass(m, overrides, n, self, v + [Ref(x)]) == Some(p + Substitute(x, r))
  {
    var w := v + [Ref(x)];
    assert w[..|w| - 1] == v;
  }

  lemma PassesRef(m: View, overrides: seq<string>, self: Option<string>, v: Value, p: Value, x: string, r: Read)
    requires Passes(m, overrides, self, v, p) && self != Some(x) && Reads(m, overrides, x, true, r)
    ensures Passes(m, overrides, self, v + [Ref(x)], p + Substitute(x, r))
  {
    var i: nat :| Pass(m, overrides, i, self, v) == Some(p);
    var j: nat :| Eval(m, overrides, j, x, true) == Some(r);
    var n := Max(i, j);
    PassDeeper(m, overrides, i, n, self, v);
    EvalDeeper(m, overrides, j, n, x, true);
    PassStep(m, overrides, n, self, v, p, x, r);
  }

  lemma PassesPlain(m: View, overrides: seq<string>, self: Option<string>, v: Value)
    requires Refs(v) == {}
    ensures Passes(m, overrides, self, v, v)
  {
    forall t | t in v ensures t.Ref? ==> t.name in Refs(v) {
    }
    PassOfUnresolved(m, overrides, 0, self, v);
  }

  /** A second pass that succeeds changes nothing. */
  lemma SecondPassIsIdle(m: View, overrides: seq<string>, self: Option<string>, v: Value, p: Value, q: Value)
    requires Passes(m, overrides, self, v, p) && Passes(m, overrides, self, p, q)
    ensures q == p
  {
    var i: nat :| Pass(m, overrides, i, self, v) == Some(p);
    var j: nat :| Pass(m, overrides, j, self, p) == Some(q);
    var n := Max(i, j);
    PassDeeper(m, overrides, i, n, self, v);
    PassDeeper(m, overrides, j, n, self, p);
    PassUnresolved(m, overrides, n, self, v);
    PassOfUnresolved(m, overrides, n, self, p);
  }

  lemma ExpandsBy(m: View, overrides: seq<string>, self: Option<string>, v: Value, p: Value)
    requires Passes(m, overrides, self, v, p) && Passes(m, overrides, self, p, p)
    ensures Expands(m, overrides, self, v, Expansion(p, Refs(v) + Refs(p)))
  {
    var i: nat :| Pass(m, overrides, i, self, v) == Some(p);
    var j: nat :| Pass(m, overrides, j, self, p) == Some(p);
    var n := Max(i, j);
    PassDeeper(m, overrides, i, n, self, v);
    PassDeeper(m, overrides, j, n, self, p);
    assert Refs(v) + Refs(v) == Refs(v);
    assert Expand(m, overrides, n, self, v) == Some(Expansion(p, Refs(v) + Refs(p)));
  }

  /** The read of the variant chosen for k gave sub. */
  ghost predicate ReadsChosen(m: View, overrides: seq<string>, k: string, sub: Read) {
    var chosen := Chosen(m, overrides, k);
    if chosen.Some? then Reads(m, overrides, chosen.value, false, sub) else sub == UNDEFINED
  }

  lemma ReadsUndefined(m: View, overrides: seq<string>, k: string, exp: bool, sub: Read)
    requires ReadsChosen(m, overrides, k, sub) && Assemble(m, overrides, k, sub).None?
    ensures Reads(m, overrides, k, exp, UNDEFINED)
  {
    var i := ChosenDepth(m, overrides, k, sub);
    assert Eval(m, overrides, i + 1, k, exp) == Some(UNDEFINED);
  }

  lemma ChosenDepth(m: View, overrides: seq<string>, k: string, sub: Read) returns (n: nat)
    requires ReadsChosen(m, overrides, k, sub)
    ensures forall d | d >= n :: EvalChosen(m, overrides, d, k) == Some(sub)
  {
    var chosen := Chosen(m, overrides, k);
    n := 0;
    if chosen.Some? {
      n :| Eval(m, overrides, n, chosen.value, false) == Some(sub);
      forall d | d >= n ensures EvalChosen(m, overrides, d, k) == Some(sub) {
        EvalDeeper(m, overrides, n, d, chosen.value, false);
      }
    }
  }

  lemma {:induction false} WordsDepth(m: View, overrides: seq<string>, expanded: map<Value, Expansion>) returns (n: nat)
    requires forall r | r in expanded :: Expands(m, overrides, None, r, expanded[r])
    ensures forall r, d | r in expanded && d >= n :: Expand(m, overrides, d, None, r) == Some(expanded[r])
    decreases |expanded|
  {
    n := 0;
    if expanded != map[] {
      var r :| r in expanded;
      var rest := expanded - {r};
      assert rest.Keys == expanded.Keys - {r};
      assert |rest.Keys| < |expanded.Keys|;
      var i := WordsDepth(m, overrides, rest);
      var j: nat :| Expand(m, overrides, j, None, r) == Some(expanded[r]);
      n := Max(i, j);
      forall q, d | q in expanded && d >= n ensures Expand(m, overrides, d, None, q) == Some(expanded[q]) {
        if q == r {
          ExpandDeeper(m, overrides, j, d, None, r);
        } else {
          assert q in rest;
        }
      }
    }
  }

  function WordsOf(expanded: map<Value, Expansion>): map<Value, set<Value>> {
    map r | r in expanded :: Words(expanded[r].value)
  }

  /** The result of a read whose value raw expands to x, with the given expansions of its removals. */
  function ReadOf(raw: Value, x: Expansion, expanded: map<Value, Expansion>): Read {
    Read(Some(raw),
      if expanded == map[] then Parser(Some(x.value), x.refs, {})
      else Parser(Some(Strip(x.value, AllWords(WordsOf(expanded)))), x.refs, Hits(x.value, WordsOf(expanded))))
  }

  lemma RemovedBy(m: View, overrides: seq<string>, n: nat, raw: Value, x: Expansion, expanded: map<Value, Expansion>)
    requires forall r | r in expanded :: Expand(m, overrides, n, None, r) == Some(expanded[r])
    ensures Removed(m, overrides, n, raw, x, expanded.Keys) == Some(ReadOf(raw, x, expanded))
  {
    var removes := expanded.Keys;
    if expanded != map[] {
      var r :| r in expanded;
      assert r in removes;
      assert WordsOf(expanded) == map r | r in removes :: Words(Expand(m, overrides, n, None, r).value.value);
    }
  }

  /** How the parts of a read fit together. */
  lemma ReadsBy(m: View, overrides: seq<string>, k: string, exp: bool, sub: Read, raw: Value, x: Expansion,
                expanded: map<Value, Expansion>)
    requires ReadsChosen(m, overrides, k, sub) && Assemble(m, overrides, k, sub) == Some(raw)
    requires Expands(m, overrides, Some(k), raw, x)
    requires expanded.Keys == ToRemove(m, overrides, k, sub, if exp then x.value else raw)
    requires forall r | r in expanded :: Expands(m, overrides, None, r, expanded[r])
    ensures Reads(m, overrides, k, exp, ReadOf(raw, x, expanded))
  {
    var i := ChosenDepth(m, overrides, k, sub);
    var j: nat :| Expand(m, overrides, j, Some(k), raw) == Some(x);
    var l := WordsDepth(m, overrides, expanded);
    var n := Max(i, Max(j, l));
    ExpandDeeper(m, overrides, j, n, Some(k), raw);
    RemovedBy(m, overrides, n, raw, x, expanded);
    assert Finish(m, overrides, n, k, exp, sub) == Some(ReadOf(raw, x, expanded));
    assert EvalChosen(m, overrides, n, k) == Some(sub);
    assert Eval(m, overrides, n + 1, k, exp) == Finish(m, overrides, n, k, exp, sub);
  }

  // ---------------------------------------------------------------- reads that fail

  lemma {:induction false} PassPrefixFails(m: View, overrides: seq<string>, n: nat, self: Option<string>, v: Value,
                                           i: nat)
    requires i <= |v| && Pass(m, overrides, n, self, v[..i]).None?
    ensures Pass(m, overrides, n, self, v).None?
  {
    if i < |v| {
      assert v[..|v| - 1][..i] == v[..i];
      PassPrefixFails(m, overrides, n, self, v[..|v| - 1], i);
    } else {
      assert v[..i] == v;
    }
  }

  /** A reference that cannot be read fails the whole pass. */
  lemma PassRefFails(m: View, overrides: seq<string>, n: nat, self: Option<string>, v: Value, i: nat, x: string)
    requires i < |v| && v[i] == Ref(x) && (self == Some(x) || Eval(m, overrides, n, x, true).None?)
    ensures Pass(m, overrides, n, self, v).None?
  {
    var w := v[..i + 1];
    assert w[..|w| - 1] == v[..i] && w[|w| - 1] == v[i];
    assert Pass(m, overrides, n, self, w).None?;
    PassPrefixFails(m, overrides, n, self, v, i + 1);
  }

  lemma SecondPassFails(m: View, overrides: seq<string>, n: nat, self: Option<string>, v: Value, p: Value)
    requires Passes(m, overrides, self, v, p) && p != v && Pass(m, overrides, n, self, p).None?
    ensures Expand(m, overrides, n, self, v).None?
  {
    var i: nat :| Pass(m, overrides, i, self, v) == Some(p);
    if Pass(m, overrides, n, self, v).Some? {
      PassDeeper(m, overrides, i, Max(i, n), self, v);
      PassDeeper(m, overrides, n, Max(i, n), self, v);
    }
  }

  lemma RemovalFails(m: View, overrides: seq<string>, n: nat, k: string, exp: bool, sub: Read,
                     raw: Value, x: Expansion, r: Value)
    requires Assemble(m, overrides, k, sub) == Some(raw) && Expands(m, overrides, Some(k), raw, x)
    requires r in ToRemove(m, overrides, k, sub, if exp then x.value else raw)
    requires Expand(m, overrides, n, None, r).None?
    ensures Finish(m, overrides, n, k, exp, sub).None?
  {
    var i: nat :| Expand(m, overrides, i, Some(k), raw) == Some(x);
    var y := Expand(m, overrides, n, Some(k), raw);
    if y.Some? {
      ExpandDeeper(m, overrides, i, Max(i, n), Some(k), raw);
      ExpandDeeper(m, overrides, n, Max(i, n), Some(k), raw);
    }
  }

  lemma ReadFails(m: View, overrides: seq<string>, n: nat, k: string, exp: bool, sub: Read)
    requires ReadsChosen(m, overrides, k, sub) && Finish(m, overrides, n, k, exp, sub).None?
    ensures Eval(m, overrides, n + 1, k, exp).None?
  {
    var s := EvalChosen(m, overrides, n, k);
    var chosen := Chosen(m, overrides, k);
    if s.Some? && chosen.Some? {
      assert Eval(m, overrides, n, chosen.value, false) == s;
      ReadsOne(m, overrides, chosen.value, false, s.value, sub);
    }
  }

  lemma ReadFailsInRemoval(m: View, overrides: seq<string>, n: nat, k: string, exp: bool, sub: Read,
                           raw: Value, x: Expansion)
    requires ReadsChosen(m, overrides, k, sub) && Assemble(m, overrides, k, sub) == Some(raw)
    requires Expands(m, overrides, Some(k), raw, x)
    requires exists r | r in ToRemove(m, overrides, k, sub, if exp then x.value else raw) ::
               Expand(m, overrides, n, None, r).None?
    ensures Eval(m, overrides, n + 1, k, exp).None?
  {
    var r :| r in ToRemove(m, overrides, k, sub, if exp then x.value else raw)
             && Expand(m, overrides, n, None, r).None?;
    RemovalFails(m, overrides, n, k, exp, sub, raw, x, r);
    ReadFails(m, overrides, n, k, exp, sub);
  }
}
