/** The copy-on-write layers of a datastore and the lists in them. A copy of a
    datastore holds the same list objects as its original: what keeps them apart
    is that a list is copied before it is changed. */
module Layers {
  import opened Wrappers
  import opened Overrides
  import opened Store
  import opened Updates

  // ---------------------------------------------------------------- lists

  /** A list of queued operations. */
  class OpList {
    var ops: seq<Op>

    constructor (ops: seq<Op>)
      ensures this.ops == ops
    {
      this.ops := ops;
    }

    method Append(op: Op)
      modifies this
      ensures ops == old(ops) + [op]
    {
      ops := ops + [op];
    }
  }

  /** The recorded variants of one variable. */
  class VariantList {
    var items: seq<Variant>

    constructor (items: seq<Variant>)
      ensures this.items == items
    {
      this.items := items;
    }

    method Append(v: Variant)
      modifies this
      ensures items == old(items) + [v]
    {
      items := items + [v];
    }

    /** Take out the first v; nothing happens when there is none. */
    method Remove(v: Variant)
      modifies this
      ensures items == WithoutVariant(old(items), v)
    {
      for i := 0 to |items|
        invariant items == old(items) && v !in items[..i]
      {
        if items[i] == v {
          FirstTakenOut(items, v, i);
          items := items[..i] + items[i + 1..];
          return;
        }
      }
      NothingTakenOut(items, v);
    }
  }

  lemma {:induction false} FirstTakenOut(known: seq<Variant>, v: Variant, i: nat)
    requires i < |known| && known[i] == v && v !in known[..i]
    ensures WithoutVariant(known, v) == known[..i] + known[i + 1..]
  {
    if i > 0 {
      assert known[..i][0] == known[0] && known[1..][..i - 1] == known[..i][1..];
      FirstTakenOut(known[1..], v, i - 1);
      assert known[1..][i..] == known[i + 1..];
    }
  }

  lemma {:induction false} NothingTakenOut(known: seq<Variant>, v: Variant)
    requires v !in known
    ensures WithoutVariant(known, v) == known
  {
    if known != [] {
      NothingTakenOut(known[1..], v);
    }
  }

  // ---------------------------------------------------------------- flags

  /** The flag dictionary of one variable: `_content`, `_defaultval`, the lists of
      queued operations where there are any, and the other flags. */
  datatype Flags = Flags(
    content: Option<Value>,
    weak: Option<Value>,
    appends: OpList?,
    prepends: OpList?,
    removes: OpList?,
    others: map<string, Value>)

  const NO_FLAGS := Flags(None, None, null, null, null, map[])

  ghost function ListSet(l: OpList?): set<OpList> {
    if l == null then {} else {l}
  }

  ghost function Held(f: Flags): set<OpList> {
    ListSet(f.appends) + ListSet(f.prepends) + ListSet(f.removes)
  }

  function OpsOf(l: OpList?): seq<Op>
    reads l
  {
    if l == null then [] else l.ops
  }

  /** What the dictionary says: its lists with their contents. */
  function EntryIn(f: Flags): Entry
    reads f.appends, f.prepends, f.removes
  {
    Entry(f.content, f.weak, OpsOf(f.appends), OpsOf(f.prepends), OpsOf(f.removes), f.others)
  }

  /** The dictionary stands for e, and holds no empty list. */
  ghost predicate Says(f: Flags, e: Entry)
    reads Held(f)`ops
  {
    && f.content == e.content && f.weak == e.weak && f.others == e.flags
    && Lists(f.appends, e.appends) && Lists(f.prepends, e.prepends) && Lists(f.removes, e.removes)
  }

  ghost predicate SaysWithin(f: Flags, e: Entry, held: set<OpList>)
    reads held`ops
  {
    Held(f) <= held && Says(f, e)
  }

  ghost predicate Lists(l: OpList?, ops: seq<Op>)
    reads ListSet(l)`ops
  {
    if l == null then ops == [] else l.ops == ops && ops != []
  }

  function ListFor(f: Flags, w: Keyword): OpList? {
    match w case Append => f.appends case Prepend => f.prepends case Remove => f.removes
  }

  function WithList(f: Flags, w: Keyword, l: OpList): Flags {
    match w
    case Append => f.(appends := l)
    case Prepend => f.(prepends := l)
    case Remove => f.(removes := l)
  }

  function WithoutLists(f: Flags): Flags {
    f.(appends := null, prepends := null, removes := null)
  }

  ghost function WithOps(e: Entry, w: Keyword, ops: seq<Op>): Entry {
    match w
    case Append => e.(appends := ops)
    case Prepend => e.(prepends := ops)
    case Remove => e.(removes := ops)
  }

  function OpsFor(e: Entry, w: Keyword): seq<Op> {
    match w case Append => e.appends case Prepend => e.prepends case Remove => e.removes
  }

  ghost function NearestIn(vars: map<string, Entry>, k: string): Entry {
    if k in vars then vars[k] else NO_ENTRY
  }

  lemma PutOnTop(below: map<string, Entry>, vars: map<string, Entry>, k: string, e: Entry)
    ensures below + vars[k := e] == (below + vars)[k := e]
  {
  }

  // ---------------------------------------------------------------- layers

  /** One layer: its own variables and, under `_data`, the layer below. */
  class Layer {
    var flags: map<string, Flags>
    const parent: Layer?
    ghost const chain: set<Layer>
    ghost var vars: map<string, Entry>
    ghost var held: set<OpList>

    ghost predicate Valid()
      decreases chain
    {
      && this in chain
      && (parent == null ==> chain == {this})
      && (parent != null ==> chain == {this} + parent.chain && this !in parent.chain && parent.Valid())
    }

    /** vars is what the dictionaries of this layer say, and held has all their lists. */
    ghost predicate Tied()
      reads this`flags, this`vars, this`held, held`ops
    {
      flags.Keys == vars.Keys && forall k {:trigger flags[k]} | k in flags :: SaysWithin(flags[k], vars[k], held)
    }

    ghost predicate AllTied()
      reads chain`flags, chain`vars, chain`held, (set d, l | d in chain && l in d.held :: l)`ops
    {
      forall d {:trigger d.Tied()} | d in chain :: d.Tied()
    }

    /** The contents with the layers below: the nearest entry of every name. */
    ghost function Flat(): map<string, Entry>
      requires Valid()
      reads chain`vars
      decreases chain
    {
      if parent == null then vars else parent.Flat() + vars
    }

    constructor (parent: Layer?)
      requires parent != null ==> parent.Valid() && parent.AllTied()
      ensures Valid() && AllTied() && vars == map[] && this.parent == parent && fresh(this)
    {
      this.flags, this.vars, this.held := map[], map[], {};
      this.parent := parent;
      this.chain := if parent == null then {this} else {this} + parent.chain;
    }

    method Put(k: string, f: Flags, ghost e: Entry)
      requires Valid() && AllTied() && Says(f, e)
      modifies this
      ensures AllTied() && Flat() == old(Flat())[k := e] && vars == old(vars)[k := e]
      ensures flags == old(flags)[k := f]
    {
      ghost var below, mine := if parent == null then map[] else parent.Flat(), vars;
      PutHere(k, f, e);
      forall d | d in chain && d != this ensures d.Tied() {
        assert old(d.Tied());
      }
      PutOnTop(below, mine, k, e);
      assert Flat() == if parent == null then vars else below + vars;
    }

    method PutHere(k: string, f: Flags, ghost e: Entry)
      requires Tied() && Says(f, e)
      modifies this
      ensures Tied() && vars == old(vars)[k := e] && flags == old(flags)[k := f]
    {
      flags, vars, held := flags[k := f], vars[k := e], held + Held(f);
      forall x | x in flags ensures SaysWithin(flags[x], vars[x], held) {
        assert x != k ==> old(SaysWithin(flags[x], vars[x], held));
      }
    }

    /** `_findVar` */
    method FindFlags(k: string) returns (f: Option<Flags>)
      requires Valid() && AllTied()
      ensures f.Some? <==> k in Flat()
      ensures f.Some? ==> Says(f.value, Flat()[k])
      ensures f.Some? && k in flags ==> f.value == flags[k]
    {
      var dest: Layer? := this;
      while dest != null
        invariant dest != null ==> dest.Valid() && dest in chain && dest.chain <= chain
        invariant dest != null ==> (k in Flat() <==> k in dest.Flat())
        invariant dest != null && k in Flat() ==> Flat()[k] == dest.Flat()[k]
        invariant dest == null ==> k !in Flat()
        invariant dest != this ==> k !in flags
        decreases if dest == null then {} else dest.chain
      {
        assert dest.Tied();
        if k in dest.flags {
          return Some(dest.flags[k]);
        }
        dest := dest.parent;
      }
      f := None;
    }

    /** `_makeShadowCopy`: give this layer its own flags for k, which hold the same
        lists as the nearest ones below. Says whether a new dictionary was made. */
    method ShadowCopy(k: string) returns (made: bool)
      requires Valid() && AllTied()
      modifies this
      ensures AllTied() && k in vars && vars[k] == NearestIn(old(Flat()), k)
      ensures Flat() == old(Flat())[k := NearestIn(old(Flat()), k)] && old(vars).Keys <= vars.Keys
    {
      made := false;
      var local := FindFlags(k);
      assert Tied();
      if k in flags {
        InOwnLayer(k);
        return;
      }
      ghost var e := NearestIn(Flat(), k);
      if local.Some? && local.value != NO_FLAGS {
        Put(k, local.value, e);
      } else {
        Put(k, NO_FLAGS, NO_ENTRY);
        made := true;
      }
    }

    lemma InOwnLayer(k: string)
      requires Valid() && k in vars
      ensures k in Flat() && Flat()[k] == vars[k] && Flat()[k := vars[k]] == Flat()
    {
    }

    /** `self.dict[k][flag] = value` for a flag that holds text. */
    method SetFlag(k: string, flag: string, value: Value)
      requires Valid() && AllTied() && k in vars
      modifies this
      ensures AllTied() && vars == old(vars)[k := WithFlag(old(vars)[k], flag, value)]
      ensures Flat() == old(Flat())[k := WithFlag(old(vars)[k], flag, value)]
    {
      assert Tied();
      var f := flags[k];
      var g := if flag == "_defaultval" then f.(weak := Some(value))
               else if flag == "_content" then f.(content := Some(value))
               else f.(others := f.others[flag := value]);
      assert SaysWithin(f, vars[k], held);
      Put(k, g, WithFlag(vars[k], flag, value));
    }

    /** A copy of the list of operations queued for k. */
    method CopyOps(k: string, w: Keyword) returns (l: OpList)
      requires Valid() && AllTied()
      ensures fresh(l) && l.ops == OpsFor(NearestIn(Flat(), k), w)
    {
      var found := FindFlags(k);
      l := new OpList(if found.Some? then OpsOf(ListFor(found.value, w)) else []);
    }

    /** Store a list of operations for k. */
    method PutList(k: string, w: Keyword, l: OpList, ghost e: Entry)
      requires Valid() && AllTied() && k in vars && l.ops != [] && e == WithOps(vars[k], w, l.ops)
      modifies this
      ensures AllTied() && Flat() == old(Flat())[k := e]
    {
      assert Tied();
      assert SaysWithin(flags[k], vars[k], held);
      Put(k, WithList(flags[k], w, l), e);
    }

    /** Queue an operation: the list found is copied, and the copy is this layer's own. */
    method Queue(k: string, w: Keyword, op: Op)
      requires Valid() && AllTied()
      modifies this
      ensures AllTied() && Flat() == old(Flat())[k := AddOp(NearestIn(old(Flat()), k), w, op)]
    {
      ghost var was := Flat();
      var l := CopyOps(k, w);
      l.Append(op);
      var made := ShadowCopy(k);
      PutList(k, w, l, AddOp(NearestIn(was, k), w, op));
    }

    /** Take the queued operations away. */
    method DropOps(k: string)
      requires Valid() && AllTied() && k in vars
      modifies this
      ensures AllTied() && vars == old(vars)[k := WithoutOps(old(vars)[k])]
      ensures Flat() == old(Flat())[k := WithoutOps(old(vars)[k])]
    {
      assert Tied();
      assert SaysWithin(flags[k], vars[k], held);
      Put(k, WithoutLists(flags[k]), WithoutOps(vars[k]));
    }

    /** `self.dict[k] = {}` */
    method Clear(k: string)
      requires Valid() && AllTied()
      modifies this
      ensures AllTied() && vars == old(vars)[k := NO_ENTRY] && Flat() == old(Flat())[k := NO_ENTRY]
    {
      Put(k, NO_FLAGS, NO_ENTRY);
    }

    /** The nearest entry as it is now. */
    method Find(k: string) returns (e: Option<Entry>)
      requires Valid() && AllTied()
      ensures e == if k in Flat() then Some(Flat()[k]) else None
    {
      var f := FindFlags(k);
      e := if f.Some? then Some(EntryIn(f.value)) else None;
    }
  }
}
