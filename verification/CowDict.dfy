/** The copy-on-write dictionary made of a chain of classes: immutable values and
    deletion marks are kept under a key, mutable values under the key with a suffix. */
module CowDict {
  import opened Wrappers

  /** A mutable value: a list of strings that its holders change in place. */
  class Cell {
    var items: seq<string>

    constructor (items: seq<string>)
      ensures this.items == items
    {
      this.items := items;
    }
  }

  datatype Stored = Text(text: string) | Shared(cell: Cell)

  /** What a value says, whoever holds it. */
  datatype Content = Plain(text: string) | Items(items: seq<string>)

  datatype KeyError = KeyError(key: string)

  class Cow {
    var plain: map<string, Option<string>>   // no text marks a deleted key
    var mutable: map<string, Cell>
    const parent: Cow?
    ghost const chain: set<Cow>

    ghost predicate Valid()
      decreases chain
    {
      && this in chain
      && (parent == null ==> chain == {this})
      && (parent != null ==> chain == {this} + parent.chain && this !in parent.chain && parent.Valid())
    }

    /** Attribute lookup: the nearest immutable value or deletion mark under k. */
    function NearPlain(k: string): Option<Option<string>>
      requires Valid()
      reads chain
      decreases chain
    {
      if k in plain then Some(plain[k]) else if parent == null then None else parent.NearPlain(k)
    }

    /** Attribute lookup: the nearest mutable value under k. */
    function NearMutable(k: string): Option<Cell>
      requires Valid()
      reads chain
      decreases chain
    {
      if k in mutable then Some(mutable[k]) else if parent == null then None else parent.NearMutable(k)
    }

    /** An immutable value or a mark for k is in the chain. */
    predicate Shadows(k: string)
      requires Valid()
      reads chain
    {
      NearPlain(k).Some?
    }

    ghost function Cells(): set<Cell>
      requires Valid()
      reads chain
      decreases chain
    {
      mutable.Values + if parent == null then {} else parent.Cells()
    }

    lemma {:induction false} NearIsCell(k: string)
      requires Valid()
      ensures NearMutable(k).Some? ==> NearMutable(k).value in Cells()
      decreases chain
    {
      if parent != null {
        parent.NearIsCell(k);
      }
    }

    lemma {:induction false} NearIsHeld(k: string)
      requires Valid() && NearMutable(k).Some?
      ensures exists c :: c in chain && k in c.mutable && c.mutable[k] == NearMutable(k).value
      ensures allocated(NearMutable(k).value)
      decreases chain
    {
      if k !in mutable {
        parent.NearIsHeld(k);
      }
    }

    lemma {:induction false} CellsAreHeld(x: Cell)
      requires Valid() && x in Cells()
      ensures exists c :: c in chain && x in c.mutable.Values
      decreases chain
    {
      if x !in mutable.Values {
        parent.CellsAreHeld(x);
      }
    }

    /** What reading k gives: an immutable value or mark anywhere in the chain
        comes before every mutable value. */
    ghost function Lookup(k: string): Option<Content>
      requires Valid()
      reads chain, Cells()
    {
      var near := NearPlain(k);
      if near.Some? then (if near.value.Some? then Some(Plain(near.value.value)) else None)
      else
        NearIsCell(k);
        var cell := NearMutable(k);
        if cell.Some? then Some(Items(cell.value.items)) else None
    }

    constructor (parent: Cow?)
      requires parent != null ==> parent.Valid()
      ensures Valid() && this.parent == parent && plain == map[] && mutable == map[]
      ensures chain == {this} + if parent == null then {} else parent.chain
    {
      this.plain, this.mutable := map[], map[];
      this.parent := parent;
      this.chain := {this} + if parent == null then {} else parent.chain;
    }

    /** `cow` and `copy`: a level on top of this one. */
    method Copy() returns (c: Cow)
      requires Valid()
      ensures fresh(c) && c.Valid() && c.parent == this && c.plain == map[] && c.mutable == map[]
      ensures forall k :: c.Lookup(k) == Lookup(k)
    {
      c := new Cow(this);
    }

    /** `__setitem__` */
    method Set(k: string, value: Stored)
      requires Valid()
      modifies this`plain, this`mutable
      ensures match value
              case Text(text) => plain == old(plain)[k := Some(text)] && mutable == old(mutable)
              case Shared(cell) => mutable == old(mutable)[k := cell] && plain == old(plain)
    {
      match value
      case Text(text) => plain := plain[k := Some(text)];
      case Shared(cell) => mutable := mutable[k := cell];
    }

    /** `__delitem__` */
    method Delete(k: string)
      requires Valid()
      modifies this`plain
      ensures plain == old(plain)[k := None]
    {
      plain := plain[k := None];
    }

    /** `__getreadonly__`: a mutable value may be that of another level. */
    method GetReadOnly(k: string) returns (r: Result<Stored, KeyError>)
      requires Valid()
      ensures r.Ok? <==> Lookup(k).Some?
      ensures r.Ok? ==> ContentOf(r.value) == Lookup(k).value
    {
      var near := NearPlain(k);
      if near.Some? {
        return if near.value.Some? then Ok(Text(near.value.value)) else Err(KeyError(k));
      }
      var cell := NearMutable(k);
      r := if cell.Some? then Ok(Shared(cell.value)) else Err(KeyError(k));
    }

    /** `__getitem__`: a mutable value is copied to this level first. */
    method Get(k: string) returns (r: Result<Stored, KeyError>)
      requires Valid()
      modifies this`mutable
      ensures forall x :: Lookup(x) == old(Lookup(x))
      ensures r.Ok? <==> Lookup(k).Some?
      ensures r.Ok? ==> ContentOf(r.value) == Lookup(k).value
      ensures r.Ok? && r.value.Shared? ==> k in mutable && mutable[k] == r.value.cell
      ensures if r.Ok? && r.value.Shared? && k !in old(mutable)
              then fresh(r.value.cell) && mutable == old(mutable)[k := r.value.cell] else mutable == old(mutable)
    {
      var near := NearPlain(k);
      if near.Some? {
        return if near.value.Some? then Ok(Text(near.value.value)) else Err(KeyError(k));
      }
      if k in mutable {
        return Ok(Shared(mutable[k]));
      }
      var cell := NearMutable(k);
      if cell.None? {
        return Err(KeyError(k));
      }
      forall x | NearMutable(x).Some? ensures allocated(NearMutable(x).value) { NearIsHeld(x); }
      var own := new Cell(cell.value.items);
      mutable := mutable[k := own];
      forall x ensures Lookup(x) == old(Lookup(x)) {
        assert NearPlain(x) == old(NearPlain(x));
        assert parent.NearMutable(x) == old(parent.NearMutable(x));
      }
      r := Ok(Shared(own));
    }
  }

  ghost function ContentOf(v: Stored): Content
    reads match v case Text(_) => {} case Shared(cell) => {cell}
  {
    match v case Text(text) => Plain(text) case Shared(cell) => Items(cell.items)
  }

  // ---------------------------------------------------------------- several levels

  /** Levels with everything below them, no two of which share a mutable value. */
  ghost predicate Family(all: set<Cow>)
    reads all
  {
    && (forall c | c in all :: c.Valid() && c.chain <= all)
    && (forall c | c in all :: OneHolder(c))
    && (forall c, d | c in all && d in all && c != d :: c.mutable.Values !! d.mutable.Values)
  }

  /** No two keys of a level share a mutable value. */
  ghost predicate OneHolder(c: Cow)
    reads c
  {
    forall k, l | k in c.mutable && l in c.mutable && k != l :: c.mutable[k] != c.mutable[l]
  }

  lemma OthersCells(all: set<Cow>, child: Cow, other: Cow)
    requires Family(all) && child in all && other in all && child !in other.chain
    ensures other.Cells() !! child.mutable.Values
  {
    forall x | x in other.Cells() ensures x !in child.mutable.Values {
      other.CellsAreHeld(x);
      var c :| c in other.chain && x in c.mutable.Values;
      assert c in all && c != child;
    }
  }

  method DoCopy(below: Cow, ghost all: set<Cow>) returns (c: Cow)
    requires Family(all) && below in all
    ensures fresh(c) && c.parent == below && Family(all + {c})
    ensures forall k :: c.Lookup(k) == below.Lookup(k)
  {
    c := below.Copy();
  }

  /** What a user does with one level; Append changes the list that an ordinary read of k gives. */
  datatype Op =
    | SetText(k: string, text: string)
    | SetItems(k: string, items: seq<string>)
    | Remove(k: string)
    | Append(k: string, item: string)

  /** What reading x gives after op, from what it gave before. shadowed tells
      whether an immutable value or a mark for the key of op is in the chain. */
  function After(op: Op, shadowed: bool, x: string, before: Option<Content>): Option<Content> {
    if x != op.k then before
    else match op
      case SetText(_, text) => Some(Plain(text))
      case SetItems(_, items) => if shadowed then before else Some(Items(items))
      case Remove(_) => None
      case Append(_, item) =>
        if before.Some? && before.value.Items? then Some(Items(before.value.items + [item])) else before
  }

  /** No other key of the chain leads to a mutable value that child holds under k. */
  lemma HeldOnce(all: set<Cow>, child: Cow, k: string, x: string)
    requires Family(all) && child in all && k in child.mutable && x != k
    ensures child.NearMutable(x).Some? ==> child.NearMutable(x).value != child.mutable[k]
  {
    if child.NearMutable(x).Some? {
      child.NearIsHeld(x);
      var c :| c in child.chain && x in c.mutable && c.mutable[x] == child.NearMutable(x).value;
      assert c in all;
      if c != child {
        assert c.mutable[x] in c.mutable.Values && child.mutable[k] in child.mutable.Values;
      }
    }
  }

  lemma AllAllocated(all: set<Cow>)
    requires Family(all)
    ensures forall c, x | c in all && c.NearMutable(x).Some? :: allocated(c.NearMutable(x).value)
  {
    forall c, x | c in all && c.NearMutable(x).Some? ensures allocated(c.NearMutable(x).value) {
      c.NearIsHeld(x);
    }
  }

  method DoSetItems(k: string, items: seq<string>, child: Cow, ghost all: set<Cow>)
    requires Family(all) && child in all
    modifies child
    ensures Family(all) && fresh(child.mutable.Values - old(child.mutable.Values))
    ensures forall x :: child.Lookup(x) == After(SetItems(k, items), old(child.Shadows(k)), x, old(child.Lookup(x)))
    ensures forall c, x | c in all && child !in c.chain :: c.Lookup(x) == old(c.Lookup(x))
  {
    AllAllocated(all);
    var cell := new Cell(items);
    child.Set(k, Shared(cell));
    forall x ensures child.NearPlain(x) == old(child.NearPlain(x)) {
    }
  }

  /** An ordinary read changes what no level reads, and keeps the levels apart. */
  method DoGet(k: string, child: Cow, ghost all: set<Cow>) returns (value: Result<Stored, KeyError>)
    requires Family(all) && child in all
    modifies child
    ensures Family(all) && fresh(child.mutable.Values - old(child.mutable.Values))
    ensures forall x :: child.Lookup(x) == old(child.Lookup(x))
    ensures forall c, x | c in all && child !in c.chain :: c.Lookup(x) == old(c.Lookup(x))
    ensures child.Lookup(k) == if value.Ok? then Some(ContentOf(value.value)) else None
    ensures value.Ok? && value.value.Shared? ==>
              k in child.mutable && child.mutable[k] == value.value.cell && child.NearPlain(k).None?
  {
    AllAllocated(all);
    value := child.Get(k);
  }

  /** Changing the list that child holds under k shows in child under k only. */
  method ChangeHeld(k: string, item: string, child: Cow, ghost all: set<Cow>)
    requires Family(all) && child in all && k in child.mutable
    modifies child.mutable[k]
    ensures child.mutable[k].items == old(child.mutable[k].items) + [item]
    ensures forall x | x != k :: child.Lookup(x) == old(child.Lookup(x))
    ensures forall c, x | c in all && child !in c.chain :: c.Lookup(x) == old(c.Lookup(x))
  {
    forall x | x != k ensures child.NearMutable(x).Some? ==> child.NearMutable(x).value != child.mutable[k] {
      HeldOnce(all, child, k, x);
    }
    forall c, x | c in all && child !in c.chain
      ensures c.NearMutable(x).Some? ==> c.NearMutable(x).value != child.mutable[k]
    {
      OthersCells(all, child, c);
      c.NearIsCell(x);
      assert child.mutable[k] in child.mutable.Values;
    }
    var cell := child.mutable[k];
    cell.items := cell.items + [item];
  }

  method DoAppend(k: string, item: string, child: Cow, ghost all: set<Cow>)
    requires Family(all) && child in all
    modifies child, child.mutable.Values
    ensures Family(all) && fresh(child.mutable.Values - old(child.mutable.Values))
    ensures forall x :: child.Lookup(x) == After(Append(k, item), old(child.Shadows(k)), x, old(child.Lookup(x)))
    ensures forall c, x | c in all && child !in c.chain :: c.Lookup(x) == old(c.Lookup(x))
  {
    var value := DoGet(k, child, all);
    if value.Ok? && value.value.Shared? {
      ChangeHeld(k, item, child, all);
    }
  }

  method Do(op: Op, child: Cow, ghost all: set<Cow>)
    requires Family(all) && child in all
    modifies child, child.mutable.Values
    ensures Family(all) && fresh(child.mutable.Values - old(child.mutable.Values))
    ensures forall x :: child.Lookup(x) == After(op, old(child.Shadows(op.k)), x, old(child.Lookup(x)))
    ensures forall c, x | c in all && child !in c.chain :: c.Lookup(x) == old(c.Lookup(x))
  {
    match op {
      case SetText(k, text) => DoPlain(k, Some(text), child, all);
      case SetItems(k, items) => DoSetItems(k, items, child, all);
      case Remove(k) => DoPlain(k, None, child, all);
      case Append(k, item) => DoAppend(k, item, child, all);
    }
  }

  /** Assigning an immutable value, or a deletion. */
  method DoPlain(k: string, text: Option<string>, child: Cow, ghost all: set<Cow>)
    requires Family(all) && child in all
    modifies child
    ensures Family(all) && child.mutable == old(child.mutable)
    ensures forall x :: child.Lookup(x) ==
              After(if text.Some? then SetText(k, text.value) else Remove(k), old(child.Shadows(k)), x,
                    old(child.Lookup(x)))
    ensures forall c, x | c in all && child !in c.chain :: c.Lookup(x) == old(c.Lookup(x))
  {
    AllAllocated(all);
    if text.Some? {
      child.Set(k, Text(text.value));
    } else {
      child.Delete(k);
    }
    assert forall x :: child.NearMutable(x) == old(child.NearMutable(x));
  }

  /** Whatever is done with one level, no level that does not build on it reads anything else. */
  method DoAll(ops: seq<Op>, child: Cow, ghost all: set<Cow>)
    requires Family(all) && child in all
    modifies child, child.mutable.Values
    ensures Family(all)
    ensures forall c, x | c in all && child !in c.chain :: c.Lookup(x) == old(c.Lookup(x))
  {
    for i := 0 to |ops|
      invariant Family(all) && fresh(child.mutable.Values - old(child.mutable.Values))
      invariant forall c, x | c in all && child !in c.chain :: c.Lookup(x) == old(c.Lookup(x))
    {
      Do(ops[i], child, all);
    }
  }

  /** A level reads back a mutable value it was given exactly when no immutable
      value and no deletion mark for the key is anywhere in its chain. */
  method SetAndReadBack(k: string, items: seq<string>, child: Cow, ghost all: set<Cow>)
    returns (r: Result<Stored, KeyError>)
    requires Family(all) && child in all
    modifies child
    ensures (r.Ok? && r.value.Shared? && ContentOf(r.value) == Items(items)) <==> !old(child.Shadows(k))
  {
    DoSetItems(k, items, child, all);
    r := DoGet(k, child, all);
  }
}
