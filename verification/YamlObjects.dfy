/** `dict_merge` on dictionary objects: the target is changed in place, and what it
    takes from the source is copied first. */
module YamlObjects {
  import opened YamlMerge

  datatype Loaded = Plain(value: string) | Sub(dict: Dict)

  class Dict {
    var entries: map<string, Loaded>
    ghost var doc: map<string, Yaml>    // what the entries say
    ghost var repr: set<Dict>           // this object and the dictionaries below it

    ghost predicate Valid()
      reads this, repr
      decreases repr
    {
      && this in repr && entries.Keys == doc.Keys
      && (forall k | k in entries :: Says(k))
      && (forall k, l | k in entries && l in entries && k != l :: ApartAt(k, l))
    }

    /** The entry under k is what doc says, and its dictionaries belong to this one. */
    ghost predicate Says(k: string)
      requires k in entries && k in doc && this in repr
      reads this, repr
      decreases repr, 0
    {
      match entries[k]
      case Plain(value) => doc[k] == Leaf(value)
      case Sub(d) => d in repr && d.repr <= repr - {this} && d.Valid() && doc[k] == Tree(d.doc)
    }

    ghost predicate ApartAt(k: string, l: string)
      requires k in entries && l in entries
      reads this, repr
    {
      entries[k].Sub? && entries[l].Sub? && entries[k].dict in repr && entries[l].dict in repr ==>
        entries[k].dict.repr !! entries[l].dict.repr
    }

    constructor ()
      ensures Valid() && fresh(repr) && entries == map[] && doc == map[] && repr == {this}
    {
      entries, doc := map[], map[];
      repr := {this};
    }

    /** Store a value that shares nothing with this dictionary, under a key that holds no dictionary. */
    method Put(k: string, v: Loaded)
      requires Valid() && (k in entries ==> entries[k].Plain?)
      requires v.Sub? ==> v.dict.Valid() && v.dict.repr !! repr
      modifies this
      ensures Valid() && repr == old(repr) + if v.Sub? then v.dict.repr else {}
      ensures entries == old(entries)[k := v]
      ensures doc == old(doc)[k := if v.Sub? then Tree(v.dict.doc) else Leaf(v.value)]
    {
      entries := entries[k := v];
      doc := doc[k := if v.Sub? then Tree(v.dict.doc) else Leaf(v.value)];
      if v.Sub? {
        repr := repr + v.dict.repr;
      }
      forall l | l in entries ensures Says(l) {
        assert l != k ==> old(Says(l));
      }
      forall m, l | m in entries && l in entries && m != l ensures ApartAt(m, l) {
        assert m != k ==> old(Says(m));
        assert l != k ==> old(Says(l));
        assert m != k && l != k ==> old(ApartAt(m, l));
      }
    }
  }

  ghost function Read(v: Loaded): Yaml
    reads match v case Plain(_) => {} case Sub(d) => {d}
  {
    match v case Plain(value) => Leaf(value) case Sub(d) => Tree(d.doc)
  }

  ghost function Repr(v: Loaded): set<Dict>
    reads match v case Plain(_) => {} case Sub(d) => {d}
  {
    match v case Plain(_) => {} case Sub(d) => d.repr
  }

  ghost predicate ValidValue(v: Loaded)
    reads match v case Plain(_) => {} case Sub(d) => {d} + d.repr
  {
    v.Sub? ==> v.dict.Valid()
  }

  /** `copy.deepcopy` */
  method DeepCopy(v: Loaded) returns (c: Loaded)
    requires ValidValue(v)
    ensures ValidValue(c) && fresh(Repr(c)) && Read(c) == Read(v)
    decreases Repr(v)
  {
    if v.Plain? {
      return v;
    }
    var copy := new Dict();
    var todo := v.dict.entries.Keys;
    ghost var done: set<string> := {};
    while todo != {}
      invariant done + todo == v.dict.entries.Keys && done !! todo
      invariant copy.Valid() && fresh(copy.repr) && copy.entries.Keys == done
      invariant forall k | k in done :: copy.doc[k] == v.dict.doc[k]
      decreases todo
    {
      var k :| k in todo;
      assert v.dict.Says(k);
      var inner := DeepCopy(v.dict.entries[k]);
      copy.Put(k, inner);
      todo, done := todo - {k}, done + {k};
    }
    assert copy.doc == v.dict.doc;
    c := Sub(copy);
  }

  /** `dict_merge`; a source that is no dictionary changes nothing. */
  method DictMerge(target: Dict, source: Loaded)
    requires target.Valid() && ValidValue(source) && Repr(source) !! target.repr
    modifies target.repr
    ensures target.Valid() && fresh(target.repr - old(target.repr))
    ensures Tree(target.doc) == Merge(Tree(old(target.doc)), Read(source))
    decreases Repr(source), 0
  {
    if source.Plain? {
      return;
    }
    ghost var before, from := target.doc, source.dict.doc;
    var todo := source.dict.entries.Keys;
    ghost var done: set<string> := {};
    while todo != {}
      invariant done + todo == source.dict.entries.Keys && done !! todo
      invariant ValidValue(source) && source.dict.doc == from && Repr(source) == old(Repr(source))
      invariant source.dict.entries == old(source.dict.entries)
      invariant target.Valid() && fresh(target.repr - old(target.repr)) && Repr(source) !! target.repr
      invariant target.doc.Keys == before.Keys + done
      invariant forall k | k in target.doc ::
                  target.doc[k] == if k in done then MergedAt(before, k, from[k]) else before[k]
      decreases todo
    {
      var k :| k in todo;
      assert source.dict.Says(k);
      MergeKey(target, k, source.dict.entries[k]);
      todo, done := todo - {k}, done + {k};
    }
    assert target.doc == Merge(Tree(before), Tree(from)).entries;
  }

  function MergedAt(before: map<string, Yaml>, k: string, v: Yaml): Yaml {
    if k in before then Merge(before[k], v) else v
  }

  /** One entry of the source. */
  method MergeKey(target: Dict, k: string, v: Loaded)
    requires target.Valid() && ValidValue(v) && Repr(v) !! target.repr
    modifies target.repr
    ensures target.Valid() && fresh(target.repr - old(target.repr))
    ensures target.doc == old(target.doc)[k := MergedAt(old(target.doc), k, Read(v))]
    decreases Repr(v), 2
  {
    if k in target.entries && target.entries[k].Sub? {
      assert target.Says(k);
      MergeBelow(target, k, v);
    } else {
      assert k in target.entries ==> target.Says(k);
      var c := DeepCopy(v);
      target.Put(k, c);
    }
  }

  method MergeBelow(target: Dict, k: string, v: Loaded)
    requires target.Valid() && ValidValue(v) && Repr(v) !! target.repr && k in target.entries && target.entries[k].Sub?
    modifies target.repr
    ensures target.Valid() && fresh(target.repr - old(target.repr))
    ensures target.doc == old(target.doc)[k := MergedAt(old(target.doc), k, Read(v))]
    decreases Repr(v), 1
  {
    assert target.Says(k);
    var d := target.entries[k].dict;
    ghost var entries, inner := target.entries, d.repr;
    forall l | l in entries && l != k && entries[l].Sub?
      ensures entries[l].dict !in inner && entries[l].dict.repr !! inner
    {
      assert target.Says(l) && target.ApartAt(k, l);
      assert entries[l].dict.Valid();
    }
    DictMerge(d, v);
    target.doc := target.doc[k := Tree(d.doc)];
    target.repr := target.repr + d.repr;
    forall l | l in entries ensures target.Says(l) {
      assert old(target.Says(l));
      if l != k && entries[l].Sub? {
        assert entries[l].dict.Valid();
      }
    }
    forall m, l | m in entries && l in entries && m != l ensures target.ApartAt(m, l) {
      assert old(target.Says(m)) && old(target.Says(l)) && old(target.ApartAt(m, l));
    }
  }

  /** The override files in the order given; none of them is changed. */
  method MergeFiles(data: Dict, overrides: seq<Loaded>, ghost docs: seq<Yaml>)
    requires data.Valid() && |docs| == |overrides|
    requires forall i | 0 <= i < |overrides| ::
               ValidValue(overrides[i]) && Repr(overrides[i]) !! data.repr && Read(overrides[i]) == docs[i]
    modifies data.repr
    ensures data.Valid() && Tree(data.doc) == MergeAll(Tree(old(data.doc)), docs)
    ensures forall i | 0 <= i < |overrides| :: ValidValue(overrides[i]) && Read(overrides[i]) == docs[i]
  {
    for i := 0 to |overrides|
      invariant data.Valid() && fresh(data.repr - old(data.repr))
      invariant Tree(data.doc) == MergeAll(Tree(old(data.doc)), docs[..i])
      invariant forall j | 0 <= j < |overrides| ::
                  ValidValue(overrides[j]) && Repr(overrides[j]) !! data.repr && Read(overrides[j]) == docs[j]
                  && Repr(overrides[j]) == old(Repr(overrides[j]))
    {
      assert docs[..i + 1][..i] == docs[..i];
      DictMerge(data, overrides[i]);
    }
    assert docs[..|docs|] == docs;
  }
}
