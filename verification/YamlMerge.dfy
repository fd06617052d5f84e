/** Merging override files into a settings file: `dict_merge` on nested
    dictionaries, and what the merge means on the documents they hold. */
module YamlMerge {
  import opened Wrappers

  /** A loaded document: a dictionary, or anything else taken as a whole. */
  datatype Yaml = Leaf(value: string) | Tree(entries: map<string, Yaml>)

  /** What merging s into t gives: a dictionary is merged into, and stays when s is none. */
  function Merge(t: Yaml, s: Yaml): Yaml
    decreases s
  {
    if !t.Tree? then s
    else if !s.Tree? then t
    else Tree(map k | k in t.entries.Keys + s.entries.Keys ::
                if k !in s.entries then t.entries[k]
                else if k !in t.entries then s.entries[k]
                else Merge(t.entries[k], s.entries[k]))
  }

  /** Merging a then b is merging what b makes of a. */
  lemma {:induction false} MergeAssociates(t: Yaml, a: Yaml, b: Yaml)
    ensures Merge(Merge(t, a), b) == Merge(t, Merge(a, b))
    decreases b
  {
    if t.Tree? && a.Tree? && b.Tree? {
      forall k | k in t.entries && k in a.entries && k in b.entries
        ensures Merge(Merge(t.entries[k], a.entries[k]), b.entries[k])
             == Merge(t.entries[k], Merge(a.entries[k], b.entries[k]))
      {
        MergeAssociates(t.entries[k], a.entries[k], b.entries[k]);
      }
      assert Merge(Merge(t, a), b).entries == Merge(t, Merge(a, b)).entries;
    }
  }

  /** Merging the same document twice is merging it once. */
  lemma {:induction false} MergeIsIdempotent(t: Yaml, s: Yaml)
    ensures Merge(Merge(t, s), s) == Merge(t, s)
    decreases s
  {
    if s.Tree? {
      forall k | k in s.entries
        ensures Merge(s.entries[k], s.entries[k]) == s.entries[k]
        ensures t.Tree? && k in t.entries ==>
                  Merge(Merge(t.entries[k], s.entries[k]), s.entries[k]) == Merge(t.entries[k], s.entries[k])
      {
        MergeIsIdempotent(Leaf(""), s.entries[k]);
        if t.Tree? && k in t.entries {
          MergeIsIdempotent(t.entries[k], s.entries[k]);
        }
      }
      assert Merge(Merge(t, s), s).entries == Merge(t, s).entries;
    }
  }

  // ---------------------------------------------------------------- what stands at a path

  /** What stands at the path of keys, if anything does. */
  function Look(d: Yaml, path: seq<string>): Option<Yaml> {
    if path == [] then Some(d)
    else if d.Tree? && path[0] in d.entries then Look(d.entries[path[0]], path[1..])
    else None
  }

  /** What the source does not name is as it was in the target, and what the target does not name is as it
      is in the source. Where both have something: of two dictionaries the keys of both, a dictionary of
      the target in place of a plain value of the source, and what the source has in place of a plain value. */
  lemma {:induction false} MergeAt(t: Yaml, s: Yaml, path: seq<string>)
    ensures var r, a, b := Look(Merge(t, s), path), Look(t, path), Look(s, path);
            && (b.None? ==> r == a) && (a.None? ==> r == b)
            && (a.Some? && b.Some? ==>
                  && r.Some?
                  && (a.value.Tree? && b.value.Tree? ==>
                        r.value.Tree? && r.value.entries.Keys == a.value.entries.Keys + b.value.entries.Keys)
                  && (a.value.Tree? && b.value.Leaf? ==> r == a)
                  && (a.value.Leaf? ==> r == b))
    decreases |path|
  {
    if path != [] && t.Tree? && s.Tree? && path[0] in t.entries && path[0] in s.entries {
      MergeAt(t.entries[path[0]], s.entries[path[0]], path[1..]);
    }
  }

  // ---------------------------------------------------------------- when every value is overwritten

  /** Every value of s stands in r, at any level. */
  ghost predicate Holds(r: Yaml, s: Yaml)
    decreases s
  {
    match s
    case Leaf(_) => r == s
    case Tree(entries) => r.Tree? && forall k | k in entries :: k in r.entries && Holds(r.entries[k], entries[k])
  }

  /** s has no plain value where t has a dictionary. */
  ghost predicate NoClash(t: Yaml, s: Yaml)
    decreases s
  {
    match s
    case Leaf(_) => !t.Tree?
    case Tree(entries) => t.Tree? ==> forall k | k in entries && k in t.entries :: NoClash(t.entries[k], entries[k])
  }

  lemma {:induction false} HoldsItself(s: Yaml)
    ensures Holds(s, s)
    decreases s
  {
    if s.Tree? {
      forall k | k in s.entries ensures Holds(s.entries[k], s.entries[k]) {
        HoldsItself(s.entries[k]);
      }
    }
  }

  /** The merge overwrites the target with every value of the source exactly when no
      plain value meets a dictionary: such a value is dropped. */
  lemma {:induction false} OverwritesIffNoClash(t: Yaml, s: Yaml)
    ensures Holds(Merge(t, s), s) <==> NoClash(t, s)
    decreases s
  {
    if t.Tree? && s.Tree? {
      forall k | k in s.entries
        ensures k in t.entries ==>
                  (Holds(Merge(t.entries[k], s.entries[k]), s.entries[k]) <==> NoClash(t.entries[k], s.entries[k]))
        ensures k !in t.entries ==> Holds(s.entries[k], s.entries[k])
      {
        if k in t.entries {
          OverwritesIffNoClash(t.entries[k], s.entries[k]);
        } else {
          HoldsItself(s.entries[k]);
        }
      }
      var r := Merge(t, s);
      assert forall k | k in s.entries :: k in r.entries;
      assert forall k | k in s.entries ::
          r.entries[k] == if k in t.entries then Merge(t.entries[k], s.entries[k]) else s.entries[k];
    } else {
      HoldsItself(s);
    }
  }

  /** A concrete clash: the plain value is not written. */
  lemma ClashIsDropped()
    ensures var t, s := Tree(map["a" := Tree(map["b" := Leaf("1")])]), Tree(map["a" := Leaf("2")]);
            Merge(t, s) == t && !Holds(Merge(t, s), s)
  {
    var t, s := Tree(map["a" := Tree(map["b" := Leaf("1")])]), Tree(map["a" := Leaf("2")]);
    assert Merge(t.entries["a"], s.entries["a"]) == t.entries["a"];
    assert Merge(t, s).entries == t.entries;
    OverwritesIffNoClash(t, s);
    assert !NoClash(t.entries["a"], s.entries["a"]);
  }

  /** The overrides in the order given. */
  function MergeAll(t: Yaml, overrides: seq<Yaml>): Yaml {
    if overrides == [] then t else Merge(MergeAll(t, overrides[..|overrides| - 1]), overrides[|overrides| - 1])
  }

  /** Any number of override files can be merged into one first. */
  lemma {:induction false} OverridesAsOne(t: Yaml, overrides: seq<Yaml>)
    requires overrides != []
    ensures MergeAll(t, overrides) == Merge(t, MergeAll(overrides[0], overrides[1..]))
  {
    var n := |overrides| - 1;
    if n == 0 {
      assert overrides[..0] == [] && overrides[1..] == [];
    } else {
      var init := overrides[..n];
      OverridesAsOne(t, init);
      assert overrides[1..][..n - 1] == init[1..];
      MergeAssociates(t, MergeAll(overrides[0], init[1..]), overrides[n]);
    }
  }
}
