/** The multi-process cache: any number of processes save their new entries to
    files of their own while one process merges such files into its cache. */
module MultiProcessCache {
  import opened Wrappers

  /** One cache: a list of dictionaries. */
  type Table = map<string, string>
  type Tables = seq<Table>

  // ---------------------------------------------------------------- merging

  /** `merge_data` on one dictionary: entries that are there stay as they are. */
  function Merged(source: Table, dest: Table): Table {
    source + dest
  }

  ghost predicate Extends(a: Tables, b: Tables) {
    |a| == |b| && forall j | 0 <= j < |a| :: ExtendsTable(a[j], b[j])
  }

  ghost predicate ExtendsTable(a: Table, b: Table) {
    forall h | h in a :: h in b && b[h] == a[h]
  }

  /** Every key of t is in data. */
  ghost predicate Covers(data: Tables, t: Tables) {
    |t| == |data| && forall j | 0 <= j < |t| :: t[j].Keys <= data[j].Keys
  }

  /** What a merge may add: entries of the source only. */
  ghost predicate FromEither(data: Tables, a: Tables, t: Tables) {
    |data| == |a| == |t| &&
    forall j | 0 <= j < |data| :: forall h | h in data[j] ::
      (h in a[j] && data[j][h] == a[j][h]) || (h !in a[j] && h in t[j] && data[j][h] == t[j][h])
  }

  function MergedAll(source: Tables, dest: Tables): Tables
    requires |source| == |dest|
  {
    seq(|dest|, j requires 0 <= j < |dest| => Merged(source[j], dest[j]))
  }

  lemma MergeFacts(source: Tables, dest: Tables)
    requires |source| == |dest|
    ensures var m := MergedAll(source, dest);
            Extends(dest, m) && Covers(m, source) && FromEither(m, dest, source)
  {
  }

  /** `merge_data`, in place. */
  method MergeData(source: Tables, dest: array<Table>)
    requires |source| == dest.Length
    modifies dest
    ensures dest[..] == MergedAll(source, old(dest[..]))
  {
    ghost var before := dest[..];
    for j := 0 to dest.Length
      invariant forall l | 0 <= l < j :: dest[l] == Merged(source[l], before[l])
      invariant forall l | j <= l < dest.Length :: dest[l] == before[l]
    {
      var todo := source[j].Keys;
      while todo != {}
        invariant todo <= source[j].Keys
        invariant forall l | 0 <= l < j :: dest[l] == Merged(source[l], before[l])
        invariant forall l | j < l < dest.Length :: dest[l] == before[l]
        invariant dest[j].Keys == before[j].Keys + (source[j].Keys - todo)
        invariant forall h | h in dest[j] :: dest[j][h] == Merged(source[j], before[j])[h]
        decreases todo
      {
        var h :| h in todo;
        todo := todo - {h};
        if h !in dest[j] {
          dest[j] := dest[j][h := source[j][h]];
        }
      }
    }
  }

  // ---------------------------------------------------------------- one process at a time

  /** An extras file: whole and of the current version, still being written, or
      anything else that does not load. */
  datatype File = Whole(tables: Tables) | Partial | Junk

  /** The cache directory: the extras files by their index, and the cache file. */
  class Directory {
    var extras: map<nat, File>
    var main: Option<Tables>

    constructor ()
      ensures extras == map[] && main.None?
    {
      extras := map[];
      main := None;
    }
  }

  function Occupied(taken: set<nat>, i: nat): set<nat> {
    set x | x in taken && x >= i
  }

  /** `save_extras` when the index locks held by others are those in locked: the
      entries go to the first free index from start on. */
  method SaveExtras(dir: Directory, entries: Tables, start: nat, locked: set<nat>) returns (i: nat)
    modifies dir`extras
    ensures i >= start && i !in locked && i !in old(dir.extras)
    ensures forall x | start <= x < i :: x in locked || x in old(dir.extras)
    ensures dir.extras == old(dir.extras)[i := Whole(entries)]
  {
    i := start;
    while i in locked || i in dir.extras
      invariant i >= start
      invariant forall x | start <= x < i :: x in locked || x in dir.extras
      decreases |Occupied(locked + dir.extras.Keys, i)|
    {
      assert Occupied(locked + dir.extras.Keys, i) == Occupied(locked + dir.extras.Keys, i + 1) + {i};
      i := i + 1;
    }
    dir.extras := dir.extras[i := Whole(entries)];
  }

  /** Every entry of data is in a or comes from one of the files. */
  ghost predicate FromFiles(data: Tables, a: Tables, files: map<nat, File>) {
    |data| == |a| &&
    forall j | 0 <= j < |data| :: forall h | h in data[j] ::
      || (h in a[j] && data[j][h] == a[j][h])
      || (h !in a[j] && exists i | i in files :: InFile(files[i], j, h, data[j][h]))
  }

  predicate InFile(f: File, j: nat, h: string, v: string) {
    f.Whole? && j < |f.tables| && h in f.tables[j] && f.tables[j][h] == v
  }

  lemma MergeStep(start: Tables, before: Tables, after: Tables, files: map<nat, File>, i: nat)
    requires i in files && files[i].Whole? && |files[i].tables| == |before|
    requires after == MergedAll(files[i].tables, before)
    requires Extends(start, before) && FromFiles(before, start, files)
    ensures Extends(start, after) && FromFiles(after, start, files)
    ensures Covers(after, files[i].tables) && forall t | Covers(before, t) :: Covers(after, t)
  {
    MergeFacts(files[i].tables, before);
    forall j, h | 0 <= j < |after| && h in after[j]
      ensures (h in start[j] && after[j][h] == start[j][h])
           || (h !in start[j] && exists x | x in files :: InFile(files[x], j, h, after[j][h]))
    {
      assert Merged(files[i].tables[j], before[j]) == after[j];
      if h !in before[j] {
        assert InFile(files[i], j, h, after[j][h]);
      }
    }
  }

  /** `save_merge`: fold every file into the cache in some order, remove it, and write the cache. */
  method SaveMerge(dir: Directory, cachedata: array<Table>)
    requires forall i | i in dir.extras && dir.extras[i].Whole? :: |dir.extras[i].tables| == cachedata.Length
    modifies dir, cachedata
    ensures dir.extras == map[] && dir.main == Some(cachedata[..])
    ensures Extends(old(cachedata[..]), cachedata[..]) && FromFiles(cachedata[..], old(cachedata[..]), old(dir.extras))
    ensures forall i | i in old(dir.extras) && old(dir.extras)[i].Whole? ::
              Covers(cachedata[..], old(dir.extras)[i].tables)
  {
    ghost var files, start := dir.extras, cachedata[..];
    var todo := dir.extras.Keys;
    while todo != {}
      invariant dir.extras.Keys == todo && todo <= files.Keys && forall i | i in todo :: dir.extras[i] == files[i]
      invariant Extends(start, cachedata[..]) && FromFiles(cachedata[..], start, files)
      invariant forall i | i in files && i !in todo && files[i].Whole? :: Covers(cachedata[..], files[i].tables)
      decreases todo
    {
      var f :| f in todo;
      todo := todo - {f};
      if dir.extras[f].Whole? {
        ghost var before := cachedata[..];
        MergeData(dir.extras[f].tables, cachedata);
        MergeStep(start, before, cachedata[..], files, f);
      }
      dir.extras := dir.extras - {f};
    }
    dir.main := Some(cachedata[..]);
  }
}
