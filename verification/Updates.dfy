/** What the writes of a datastore do to its flattened contents. */
module Updates {
  import opened Wrappers
  import opened Text
  import opened Overrides
  import opened Store

  // ---------------------------------------------------------------- operation names

  datatype Keyword = Append | Prepend | Remove

  function KeywordText(w: Keyword): string {
    match w case Append => ":append" case Prepend => ":prepend" case Remove => ":remove"
  }

  datatype Target = Target(base: string, keyword: Keyword, cond: Option<string>)

  /** What may follow the keyword: nothing, or a colon and text without capitals. */
  predicate IsCondition(s: string) {
    s == "" || (s[0] == ':' && forall c | c in s[1..] :: !('A' <= c <= 'Z'))
  }

  predicate KeywordAt(name: string, i: nat, w: Keyword)
    requires i <= |name|
  {
    StandsAt(name, KeywordText(w), i) && IsCondition(name[i + |KeywordText(w)|..])
  }

  /** The match of the operation pattern against name, looking from position i:
      the leftmost keyword whose rest is a condition. */
  function FindKeyword(name: string, i: nat): Option<Target>
    requires i <= |name|
    decreases |name| - i
  {
    if KeywordAt(name, i, Append) then Some(TargetAt(name, i, Append))
    else if KeywordAt(name, i, Prepend) then Some(TargetAt(name, i, Prepend))
    else if KeywordAt(name, i, Remove) then Some(TargetAt(name, i, Remove))
    else if i == |name| then None
    else FindKeyword(name, i + 1)
  }

  function TargetAt(name: string, i: nat, w: Keyword): Target
    requires i <= |name| && KeywordAt(name, i, w)
  {
    var rest := name[i + |KeywordText(w)|..];
    Target(name[..i], w, if rest == "" then None else Some(rest[1..]))
  }

  /** The variable that `setVar` on name changes. */
  function Written(name: string): string {
    match FindKeyword(name, 0) case Some(t) => t.base case None => name
  }

  function AddOp(e: Entry, w: Keyword, op: Op): Entry {
    match w
    case Append => e.(appends := e.appends + [op])
    case Prepend => e.(prepends := e.prepends + [op])
    case Remove => e.(removes := e.removes + [op])
  }

  function WithoutOps(e: Entry): Entry {
    e.(appends := [], prepends := [], removes := [])
  }

  predicate Contains(s: string, t: string) {
    exists i | 0 <= i <= |s| :: StandsAt(s, t, i)
  }

  /** Names in the operation syntax that is no longer accepted. */
  predicate IsOldSyntax(name: string) {
    && !StartsWith(name, "__anon_")
    && (Contains(name, "_append") || Contains(name, "_prepend") || Contains(name, "_remove"))
  }

  // ---------------------------------------------------------------- recording variants

  type VariantMap = map<string, seq<Variant>>

  predicate StartsName(s: string) {
    s != "" && ('a' <= s[0] <= 'z' || '0' <= s[0] <= '9')
  }

  /** The split of name at position i of a colon; a missing colon (-1) keeps the
      whole name as the override and loses the last character of the base. */
  function OverrideAt(name: string, i: int): string
    requires -1 <= i < |name|
  {
    var start := i + 1;
    seq(|name| - start, j requires 0 <= j < |name| - start => name[start + j])
  }

  function BaseAt(name: string, i: int): string
    requires -1 <= i < |name|
  {
    if i >= 0 then name[..i] else if name == "" then "" else name[..|name| - 1]
  }

  function AddVariant(variants: VariantMap, base: string, v: Variant): VariantMap {
    var known := if base in variants then variants[base] else [];
    variants[base := if v in known then known else known + [v]]
  }

  lemma AddToKnown(variants: VariantMap, known: VariantMap, base: string, v: Variant)
    requires known == if base in variants then variants else variants[base := []]
    ensures AddVariant(variants, base, v) == if v in known[base] then known else known[base := known[base] + [v]]
  {
  }

  /** Record name for base and for every shorter base before a colon in it. */
  function RecordFrom(variants: VariantMap, name: string, suffix: string, base: string): VariantMap
    requires |base| <= |name|
    decreases |base|
  {
    if !StartsName(suffix) then variants
    else
      var added := AddVariant(variants, base, Variant(name, suffix));
      var i := RFind(base, ':');
      if i <= 0 then added
      else RecordFrom(added, name, OverrideAt(name, i), base[..i])
  }

  function Record(variants: VariantMap, name: string): VariantMap {
    var i := RFind(name, ':');
    RecordFrom(variants, name, OverrideAt(name, i), BaseAt(name, i))
  }

  /** `str.islower` on ASCII text. */
  predicate IsLower(s: string) {
    (exists c | c in s :: 'a' <= c <= 'z') && forall c | c in s :: !('A' <= c <= 'Z')
  }

  function WithoutVariant(known: seq<Variant>, v: Variant): seq<Variant> {
    if known == [] then []
    else if known[0] == v then known[1..]
    else [known[0]] + WithoutVariant(known[1..], v)
  }

  function DropVariant(variants: VariantMap, base: string, v: Variant): VariantMap {
    if base in variants then variants[base := WithoutVariant(variants[base], v)] else variants
  }

  function ForgetFrom(variants: VariantMap, name: string, suffix: string, base: string): VariantMap
    requires |base| <= |name|
    decreases |base|
  {
    if !IsLower(suffix) then variants
    else
      var dropped := DropVariant(variants, base, Variant(name, suffix));
      var i := RFind(base, ':');
      if i <= 0 then dropped
      else ForgetFrom(dropped, name, OverrideAt(name, i), base[..i])
  }

  function Forget(variants: VariantMap, name: string): VariantMap {
    var i := RFind(name, ':');
    if i < 0 then variants else ForgetFrom(variants, name, OverrideAt(name, i), BaseAt(name, i))
  }

  // ---------------------------------------------------------------- writes

  function Deleted(m: View, name: string): View {
    View(m.vars[name := NO_ENTRY], Forget(m.variants - {name}, name))
  }

  function AllDeleted(m: View, names: seq<string>): View {
    if names == [] then m
    else Deleted(AllDeleted(m, names[..|names| - 1]), names[|names| - 1])
  }

  /** The active variants, in the order they were recorded. */
  function ActiveNames(variants: seq<Variant>, overrides: seq<string>): seq<string> {
    if variants == [] then []
    else
      var rest, v := ActiveNames(variants[..|variants| - 1], overrides), variants[|variants| - 1];
      if IsActive(v.suffix, overrides) then rest + [v.name] else rest
  }

  /** `setVar` on an operation name. */
  function AfterOp(m: View, t: Target, value: Value): View {
    View(m.vars[t.base := AddOp(EntryOf(m, t.base), t.keyword, Op(value, t.cond))], Record(m.variants, t.base))
  }

  /** A non-parsing `setVar` first takes away the queued operations. */
  function Cleared(m: View, name: string, parsing: bool): View {
    m.(vars := m.vars[name := if parsing then EntryOf(m, name) else WithoutOps(EntryOf(m, name))])
  }

  /** Then the variants that are active, and the record of all variants. */
  function WithoutActive(m: View, name: string, overrides: seq<string>): View {
    if name !in m.variants then m
    else
      var d := AllDeleted(m, ActiveNames(m.variants[name], overrides));
      d.(variants := d.variants - {name})
  }

  function Stored(m: View, name: string, value: Value): View {
    View(m.vars[name := EntryOf(m, name).(content := Some(value))],
         if ':' in name then Record(m.variants, name) else m.variants)
  }

  /** `setVar` on any other name. */
  function AfterSet(m: View, name: string, value: Value, parsing: bool, overrides: seq<string>): View {
    var c := Cleared(m, name, parsing);
    Stored(if parsing then c else WithoutActive(c, name, overrides), name, value)
  }

  function AfterSetVar(m: View, name: string, value: Value, parsing: bool, overrides: seq<string>): View {
    var t := FindKeyword(name, 0);
    if t.Some? then AfterOp(m, t.value, value) else AfterSet(m, name, value, parsing, overrides)
  }

  function AfterFlag(m: View, name: string, flag: string, value: Value): View {
    View(m.vars[name := WithFlag(EntryOf(m, name), flag, value)],
         if flag == "_defaultval" && ':' in name then Record(m.variants, name) else m.variants)
  }

  function WithFlag(e: Entry, flag: string, value: Value): Entry {
    if flag == "_defaultval" then e.(weak := Some(value))
    else if flag == "_content" then e.(content := Some(value))
    else e.(flags := e.flags[flag := value])
  }

  /** The flags for queued operations hold lists and not text. */
  predicate IsTextFlag(flag: string) {
    flag != ":append" && flag != ":prepend" && flag != ":remove"
  }

  // ---------------------------------------------------------------- recorded names

  /** Recording for a base leaves longer bases alone. */
  lemma {:induction false} RecordFromAbove(variants: VariantMap, name: string, suffix: string, base: string, k: string)
    requires |base| < |k| && |base| <= |name|
    ensures var r := RecordFrom(variants, name, suffix, base);
            (k in r <==> k in variants) && (k in variants ==> r[k] == variants[k])
    decreases |base|
  {
    if StartsName(suffix) {
      var i := RFind(base, ':');
      if i > 0 {
        RecordFromAbove(AddVariant(variants, base, Variant(name, suffix)), name, OverrideAt(name, i), base[..i], k);
      }
    }
  }

  /** A variant's name is longer than the base it is recorded for. */
  ghost predicate LongerNames(variants: VariantMap) {
    forall k | k in variants :: LongerThan(variants[k], k)
  }

  ghost predicate LongerThan(known: seq<Variant>, base: string) {
    forall v | v in known :: |v.name| > |base|
  }

  lemma {:induction false} RecordFromKeeps(variants: VariantMap, name: string, suffix: string, base: string)
    requires |base| < |name| && LongerNames(variants)
    ensures LongerNames(RecordFrom(variants, name, suffix, base))
    decreases |base|
  {
    if StartsName(suffix) {
      var i := RFind(base, ':');
      if i > 0 {
        RecordFromKeeps(AddVariant(variants, base, Variant(name, suffix)), name, OverrideAt(name, i), base[..i]);
      }
    }
  }

  lemma RecordKeeps(variants: VariantMap, name: string)
    requires LongerNames(variants)
    ensures LongerNames(Record(variants, name))
  {
    if name != "" {
      var i := RFind(name, ':');
      RecordFromKeeps(variants, name, OverrideAt(name, i), BaseAt(name, i));
    }
  }

  lemma {:induction false} WithoutVariantKeeps(known: seq<Variant>, v: Variant)
    ensures forall w | w in WithoutVariant(known, v) :: w in known
  {
    if known != [] {
      WithoutVariantKeeps(known[1..], v);
      assert forall w | w in known[1..] :: w in known;
    }
  }

  lemma {:induction false} ForgetFromKeeps(variants: VariantMap, name: string, suffix: string, base: string)
    requires |base| <= |name|
    ensures var f := ForgetFrom(variants, name, suffix, base);
            && f.Keys == variants.Keys
            && forall k, v | k in f && v in f[k] :: v in variants[k]
    decreases |base|
  {
    if IsLower(suffix) {
      var d := DropVariant(variants, base, Variant(name, suffix));
      if base in variants {
        WithoutVariantKeeps(variants[base], Variant(name, suffix));
      }
      var i := RFind(base, ':');
      if i > 0 {
        ForgetFromKeeps(d, name, OverrideAt(name, i), base[..i]);
      }
    }
  }

  /** Deleting a variable records nothing new; the only base that goes is the variable itself. */
  lemma DeletedKeeps(m: View, name: string)
    ensures var d := Deleted(m, name);
            && d.variants.Keys == m.variants.Keys - {name}
            && forall k, v | k in d.variants && v in d.variants[k] :: v in m.variants[k]
  {
    var i := RFind(name, ':');
    if i >= 0 {
      ForgetFromKeeps(m.variants - {name}, name, OverrideAt(name, i), BaseAt(name, i));
    }
  }

  lemma {:induction false} AllDeletedKeeps(m: View, names: seq<string>)
    ensures var d := AllDeleted(m, names);
            && (forall k :: k in d.variants <==> k in m.variants && k !in names)
            && (forall k, v | k in d.variants && v in d.variants[k] :: v in m.variants[k])
            && (forall k :: EntryOf(d, k) == if k in names then NO_ENTRY else EntryOf(m, k))
  {
    if names != [] {
      var init, n := names[..|names| - 1], names[|names| - 1];
      AllDeletedKeeps(m, init);
      DeletedKeeps(AllDeleted(m, init), n);
      assert forall x :: x in names <==> x in init || x == n;
      var b, d := AllDeleted(m, init), AllDeleted(m, names);
      assert d == Deleted(b, n);
      forall k ensures EntryOf(d, k) == if k == n then NO_ENTRY else EntryOf(b, k) {
      }
    }
  }

  lemma {:induction false} ActiveNamesAre(variants: seq<Variant>, overrides: seq<string>)
    ensures forall n :: n in ActiveNames(variants, overrides) <==>
              exists v | v in variants :: v.name == n && IsActive(v.suffix, overrides)
  {
    if variants != [] {
      var init, v := variants[..|variants| - 1], variants[|variants| - 1];
      ActiveNamesAre(init, overrides);
      assert forall w :: w in variants <==> w in init || w == v;
    }
  }
}
