/** Patching the install path inside an executable in place: the interpreter, the
    loader's cache path and the compiler's prefix slots. */
module Relocate {
  type Byte = b: int | 0 <= b < 256

  const OLD_PREFIX: seq<Byte> := [
    // ##DEFAULT_INSTALL_DIR##
    35, 35, 68, 69, 70, 65, 85, 76, 84, 95, 73, 78, 83, 84, 65, 76, 76, 95, 68, 73, 82, 35, 35]

  const SLOT := 4096

  // ---------------------------------------------------------------- what a slot becomes

  predicate StartsWith(s: seq<Byte>, p: seq<Byte>) {
    |p| <= |s| && s[..|p|] == p
  }

  /** `re.sub` of a plain text: every occurrence of old, from left to right, becomes prefix. */
  function Substituted(s: seq<Byte>, pattern: seq<Byte>, prefix: seq<Byte>): seq<Byte>
    requires pattern != []
  {
    if |s| < |pattern| then s
    else if s[..|pattern|] == pattern then prefix + Substituted(s[|pattern|..], pattern, prefix)
    else [s[0]] + Substituted(s[1..], pattern, prefix)
  }

  /** Without the NULs at the end. */
  function Stripped(s: seq<Byte>): (t: seq<Byte>)
    ensures |t| <= |s| && t == s[..|t|] && forall i | |t| <= i < |s| :: s[i] == 0
    ensures t != [] ==> t[|t| - 1] != 0
  {
    if s != [] && s[|s| - 1] == 0 then Stripped(s[..|s| - 1]) else s
  }

  function Padded(t: seq<Byte>, size: nat): (s: seq<Byte>)
    requires |t| <= size
    ensures |s| == size && s[..|t|] == t && forall i | |t| <= i < size :: s[i] == 0
  {
    t + seq(size - |t|, i => 0)
  }

  function NewPath(s: seq<Byte>, prefix: seq<Byte>): seq<Byte> {
    Stripped(Substituted(s, OLD_PREFIX, prefix))
  }

  lemma SubstitutedHere(rest: seq<Byte>, pattern: seq<Byte>, prefix: seq<Byte>)
    requires pattern != []
    ensures Substituted(pattern + rest, pattern, prefix) == prefix + Substituted(rest, pattern, prefix)
  {
    var s := pattern + rest;
    assert s[..|pattern|] == pattern && s[|pattern|..] == rest;
  }

  lemma ByteKept(s: seq<Byte>, pattern: seq<Byte>, prefix: seq<Byte>)
    requires pattern != [] && s != [] && s[0] != pattern[0]
    ensures Substituted(s, pattern, prefix) == [s[0]] + Substituted(s[1..], pattern, prefix)
  {
    assert |pattern| <= |s| ==> s[..|pattern|][0] == s[0];
    assert |s| < |pattern| ==> s == [s[0]] + s[1..];
  }

  /** The pattern is not found in text without its first byte: that text is kept. */
  lemma {:induction false} TextKept(start: seq<Byte>, rest: seq<Byte>, pattern: seq<Byte>, prefix: seq<Byte>)
    requires pattern != [] && pattern[0] !in start
    ensures Substituted(start + rest, pattern, prefix) == start + Substituted(rest, pattern, prefix)
  {
    if start == [] {
      assert start + rest == rest;
    } else {
      var t := start + rest;
      assert t[0] == start[0] && t[1..] == start[1..] + rest;
      ByteKept(t, pattern, prefix);
      TextKept(start[1..], rest, pattern, prefix);
      assert start == [start[0]] + start[1..];
    }
  }

  /** What stands in the place of the pattern after such text. */
  lemma PatternReplaced(start: seq<Byte>, rest: seq<Byte>, pattern: seq<Byte>, prefix: seq<Byte>)
    requires pattern != [] && pattern[0] !in start
    ensures Substituted(start + (pattern + rest), pattern, prefix)
         == start + (prefix + Substituted(rest, pattern, prefix))
  {
    TextKept(start, pattern + rest, pattern, prefix);
    SubstitutedHere(rest, pattern, prefix);
  }

  lemma {:induction false} StripPadded(t: seq<Byte>, size: nat)
    requires |t| <= size && (t != [] ==> t[|t| - 1] != 0)
    ensures Stripped(Padded(t, size)) == t
    decreases size
  {
    var s := Padded(t, size);
    if |t| < size {
      assert s[..size - 1] == Padded(t, size - 1);
      StripPadded(t, size - 1);
    } else {
      assert s == t;
    }
  }

  // ---------------------------------------------------------------- slots of a file

  /** A piece of the file that is rewritten as a whole. */
  datatype Slot = Slot(offset: nat, size: nat)

  predicate Holds(s: Slot, p: nat) {
    s.offset <= p < s.offset + s.size
  }

  predicate Inside(s: Slot, length: nat) {
    s.offset + s.size <= length
  }

  predicate Apart(s: Slot, t: Slot) {
    s.offset + s.size <= t.offset || t.offset + t.size <= s.offset
  }

  ghost predicate AllApart(slots: seq<Slot>, length: nat) {
    (forall i | 0 <= i < |slots| :: Inside(slots[i], length)) &&
    forall i, j | 0 <= i < j < |slots| :: Apart(slots[i], slots[j])
  }

  function Piece(file: seq<Byte>, s: Slot): seq<Byte>
    requires Inside(s, |file|)
  {
    seq(s.size, i requires 0 <= i < s.size => file[s.offset + i])
  }

  /** The slot can be rewritten: what it becomes is shorter than the slot. */
  predicate Fits(file: seq<Byte>, s: Slot, prefix: seq<Byte>)
    requires Inside(s, |file|)
  {
    |NewPath(Piece(file, s), prefix)| < s.size
  }

  /** The slot has been rewritten from what it held before. */
  predicate Rewritten(before: seq<Byte>, now: seq<Byte>, s: Slot, prefix: seq<Byte>)
    requires Inside(s, |before|) && |now| == |before|
  {
    Fits(before, s, prefix) && Piece(now, s) == Padded(NewPath(Piece(before, s), prefix), s.size)
  }

  predicate Untouched(slots: seq<Slot>, p: nat) {
    forall i | 0 <= i < |slots| :: !Holds(slots[i], p)
  }

  /** The slots in done are rewritten, and every byte outside them is as before. */
  ghost predicate Patched(before: seq<Byte>, now: seq<Byte>, done: seq<Slot>, prefix: seq<Byte>) {
    && |now| == |before|
    && (forall i | 0 <= i < |done| :: Inside(done[i], |before|) && Rewritten(before, now, done[i], prefix))
    && forall p | 0 <= p < |before| && Untouched(done, p) :: now[p] == before[p]
  }

  /** A slot that is apart from those rewritten still holds what it held. */
  lemma PieceKept(before: seq<Byte>, now: seq<Byte>, done: seq<Slot>, prefix: seq<Byte>, s: Slot)
    requires Patched(before, now, done, prefix) && Inside(s, |before|)
    requires forall i | 0 <= i < |done| :: Apart(done[i], s)
    ensures Piece(now, s) == Piece(before, s)
  {
    forall p | s.offset <= p < s.offset + s.size ensures now[p] == before[p] {
      assert Untouched(done, p);
    }
  }

  lemma PatchedMore(before: seq<Byte>, now: seq<Byte>, now': seq<Byte>, done: seq<Slot>, prefix: seq<Byte>, s: Slot)
    requires Patched(before, now, done, prefix) && Inside(s, |before|) && |now'| == |now|
    requires forall i | 0 <= i < |done| :: Apart(done[i], s)
    requires Rewritten(now, now', s, prefix)
    requires forall p | 0 <= p < |now| && !Holds(s, p) :: now'[p] == now[p]
    ensures Patched(before, now', done + [s], prefix)
  {
    PieceKept(before, now, done, prefix, s);
    var more := done + [s];
    forall i | 0 <= i < |more| ensures Inside(more[i], |before|) && Rewritten(before, now', more[i], prefix) {
      if i < |done| {
        assert Rewritten(before, now, done[i], prefix);
        assert Piece(now', done[i]) == Piece(now, done[i]);
      }
    }
    forall p | 0 <= p < |before| && Untouched(more, p) ensures now'[p] == before[p] {
      assert more[|done|] == s;
      forall i | 0 <= i < |done| ensures !Holds(done[i], p) { assert more[i] == done[i]; }
    }
  }

  method WriteAt(f: array<Byte>, offset: nat, data: seq<Byte>)
    requires offset + |data| <= f.Length
    modifies f
    ensures forall i | 0 <= i < |data| :: f[offset + i] == data[i]
    ensures forall p | 0 <= p < f.Length && !(offset <= p < offset + |data|) :: f[p] == old(f[p])
  {
    for i := 0 to |data|
      invariant forall j | 0 <= j < i :: f[offset + j] == data[j]
      invariant forall p | 0 <= p < f.Length && !(offset <= p < offset + i) :: f[p] == old(f[p])
    {
      f[offset + i] := data[i];
    }
  }

  /** Read a slot, substitute, pad and write it back; nothing is written when it does not fit. */
  method RewriteSlot(f: array<Byte>, s: Slot, prefix: seq<Byte>) returns (ok: bool)
    requires Inside(s, f.Length)
    modifies f
    ensures ok <==> old(Fits(f[..], s, prefix))
    ensures !ok ==> f[..] == old(f[..])
    ensures ok ==> Rewritten(old(f[..]), f[..], s, prefix)
    ensures ok ==> Stripped(Piece(f[..], s)) == NewPath(old(Piece(f[..], s)), prefix)
    ensures forall p | 0 <= p < f.Length && !Holds(s, p) :: f[p] == old(f[p])
  {
    ghost var before := f[..];
    var path := f[s.offset..s.offset + s.size];
    assert path == Piece(before, s);
    var newPath := NewPath(path, prefix);
    ok := |newPath| < s.size;
    if ok {
      var data := Padded(newPath, s.size);
      WriteAt(f, s.offset, data);
      assert Piece(f[..], s) == data;
      StripPadded(newPath, s.size);
    }
  }

  // ---------------------------------------------------------------- sections

  /** A section header: its name, whether it is SHT_PROGBITS, and where it lies. */
  datatype Section = Section(name: string, progbits: bool, offset: nat, size: nat)

  /** The whole slots of a `.gccrelocprefix` section. */
  function PrefixSlots(offset: nat, n: nat): (slots: seq<Slot>)
    ensures |slots| == n
  {
    if n == 0 then [] else PrefixSlots(offset, n - 1) + [Slot(offset + SLOT * (n - 1), SLOT)]
  }

  /** The slots of the compiler's prefixes: as many whole ones of 4096 bytes as there are, one behind the other. */
  lemma {:induction false} PrefixSlotsAre(offset: nat, n: nat, i: nat)
    requires i < n
    ensures PrefixSlots(offset, n)[i] == Slot(offset + 4096 * i, 4096)
  {
    if i < n - 1 {
      PrefixSlotsAre(offset, n - 1, i);
    }
  }

  lemma SectionSlotsAre(s: Section, i: nat)
    requires s.progbits && s.name == ".gccrelocprefix" && 4096 * (i + 1) <= s.size
    ensures |SectionSlots(s)| == s.size / 4096 && i < |SectionSlots(s)|
    ensures SectionSlots(s)[i] == Slot(s.offset + 4096 * i, 4096)
  {
    PrefixSlotsAre(s.offset, s.size / SLOT, i);
  }

  function SectionSlots(s: Section): seq<Slot> {
    if !s.progbits then []
    else if s.name == ".ldsocache" then [Slot(s.offset, s.size)]
    else if s.name == ".gccrelocprefix" then PrefixSlots(s.offset, s.size / SLOT)
    else []
  }

  function AllSlots(sections: seq<Section>): seq<Slot> {
    if sections == [] then [] else AllSlots(sections[..|sections| - 1]) + SectionSlots(sections[|sections| - 1])
  }

  lemma SlotsApart(all: seq<Slot>, length: nat, done: seq<Slot>, s: Slot)
    requires AllApart(all, length) && done + [s] <= all
    ensures Inside(s, length) && forall i | 0 <= i < |done| :: Apart(done[i], s)
  {
    assert all[|done|] == s;
    forall i | 0 <= i < |done| ensures Apart(done[i], s) { assert all[i] == done[i]; }
  }

  /** One slot of the list; when it does not fit, the file stays as it is. */
  method PatchNext(f: array<Byte>, s: Slot, prefix: seq<Byte>,
                   ghost before: seq<Byte>, ghost all: seq<Slot>, ghost done: seq<Slot>)
    returns (ok: bool)
    requires AllApart(all, f.Length) && done + [s] <= all && Patched(before, f[..], done, prefix)
    modifies f
    ensures Inside(s, |before|) && (ok <==> Fits(before, s, prefix))
    ensures Patched(before, f[..], if ok then done + [s] else done, prefix)
  {
    SlotsApart(all, f.Length, done, s);
    PieceKept(before, f[..], done, prefix, s);
    ghost var now := f[..];
    ok := RewriteSlot(f, s, prefix);
    if ok {
      PatchedMore(before, now, f[..], done, prefix, s);
    }
  }

  /** Every slot up to n fits, and the n-th does not. */
  ghost predicate StopsAt(before: seq<Byte>, all: seq<Slot>, prefix: seq<Byte>, n: nat) {
    && n < |all| && (forall i | 0 <= i <= n :: Inside(all[i], |before|))
    && (forall i | 0 <= i < n :: Fits(before, all[i], prefix)) && !Fits(before, all[n], prefix)
  }

  /** The `.ldsocache` and `.gccrelocprefix` branches of `change_dl_sysdirs`. When a slot does not
      fit the program ends there: n slots are rewritten and the rest of the file is as before. */
  method ChangeSections(f: array<Byte>, sections: seq<Section>, prefix: seq<Byte>) returns (ok: bool, ghost n: nat)
    requires AllApart(AllSlots(sections), f.Length)
    modifies f
    ensures n <= |AllSlots(sections)| && Patched(old(f[..]), f[..], AllSlots(sections)[..n], prefix)
    ensures if ok then n == |AllSlots(sections)| else StopsAt(old(f[..]), AllSlots(sections), prefix, n)
  {
    ghost var before, all := f[..], AllSlots(sections);
    n := 0;
    for i := 0 to |sections|
      invariant n == |AllSlots(sections[..i])| && AllSlots(sections[..i]) <= all
      invariant Patched(before, f[..], AllSlots(sections[..i]), prefix)
    {
      assert sections[..i + 1][..i] == sections[..i];
      SlotsGrow(sections, i + 1);
      ok, n := ChangeSection(f, sections[i], prefix, before, all, AllSlots(sections[..i]));
      if !ok { return; }
    }
    assert sections[..|sections|] == sections;
    assert all[..n] == all;
    ok := true;
  }

  lemma {:induction false} SlotsGrow(sections: seq<Section>, i: nat)
    requires i <= |sections|
    ensures AllSlots(sections[..i]) <= AllSlots(sections)
    decreases |sections|
  {
    if i == |sections| {
      assert sections[..i] == sections;
    } else {
      var init := sections[..|sections| - 1];
      assert init[..i] == sections[..i];
      SlotsGrow(init, i);
    }
  }

  method ChangeSection(f: array<Byte>, s: Section, prefix: seq<Byte>,
                       ghost before: seq<Byte>, ghost all: seq<Slot>, ghost done: seq<Slot>)
    returns (ok: bool, ghost n: nat)
    requires AllApart(all, f.Length) && done + SectionSlots(s) <= all && Patched(before, f[..], done, prefix)
    modifies f
    ensures n <= |all| && Patched(before, f[..], all[..n], prefix)
    ensures if ok then all[..n] == done + SectionSlots(s) else StopsAt(before, all, prefix, n)
  {
    n := |done|;
    ok := true;
    assert all[..n] == done == done + [];
    if s.progbits {
      if s.name == ".ldsocache" {
        ok := PatchNext(f, Slot(s.offset, s.size), prefix, before, all, done);
        if ok {
          n := n + 1;
          assert all[..n] == done + [Slot(s.offset, s.size)];
        } else {
          StoppedHere(before, f[..], all, prefix, done, Slot(s.offset, s.size));
        }
      } else if s.name == ".gccrelocprefix" {
        ok, n := ChangePrefixSlots(f, s.offset, s.size, prefix, before, all, done);
      }
    }
  }

  /** The loop over the slots of a `.gccrelocprefix` section. */
  method ChangePrefixSlots(f: array<Byte>, start: nat, size: nat, prefix: seq<Byte>,
                           ghost before: seq<Byte>, ghost all: seq<Slot>, ghost done: seq<Slot>)
    returns (ok: bool, ghost n: nat)
    requires AllApart(all, f.Length) && done + PrefixSlots(start, size / SLOT) <= all
    requires Patched(before, f[..], done, prefix)
    modifies f
    ensures n <= |all| && Patched(before, f[..], all[..n], prefix)
    ensures if ok then all[..n] == done + PrefixSlots(start, size / SLOT) else StopsAt(before, all, prefix, n)
  {
    var offset := 0;
    ghost var k, slots, m := 0, done, size / SLOT;
    assert done + PrefixSlots(start, 0) == done;
    n := |all|;
    while offset + SLOT <= size
      invariant offset == SLOT * k && k <= m && slots == done + PrefixSlots(start, k)
      invariant Patched(before, f[..], slots, prefix)
    {
      ghost var slot := Slot(start + offset, SLOT);
      NextPrefixSlot(all, done, start, k, m);
      ok := PatchNext(f, Slot(start + offset, SLOT), prefix, before, all, slots);
      if !ok {
        n := |slots|;
        StoppedHere(before, f[..], all, prefix, slots, slot);
        return;
      }
      slots := slots + [slot];
      offset, k := offset + SLOT, k + 1;
    }
    assert k == m;
    ok, n := true, |slots|;
    assert all[..n] == slots;
  }

  lemma NextPrefixSlot(all: seq<Slot>, done: seq<Slot>, start: nat, k: nat, m: nat)
    requires done + PrefixSlots(start, m) <= all && k < m
    ensures done + PrefixSlots(start, k) + [Slot(start + SLOT * k, SLOT)] == done + PrefixSlots(start, k + 1) <= all
  {
    PrefixSlotsGrow(start, k + 1, m);
    assert PrefixSlots(start, k + 1) == PrefixSlots(start, k) + [Slot(start + SLOT * k, SLOT)];
  }

  lemma StoppedHere(before: seq<Byte>, now: seq<Byte>, all: seq<Slot>, prefix: seq<Byte>, done: seq<Slot>, s: Slot)
    requires AllApart(all, |before|) && done + [s] <= all && Patched(before, now, done, prefix)
    requires Inside(s, |before|) && !Fits(before, s, prefix)
    ensures StopsAt(before, all, prefix, |done|) && all[..|done|] == done
  {
    assert all[|done|] == s;
    forall i | 0 <= i < |done| ensures Fits(before, all[i], prefix) {
      assert all[i] == done[i] && Rewritten(before, now, done[i], prefix);
    }
  }

  lemma {:induction false} PrefixSlotsGrow(offset: nat, k: nat, n: nat)
    requires k <= n
    ensures PrefixSlots(offset, k) <= PrefixSlots(offset, n)
    decreases n
  {
    if k < n {
      PrefixSlotsGrow(offset, k, n - 1);
    }
  }

  // ---------------------------------------------------------------- the interpreter

  /** A program header: its type and where it lies. */
  datatype Segment = Segment(kind: nat, offset: nat, size: nat)

  const PT_INTERP := 3

  function Bytes(s: string): seq<Byte>
    requires forall i | 0 <= i < |s| :: s[i] as int < 256
  {
    if s == "" then [] else Bytes(s[..|s| - 1]) + [s[|s| - 1] as int]
  }

  /** Interpreters of the host's own system are left alone. */
  predicate IsSystemPath(name: seq<Byte>) {
    || StartsWith(name, Bytes("/lib/")) || StartsWith(name, Bytes("/lib64/")) || StartsWith(name, Bytes("/lib32/"))
    || StartsWith(name, Bytes("/usr/lib32/")) || StartsWith(name, Bytes("/usr/lib64/"))
  }

  function Text(name: seq<Byte>): string {
    seq(|name|, i requires 0 <= i < |name| => name[i] as char)
  }

  lemma {:induction false} TextOfBytes(s: string)
    requires forall i | 0 <= i < |s| :: s[i] as int < 256
    ensures Text(Bytes(s)) == s
  {
    if s != "" {
      TextOfBytes(s[..|s| - 1]);
    }
  }

  lemma TextStarts(name: seq<Byte>, s: string)
    requires forall i | 0 <= i < |s| :: s[i] as int < 256
    ensures StartsWith(name, Bytes(s)) <==> s <= Text(name)
  {
    TextOfBytes(s);
    var p := Bytes(s);
    assert |p| == |Text(p)| == |s|;
    if s <= Text(name) {
      forall i | 0 <= i < |p| ensures name[i] == p[i] {
        assert Text(name)[i] == s[i] == Text(p)[i];
      }
      assert name[..|p|] == p;
    }
  }

  lemma OldPrefixIs()
    ensures Text(OLD_PREFIX) == "##DEFAULT_INSTALL_DIR##"
  {
  }

  /** Which interpreter paths are left alone; those in `/usr/lib` are not. */
  lemma SystemPathsAre(name: seq<Byte>)
    ensures IsSystemPath(name) <==>
            var t := Text(name);
            "/lib/" <= t || "/lib64/" <= t || "/lib32/" <= t || "/usr/lib32/" <= t || "/usr/lib64/" <= t
    ensures "/usr/lib/" <= Text(name) ==> !IsSystemPath(name)
  {
    TextStarts(name, "/lib/");
    TextStarts(name, "/lib64/");
    TextStarts(name, "/lib32/");
    TextStarts(name, "/usr/lib32/");
    TextStarts(name, "/usr/lib64/");
  }

  /** The eleven bytes that are read are enough to tell. */
  lemma ElevenAreEnough(file: seq<Byte>, offset: nat)
    requires offset <= |file|
    ensures IsSystemPath(NameAt(file, offset)) <==> IsSystemPath(file[offset..])
  {
    var name, rest := NameAt(file, offset), file[offset..];
    SystemPathsAre(name);
    SystemPathsAre(rest);
    assert name == rest[..|name|] && Text(name) == Text(rest)[..|name|];
  }

  /** The position of the first interpreter segment, or the number of headers. */
  function FirstInterpreter(headers: seq<Segment>): (i: nat)
    ensures i <= |headers| && (i < |headers| ==> headers[i].kind == PT_INTERP)
    ensures forall j | 0 <= j < i :: headers[j].kind != PT_INTERP
  {
    if headers == [] then 0
    else
      var n := |headers| - 1;
      var i := FirstInterpreter(headers[..n]);
      if i < n then i else if headers[n].kind == PT_INTERP then n else n + 1
  }

  function SlotOf(h: Segment): Slot {
    Slot(h.offset, h.size)
  }

  /** What `f.read(11)` gives at offset. */
  function NameAt(file: seq<Byte>, offset: nat): seq<Byte> {
    if offset > |file| then [] else file[offset..if offset + 11 <= |file| then offset + 11 else |file|]
  }

  predicate Replaces(file: seq<Byte>, h: Segment, newPath: seq<Byte>) {
    !IsSystemPath(NameAt(file, h.offset)) && |newPath| < h.size
  }

  /** The first interpreter path is the new one, unless it is kept. */
  ghost predicate InterpreterChanged(before: seq<Byte>, now: seq<Byte>, headers: seq<Segment>, newPath: seq<Byte>)
    requires forall h | h in headers && h.kind == PT_INTERP :: Inside(SlotOf(h), |before|)
  {
    var i := FirstInterpreter(headers);
    && |now| == |before|
    && (i < |headers| && Replaces(before, headers[i], newPath) ==>
          Piece(now, SlotOf(headers[i])) == Padded(newPath, headers[i].size))
    && forall p | 0 <= p < |before| &&
         !(i < |headers| && Replaces(before, headers[i], newPath) && Holds(SlotOf(headers[i]), p)) ::
           now[p] == before[p]
  }

  /** `change_interpreter` */
  method ChangeInterpreter(f: array<Byte>, headers: seq<Segment>, newPath: seq<Byte>)
    requires forall h | h in headers && h.kind == PT_INTERP :: Inside(SlotOf(h), f.Length)
    modifies f
    ensures InterpreterChanged(old(f[..]), f[..], headers, newPath)
  {
    ghost var before := f[..];
    for i := 0 to |headers|
      invariant f[..] == before && forall j | 0 <= j < i :: headers[j].kind != PT_INTERP
    {
      var h := headers[i];
      if h.kind == PT_INTERP {
        assert FirstInterpreter(headers) == i;
        assert Inside(SlotOf(h), f.Length);
        var fname := f[h.offset..if h.offset + 11 <= f.Length then h.offset + 11 else f.Length];
        assert fname == NameAt(before, h.offset);
        if IsSystemPath(fname) || h.size == 0 || |newPath| >= h.size {
          return;
        }
        var data := Padded(newPath, h.size);
        WriteAt(f, h.offset, data);
        assert Piece(f[..], SlotOf(h)) == data;
        return;
      }
    }
  }

  /** Both changes to one file: every slot that was rewritten holds what its former contents become, and
      outside the interpreter and the slots no byte changes. */
  method PatchFile(f: array<Byte>, headers: seq<Segment>, sections: seq<Section>, newPath: seq<Byte>, prefix: seq<Byte>)
    returns (ok: bool, ghost n: nat)
    requires forall h | h in headers && h.kind == PT_INTERP :: Inside(SlotOf(h), f.Length)
    requires AllApart(AllSlots(sections), f.Length)
    requires forall h, s | h in headers && h.kind == PT_INTERP && s in AllSlots(sections) :: Apart(SlotOf(h), s)
    modifies f
    ensures n <= |AllSlots(sections)|
    ensures forall i | 0 <= i < n :: Inside(AllSlots(sections)[i], f.Length)
                                     && Rewritten(old(f[..]), f[..], AllSlots(sections)[i], prefix)
    ensures if ok then n == |AllSlots(sections)| else StopsAt(old(f[..]), AllSlots(sections), prefix, n)
    ensures forall h | h in headers && h.kind == PT_INTERP && h == headers[FirstInterpreter(headers)]
                       && Replaces(old(f[..]), h, newPath) :: Piece(f[..], SlotOf(h)) == Padded(newPath, h.size)
    ensures forall p | 0 <= p < f.Length && Untouched(AllSlots(sections), p)
                       && (forall h | h in headers && h.kind == PT_INTERP :: !Holds(SlotOf(h), p)) :: f[p] == old(f[p])
  {
    ghost var before, all := f[..], AllSlots(sections);
    ChangeInterpreter(f, headers, newPath);
    ghost var mid, i := f[..], FirstInterpreter(headers);
    forall s | s in all ensures Inside(s, |before|) && Piece(mid, s) == Piece(before, s) {
      SlotKept(before, mid, headers, newPath, s, all);
    }
    ok, n := ChangeSections(f, sections, prefix);
    forall j | 0 <= j < n ensures Inside(all[j], |before|) && Rewritten(before, f[..], all[j], prefix) {
      assert all[..n][j] == all[j] && all[j] in all;
      assert Rewritten(mid, f[..], all[j], prefix);
    }
    if !ok {
      assert forall j | 0 <= j <= n :: all[j] in all;
    }
    forall p | 0 <= p < f.Length && Untouched(all, p) ensures f[p] == mid[p] {
      assert Untouched(all[..n], p);
    }
    if i < |headers| {
      var h := headers[i];
      assert h in headers;
      forall p | h.offset <= p < h.offset + h.size ensures f[p] == mid[p] {
        forall j | 0 <= j < |all| ensures !Holds(all[j], p) { assert all[j] in all; }
      }
      assert Piece(f[..], SlotOf(h)) == Piece(mid, SlotOf(h));
    }
  }

  lemma SlotKept(before: seq<Byte>, mid: seq<Byte>, headers: seq<Segment>, newPath: seq<Byte>, s: Slot, all: seq<Slot>)
    requires forall h | h in headers && h.kind == PT_INTERP :: Inside(SlotOf(h), |before|) && Apart(SlotOf(h), s)
    requires InterpreterChanged(before, mid, headers, newPath) && AllApart(all, |before|) && s in all
    ensures Inside(s, |before|) && Piece(mid, s) == Piece(before, s)
  {
    var i := FirstInterpreter(headers);
    assert i < |headers| ==> headers[i] in headers;
    forall p | s.offset <= p < s.offset + s.size && s.offset + s.size <= |before| ensures mid[p] == before[p] {
    }
  }
}
