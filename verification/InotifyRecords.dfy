/** Reading the kernel's event records from a buffer, with and without coalescing. */
module InotifyRecords {

  type Byte = b: int | 0 <= b < 256

  /** A raw event, as `_RawEvent` keeps it. */
  datatype Raw = Raw(wd: int, mask: nat, cookie: nat, name: string)

  // ---------------------------------------------------------------- records in a buffer

  /** Four bytes, the lowest first. */
  function PutWord(x: nat): (w: seq<Byte>)
    requires x < 0x1_0000_0000
    ensures |w| == 4
  {
    var y := x / 256;
    var z := y / 256;
    [x % 256, y % 256, z % 256, z / 256]
  }

  function Word(r: seq<Byte>, i: nat): nat
    requires i + 4 <= |r|
  {
    (r[i] as int) + 256 * ((r[i + 1] as int) + 256 * ((r[i + 2] as int) + 256 * (r[i + 3] as int)))
  }

  /** The bytes w stand in r from i on. */
  predicate StandAt(r: seq<Byte>, i: nat, w: seq<Byte>) {
    i + |w| <= |r| && forall j | 0 <= j < |w| :: r[i + j] == w[j]
  }

  /** The same four bytes as a signed number. */
  function Signed(x: nat): int {
    if x < 0x8000_0000 then x else x - 0x1_0000_0000
  }

  function Unsigned(x: int): nat
    requires -0x8000_0000 <= x < 0x8000_0000
  {
    if x < 0 then x + 0x1_0000_0000 else x
  }

  lemma WordBack(r: seq<Byte>, i: nat, x: nat)
    requires x < 0x1_0000_0000 && StandAt(r, i, PutWord(x))
    ensures Word(r, i) == x
  {
    var w := PutWord(x);
    assert r[i + 0] == w[0] && r[i + 1] == w[1] && r[i + 2] == w[2] && r[i + 3] == w[3];
  }

  lemma StandInParts(r: seq<Byte>, i: nat, a: seq<Byte>, b: seq<Byte>)
    requires StandAt(r, i, a + b)
    ensures StandAt(r, i, a) && StandAt(r, i + |a|, b)
  {
    forall j | 0 <= j < |a| ensures r[i + j] == a[j] { assert (a + b)[j] == a[j]; }
    forall j | 0 <= j < |b| ensures r[i + |a| + j] == b[j] { assert r[i + (|a| + j)] == (a + b)[|a| + j] == b[j]; }
  }

  function Text(bytes: seq<Byte>): string {
    seq(|bytes|, i requires 0 <= i < |bytes| => bytes[i] as char)
  }

  /** The name in n bytes from i on, without the NULs at its end. */
  function NameAt(r: seq<Byte>, i: nat, n: nat): string
    requires i + n <= |r|
  {
    if n > 0 && r[i + n - 1] == 0 then NameAt(r, i, n - 1)
    else seq(n, j requires 0 <= j < n => r[i + j] as char)
  }

  /** What the kernel writes: a header and the name, filled up with NULs. */
  datatype Record = Record(wd: int, mask: nat, cookie: nat, name: seq<Byte>, padding: nat)

  predicate Fits(e: Record) {
    && -0x8000_0000 <= e.wd < 0x8000_0000 && e.mask < 0x1_0000_0000 && e.cookie < 0x1_0000_0000
    && |e.name| + e.padding < 0x1_0000_0000
    && (e.name != [] ==> e.name[|e.name| - 1] != 0)
  }

  function Nuls(n: nat): (s: seq<Byte>)
    ensures |s| == n && forall i | 0 <= i < n :: s[i] == 0
  {
    seq(n, i => 0)
  }

  function Header(e: Record): (h: seq<Byte>)
    requires Fits(e)
    ensures |h| == 16
  {
    PutWord(Unsigned(e.wd)) + (PutWord(e.mask) + (PutWord(e.cookie) + PutWord(|e.name| + e.padding)))
  }

  function Pack(e: Record): seq<Byte>
    requires Fits(e)
  {
    Header(e) + (e.name + Nuls(e.padding))
  }

  function PackAll(es: seq<Record>): seq<Byte>
    requires forall e | e in es :: Fits(e)
  {
    if es == [] then [] else Pack(es[0]) + PackAll(es[1..])
  }

  function RawOf(e: Record): Raw {
    Raw(e.wd, e.mask, e.cookie, Text(e.name))
  }

  function RawsOf(es: seq<Record>): seq<Raw> {
    if es == [] then [] else [RawOf(es[0])] + RawsOf(es[1..])
  }

  // ---------------------------------------------------------------- reading them back

  /** A whole record stands at i. */
  predicate RecordAt(r: seq<Byte>, i: nat) {
    i + 16 <= |r| && i + 16 + Word(r, i + 12) <= |r|
  }

  function RawAt(r: seq<Byte>, i: nat): Raw
    requires RecordAt(r, i)
  {
    var n := Word(r, i + 12);
    Raw(Signed(Word(r, i)), Word(r, i + 4), Word(r, i + 8), NameAt(r, i + 16, n))
  }

  /** Where the fields of a record stand, the lowest byte of each first. */
  lemma LayoutIs(r: seq<Byte>, i: nat, b: seq<int>)
    requires RecordAt(r, i) && |b| == 12 && forall j | 0 <= j < 12 :: r[i + j] == b[j]
    ensures RawAt(r, i).wd == b[0] + 0x100 * b[1] + 0x1_0000 * b[2] + 0x100_0000 * b[3] -
                              (if b[3] < 0x80 then 0 else 0x1_0000_0000)
    ensures RawAt(r, i).mask == b[4] + 0x100 * b[5] + 0x1_0000 * b[6] + 0x100_0000 * b[7]
    ensures RawAt(r, i).cookie == b[8] + 0x100 * b[9] + 0x1_0000 * b[10] + 0x100_0000 * b[11]
  {
    assert r[i] == b[0] && r[i + 1] == b[1] && r[i + 2] == b[2] && r[i + 3] == b[3];
    assert r[i + 4] == b[4] && r[i + 5] == b[5] && r[i + 6] == b[6] && r[i + 7] == b[7];
    assert r[i + 8] == b[8] && r[i + 9] == b[9] && r[i + 10] == b[10] && r[i + 11] == b[11];
  }

  /** The events in the buffer from i on, up to one that is cut off, and where reading stops. */
  function Parse(r: seq<Byte>, i: nat): (p: (seq<Raw>, nat))
    requires i <= |r|
    decreases |r| - i
  {
    if i == |r| || !RecordAt(r, i) then ([], i)
    else
      var rest := Parse(r, i + 16 + Word(r, i + 12));
      ([RawAt(r, i)] + rest.0, rest.1)
  }

  lemma {:induction false} NulsGo(r: seq<Byte>, i: nat, name: seq<Byte>, n: nat)
    requires name != [] ==> name[|name| - 1] != 0
    requires StandAt(r, i, name) && StandAt(r, i + |name|, Nuls(n))
    ensures NameAt(r, i, |name| + n) == Text(name)
  {
    if n == 0 {
      var last := |name| - 1;
      assert name != [] ==> r[i + last] == name[last];
    } else {
      assert r[(i + |name|) + (n - 1)] == Nuls(n)[n - 1];
      assert Nuls(n) == Nuls(n - 1) + [0];
      StandInParts(r, i + |name|, Nuls(n - 1), [0]);
      NulsGo(r, i, name, n - 1);
    }
  }

  lemma HeaderBack(r: seq<Byte>, i: nat, e: Record)
    requires Fits(e) && StandAt(r, i, Header(e))
    ensures Word(r, i) == Unsigned(e.wd) && Word(r, i + 4) == e.mask && Word(r, i + 8) == e.cookie
    ensures Word(r, i + 12) == |e.name| + e.padding
  {
    var n := PutWord(|e.name| + e.padding);
    StandInParts(r, i, PutWord(Unsigned(e.wd)), PutWord(e.mask) + (PutWord(e.cookie) + n));
    StandInParts(r, i + 4, PutWord(e.mask), PutWord(e.cookie) + n);
    StandInParts(r, i + 8, PutWord(e.cookie), n);
    WordBack(r, i, Unsigned(e.wd));
    WordBack(r, i + 4, e.mask);
    WordBack(r, i + 8, e.cookie);
    WordBack(r, i + 12, |e.name| + e.padding);
  }

  /** A packed record is read back as it was, and the next one starts where it ends. */
  lemma RecordBack(r: seq<Byte>, i: nat, e: Record)
    requires Fits(e) && StandAt(r, i, Pack(e))
    ensures RecordAt(r, i) && RawAt(r, i) == RawOf(e) && 16 + Word(r, i + 12) == |Pack(e)|
  {
    StandInParts(r, i, Header(e), e.name + Nuls(e.padding));
    HeaderBack(r, i, e);
    StandInParts(r, i + 16, e.name, Nuls(e.padding));
    NulsGo(r, i + 16, e.name, e.padding);
  }

  /** Reading packed records back gives those events, and ends where they end. */
  lemma {:induction false} AllBack(r: seq<Byte>, i: nat, es: seq<Record>)
    requires forall e | e in es :: Fits(e)
    requires StandAt(r, i, PackAll(es)) && i + |PackAll(es)| == |r|
    ensures Parse(r, i) == (RawsOf(es), |r|)
    decreases |es|
  {
    if es != [] {
      StandInParts(r, i, Pack(es[0]), PackAll(es[1..]));
      assert forall e | e in es[1..] :: e in es;
      RecordBack(r, i, es[0]);
      AllBack(r, i + |Pack(es[0])|, es[1..]);
    }
  }

  lemma BufferBack(es: seq<Record>)
    requires forall e | e in es :: Fits(e)
    ensures Parse(PackAll(es), 0) == (RawsOf(es), |PackAll(es)|)
  {
    AllBack(PackAll(es), 0, es);
  }
}
