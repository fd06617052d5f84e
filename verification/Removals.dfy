/** What the removals of a variable take out of its value: whole words, and nothing else. */
module Removals {
  import opened Wrappers
  import opened Store

  // ---------------------------------------------------------------- words and spaces

  /** Words, which may be empty, with one space between any two. */
  function Weave(words: seq<Value>, spaces: seq<Tok>): Value
    requires |words| == |spaces| + 1
  {
    if spaces == [] then words[0] else words[0] + [spaces[0]] + Weave(words[1..], spaces[1..])
  }

  ghost predicate Solid(w: Value) {
    forall t | t in w :: !IsSpace(t)
  }

  /** v consists of these words and the spaces between them. */
  ghost predicate Woven(v: Value, words: seq<Value>, spaces: seq<Tok>) {
    && |words| == |spaces| + 1 && (forall w | w in words :: Solid(w)) && (forall t | t in spaces :: IsSpace(t))
    && v == Weave(words, spaces)
  }

  /** The white space of `str.split` and of `\s`, in ASCII. */
  lemma SpacesAre(c: char)
    ensures IsSpace(Ch(c)) <==>
            c in {' ', '\t', '\n', '\U{b}', '\U{c}', '\r', '\U{1c}', '\U{1d}', '\U{1e}', '\U{1f}'}
  {
  }

  lemma WeaveSpace(v: Value, words: seq<Value>, spaces: seq<Tok>, s: Tok)
    requires Woven(v, words, spaces) && IsSpace(s)
    ensures Woven([s] + v, [[]] + words, [s] + spaces)
  {
    assert ([[]] + words)[1..] == words && ([s] + spaces)[1..] == spaces;
    assert forall w | w in [[]] + words :: w == [] || w in words;
    assert [] + [s] + v == [s] + v;
  }

  lemma WeaveSolid(v: Value, words: seq<Value>, spaces: seq<Tok>, t: Tok)
    requires Woven(v, words, spaces) && !IsSpace(t)
    ensures Woven([t] + v, [[t] + words[0]] + words[1..], spaces)
  {
    var more := [[t] + words[0]] + words[1..];
    assert Solid(words[0]);
    assert forall w | w in more :: w == [t] + words[0] || w in words;
    if spaces != [] {
      assert more[1..] == words[1..];
      assert [t] + words[0] + [spaces[0]] + Weave(words[1..], spaces[1..]) == [t] + v;
    }
  }

  lemma {:induction false} WeaveExists(v: Value) returns (words: seq<Value>, spaces: seq<Tok>)
    ensures Woven(v, words, spaces)
  {
    if v == [] {
      words, spaces := [[]], [];
    } else {
      words, spaces := WeaveExists(v[1..]);
      assert v == [v[0]] + v[1..];
      if IsSpace(v[0]) {
        WeaveSpace(v[1..], words, spaces, v[0]);
        words, spaces := [[]] + words, [v[0]] + spaces;
      } else {
        WeaveSolid(v[1..], words, spaces, v[0]);
        words := [[v[0]] + words[0]] + words[1..];
      }
    }
  }

  lemma SpaceIsAfter(w: Value, rest: Value, i: nat)
    requires Solid(w) && i < |w + rest| && IsSpace((w + rest)[i])
    ensures i >= |w|
  {
    assert forall j | 0 <= j < |w| :: (w + rest)[j] == w[j] && w[j] in w;
  }

  lemma FirstSpaces(a: Value, s: Tok, x: Value, b: Value, t: Tok, y: Value)
    requires Solid(a) && Solid(b) && IsSpace(s) && IsSpace(t) && a + [s] + x == b + [t] + y
    ensures a == b && s == t && x == y
  {
    var v := a + [s] + x;
    assert v == a + ([s] + x) && v == b + ([t] + y);
    assert v[|a|] == s && v[|b|] == t;
    SpaceIsAfter(a, [s] + x, |b|);
    SpaceIsAfter(b, [t] + y, |a|);
    assert v[..|a|] == a && v[..|b|] == b && v[|a| + 1..] == x && v[|b| + 1..] == y;
  }

  lemma SpacesShow(v: Value, words: seq<Value>, spaces: seq<Tok>)
    requires Woven(v, words, spaces)
    ensures spaces == [] <==> Solid(v)
  {
    if spaces != [] {
      assert v[|words[0]|] == spaces[0] && spaces[0] in spaces;
    }
  }

  /** There is one way to see a value as words and spaces. */
  lemma {:induction false} WeaveIsOne(v: Value, a: seq<Value>, s: seq<Tok>, b: seq<Value>, t: seq<Tok>)
    requires Woven(v, a, s) && Woven(v, b, t)
    ensures a == b && s == t
    decreases |s|
  {
    SpacesShow(v, a, s);
    SpacesShow(v, b, t);
    if s == [] {
      assert a == [v] && b == [v];
    } else {
      FirstSpaces(a[0], s[0], Weave(a[1..], s[1..]), b[0], t[0], Weave(b[1..], t[1..]));
      WeaveIsOne(Weave(a[1..], s[1..]), a[1..], s[1..], b[1..], t[1..]);
      assert a == [a[0]] + a[1..] && b == [b[0]] + b[1..] && s == [s[0]] + s[1..] && t == [t[0]] + t[1..];
    }
  }

  function NonEmpty(words: seq<Value>): seq<Value> {
    if words == [] then [] else (if words[0] == [] then [] else [words[0]]) + NonEmpty(words[1..])
  }

  /** `v.split()`: the longest stretches without spaces. */
  function WordList(v: Value): (words: seq<Value>)
    ensures v != [] && !IsSpace(v[0]) ==> words != []
  {
    if v == [] then []
    else
      var rest := WordList(v[1..]);
      if IsSpace(v[0]) then rest
      else if |v| == 1 || IsSpace(v[1]) then [[v[0]]] + rest
      else [[v[0]] + rest[0]] + rest[1..]
  }

  lemma WordStart(t: Tok, v: Value)
    requires !IsSpace(t)
    ensures WordList([t] + v) == if v == [] || IsSpace(v[0]) then [[t]] + WordList(v)
                                 else [[t] + WordList(v)[0]] + WordList(v)[1..]
  {
    assert ([t] + v)[1..] == v;
  }

  lemma {:induction false} WordsOfSolid(w: Value, rest: Value)
    requires Solid(w) && (rest == [] || IsSpace(rest[0]))
    ensures WordList(w + rest) == (if w == [] then [] else [w]) + WordList(rest)
  {
    if w == [] {
      assert w + rest == rest;
    } else {
      var tail := w[1..];
      assert w + rest == [w[0]] + (tail + rest);
      assert forall t | t in tail :: t in w;
      WordsOfSolid(tail, rest);
      WordStart(w[0], tail + rest);
      if tail == [] {
        assert tail + rest == rest && [] + WordList(rest) == WordList(rest) && w == [w[0]];
      } else {
        assert (tail + rest)[0] == tail[0] && tail[0] in tail;
        assert ([tail] + WordList(rest))[1..] == WordList(rest) && [w[0]] + tail == w;
      }
    }
  }

  lemma {:induction false} WordsOfWoven(v: Value, words: seq<Value>, spaces: seq<Tok>)
    requires Woven(v, words, spaces)
    ensures WordList(v) == NonEmpty(words)
    decreases |spaces|
  {
    if spaces == [] {
      assert words[1..] == [] && v + [] == v;
      WordsOfSolid(v, []);
    } else {
      var rest := Weave(words[1..], spaces[1..]);
      WordsOfWoven(rest, words[1..], spaces[1..]);
      assert v == words[0] + ([spaces[0]] + rest);
      WordsOfSolid(words[0], [spaces[0]] + rest);
      assert ([spaces[0]] + rest)[1..] == rest;
    }
  }

  // ---------------------------------------------------------------- the pieces of a value

  /** Words and spaces as `re.split` gives them. */
  function Alternate(words: seq<Value>, spaces: seq<Tok>): seq<Value>
    requires |words| == |spaces| + 1
  {
    if spaces == [] then [words[0]] else [words[0], [spaces[0]]] + Alternate(words[1..], spaces[1..])
  }

  lemma PiecesOfSpace(v: Value)
    requires v != [] && IsSpace(v[0])
    ensures Pieces(v) == [[], [v[0]]] + Pieces(v[1..])
  {
  }

  lemma {:induction false} PiecesOfSolid(w: Value, rest: Value)
    requires Solid(w)
    ensures Pieces(w + rest) == [w + Pieces(rest)[0]] + Pieces(rest)[1..]
  {
    if w == [] {
      assert w + rest == rest && [] + Pieces(rest)[0] == Pieces(rest)[0];
    } else {
      var tail := w[1..];
      assert forall t | t in tail :: t in w;
      assert (w + rest)[0] == w[0] && (w + rest)[1..] == tail + rest && w[0] in w;
      PiecesOfSolid(tail, rest);
      assert [w[0]] + (tail + Pieces(rest)[0]) == w + Pieces(rest)[0];
    }
  }

  lemma {:induction false} PiecesOfWoven(v: Value, words: seq<Value>, spaces: seq<Tok>)
    requires Woven(v, words, spaces)
    ensures Pieces(v) == Alternate(words, spaces)
    decreases |spaces|
  {
    if spaces == [] {
      PiecesOfSolid(v, []);
      assert v + [] == v;
    } else {
      var rest := Weave(words[1..], spaces[1..]);
      PiecesOfWoven(rest, words[1..], spaces[1..]);
      assert v == words[0] + ([spaces[0]] + rest) && ([spaces[0]] + rest)[1..] == rest;
      PiecesOfSolid(words[0], [spaces[0]] + rest);
      PiecesOfSpace([spaces[0]] + rest);
      assert words[0] + [] == words[0];
    }
  }

  lemma {:induction false} AlternateMembers(words: seq<Value>, spaces: seq<Tok>, p: Value)
    requires |words| == |spaces| + 1
    ensures p in Alternate(words, spaces) <==> p in words || (exists t | t in spaces :: p == [t])
  {
    if spaces == [] {
      assert words == [words[0]];
    } else {
      AlternateMembers(words[1..], spaces[1..], p);
      assert words == [words[0]] + words[1..] && spaces == [spaces[0]] + spaces[1..];
    }
  }

  lemma {:induction false} NonEmptyMembers(words: seq<Value>, w: Value)
    ensures w in NonEmpty(words) <==> w in words && w != []
  {
    if words != [] {
      NonEmptyMembers(words[1..], w);
      assert words == [words[0]] + words[1..];
    }
  }

  lemma WordsAre(v: Value, w: Value)
    ensures w in Words(v) <==> w in WordList(v)
    ensures w in WordList(v) ==> w in Pieces(v) && w != [] && Solid(w)
  {
    var words, spaces := WeaveExists(v);
    WordsOfWoven(v, words, spaces);
    PiecesOfWoven(v, words, spaces);
    AlternateMembers(words, spaces, w);
    NonEmptyMembers(words, w);
    assert w in words && w != [] ==> Solid(w) && w[0] in w;
  }

  // ---------------------------------------------------------------- taking words out

  /** The words, with those that go made empty. */
  function Emptied(words: seq<Value>, gone: iset<Value>): (left: seq<Value>)
    ensures |left| == |words|
  {
    if words == [] then [] else [if words[0] in gone then [] else words[0]] + Emptied(words[1..], gone)
  }

  /** w is v without the words that go; all other words, and all spaces, are as they were. */
  ghost predicate CutsOut(v: Value, gone: iset<Value>, w: Value) {
    exists words, spaces :: Woven(v, words, spaces) && w == Weave(Emptied(words, gone), spaces)
  }

  /** The words that stay, in their order. */
  function Staying(words: seq<Value>, gone: iset<Value>): seq<Value> {
    if words == [] then [] else (if words[0] in gone then [] else [words[0]]) + Staying(words[1..], gone)
  }

  lemma {:induction false} KeepAppend(a: seq<Value>, b: seq<Value>, gone: set<Value>)
    ensures KeepPieces(a + b, gone) == KeepPieces(a, gone) + KeepPieces(b, gone)
  {
    if b == [] {
      assert a + b == a;
    } else {
      var n := |b| - 1;
      KeepAppend(a, b[..n], gone);
      assert (a + b)[..|a + b| - 1] == a + b[..n];
    }
  }

  lemma KeepOne(p: Value, gone: set<Value>)
    ensures KeepPieces([p], gone) == if p in gone then [] else p
  {
    assert [p][..0] == [] && KeepPieces([], gone) == [] && [] + p == p;
  }

  /** No space is among them. */
  ghost predicate OnlyWords(gone: set<Value>) {
    forall w | w in gone :: w != [] && Solid(w)
  }

  lemma {:induction false} KeepAlternate(words: seq<Value>, spaces: seq<Tok>, gone: set<Value>, all: iset<Value>)
    requires |words| == |spaces| + 1 && OnlyWords(gone) && forall t | t in spaces :: IsSpace(t)
    requires forall w :: w in gone <==> w in all
    ensures KeepPieces(Alternate(words, spaces), gone) == Weave(Emptied(words, all), spaces)
  {
    var left := Emptied(words, all);
    KeepOne(words[0], gone);
    if spaces != [] {
      KeepAlternate(words[1..], spaces[1..], gone, all);
      assert spaces[0] in spaces && spaces[0] in [spaces[0]];
      KeepOne([spaces[0]], gone);
      KeepAppend([words[0]], [[spaces[0]]], gone);
      KeepAppend([words[0], [spaces[0]]], Alternate(words[1..], spaces[1..]), gone);
      assert [words[0]] + [[spaces[0]]] == [words[0], [spaces[0]]];
      assert left[1..] == Emptied(words[1..], all);
    }
  }

  lemma StripCuts(v: Value, gone: set<Value>, all: iset<Value>)
    requires OnlyWords(gone) && forall w :: w in gone <==> w in all
    ensures CutsOut(v, all, Strip(v, gone))
  {
    var words, spaces := WeaveExists(v);
    PiecesOfWoven(v, words, spaces);
    KeepAlternate(words, spaces, gone, all);
  }

  lemma EmptiedIsWoven(v: Value, words: seq<Value>, spaces: seq<Tok>, gone: iset<Value>)
    requires Woven(v, words, spaces)
    ensures Woven(Weave(Emptied(words, gone), spaces), Emptied(words, gone), spaces)
  {
    EmptiedSolid(words, gone);
  }

  lemma {:induction false} EmptiedSolid(words: seq<Value>, gone: iset<Value>)
    requires forall w | w in words :: Solid(w)
    ensures forall w | w in Emptied(words, gone) :: Solid(w)
  {
    if words != [] {
      assert forall w | w in words[1..] :: w in words;
      EmptiedSolid(words[1..], gone);
    }
  }

  lemma {:induction false} EmptiedStay(words: seq<Value>, gone: iset<Value>)
    requires [] !in gone
    ensures NonEmpty(Emptied(words, gone)) == Staying(NonEmpty(words), gone)
  {
    if words != [] {
      var left, rest := Emptied(words, gone), NonEmpty(words[1..]);
      EmptiedStay(words[1..], gone);
      assert left[1..] == Emptied(words[1..], gone);
      assert [] + rest == rest && [] + Staying(rest, gone) == Staying(rest, gone);
      if words[0] != [] {
        assert ([words[0]] + rest)[1..] == rest;
      }
    }
  }

  /** What is cut out is determined; the words left are those that stay, in their order. */
  lemma CutWords(v: Value, gone: iset<Value>, w: Value)
    requires CutsOut(v, gone, w) && [] !in gone
    ensures WordList(w) == Staying(WordList(v), gone)
    ensures (forall u | u in WordList(v) :: u !in gone) ==> w == v
    ensures forall x | CutsOut(v, gone, x) :: x == w
  {
    var words, spaces :| Woven(v, words, spaces) && w == Weave(Emptied(words, gone), spaces);
    WordsOfWoven(v, words, spaces);
    EmptiedIsWoven(v, words, spaces, gone);
    WordsOfWoven(w, Emptied(words, gone), spaces);
    EmptiedStay(words, gone);
    if forall u | u in WordList(v) :: u !in gone {
      forall u | u in words ensures u !in gone {
        NonEmptyMembers(words, u);
      }
      NothingEmptied(words, gone);
    }
    forall x | CutsOut(v, gone, x) ensures x == w {
      var ws, ss :| Woven(v, ws, ss) && x == Weave(Emptied(ws, gone), ss);
      WeaveIsOne(v, words, spaces, ws, ss);
    }
  }

  lemma {:induction false} NothingEmptied(words: seq<Value>, gone: iset<Value>)
    requires forall u | u in words :: u !in gone
    ensures Emptied(words, gone) == words
  {
    if words != [] {
      assert forall u | u in words[1..] :: u in words;
      NothingEmptied(words[1..], gone);
    }
  }

  lemma {:induction false} StayingAre(words: seq<Value>, gone: iset<Value>, w: Value)
    ensures w in Staying(words, gone) <==> w in words && w !in gone
  {
    if words != [] {
      StayingAre(words[1..], gone, w);
      assert words == [words[0]] + words[1..];
    }
  }

  // ---------------------------------------------------------------- in a read

  /** A removal that applies to k: carried along by the variant that was read, or queued for k. */
  ghost predicate IsRemoval(m: View, ov: seq<string>, k: string, sub: Read, q: Value) {
    q in sub.parser.removes || exists op | op in EntryOf(m, k).removes :: Applies(op.cond, ov) && op.value == q
  }

  /** u is a word of the expansion of the removal. */
  ghost predicate HasWord(m: View, ov: seq<string>, q: Value, u: Value) {
    exists e :: Expands(m, ov, None, q, e) && u in WordList(e.value)
  }

  /** The words that the removals take out. */
  ghost function Removable(m: View, ov: seq<string>, k: string, sub: Read): iset<Value> {
    iset u | Takes(m, ov, k, sub, u)
  }

  ghost predicate Takes(m: View, ov: seq<string>, k: string, sub: Read, u: Value) {
    exists q :: IsRemoval(m, ov, k, sub, q) && HasWord(m, ov, q, u)
  }

  lemma {:induction false} ActiveRemovesAre(ops: seq<Op>, ov: seq<string>, q: Value)
    ensures q in ActiveRemoves(ops, ov) <==> exists op | op in ops :: Applies(op.cond, ov) && op.value == q
  {
    if ops != [] {
      var init, op := ops[..|ops| - 1], ops[|ops| - 1];
      ActiveRemovesAre(init, ov, q);
      assert ops == init + [op];
    }
  }

  lemma ExpandsOne(m: View, ov: seq<string>, self: Option<string>, v: Value, e: Expansion, f: Expansion)
    requires Expands(m, ov, self, v, e) && Expands(m, ov, self, v, f)
    ensures e == f
  {
    var i: nat :| Expand(m, ov, i, self, v) == Some(e);
    var j: nat :| Expand(m, ov, j, self, v) == Some(f);
    ExpandDeeper(m, ov, i, Max(i, j), self, v);
    ExpandDeeper(m, ov, j, Max(i, j), self, v);
  }

  lemma RemovalsAre(m: View, ov: seq<string>, k: string, sub: Read, tested: Value, q: Value)
    requires tested != []
    ensures q in ToRemove(m, ov, k, sub, tested) <==> IsRemoval(m, ov, k, sub, q)
  {
    ActiveRemovesAre(EntryOf(m, k).removes, ov, q);
  }

  lemma WordsTaken(m: View, ov: seq<string>, n: nat, q: Value, u: Value)
    requires Expand(m, ov, n, None, q).Some?
    ensures u in Words(Expand(m, ov, n, None, q).value.value) <==> HasWord(m, ov, q, u)
  {
    var e := Expand(m, ov, n, None, q).value;
    assert Expands(m, ov, None, q, e);
    WordsAre(e.value, u);
    forall f | Expands(m, ov, None, q, f) ensures f == e {
      ExpandsOne(m, ov, None, q, e, f);
    }
  }

  /** What the end of a read leaves of the expanded value. */
  lemma RemovedCuts(m: View, ov: seq<string>, n: nat, k: string, sub: Read, raw: Value, x: Expansion, tested: Value)
    requires Removed(m, ov, n, raw, x, ToRemove(m, ov, k, sub, tested)).Some? && (tested == [] ==> x.value == [])
    ensures var r := Removed(m, ov, n, raw, x, ToRemove(m, ov, k, sub, tested)).value;
            && r.parser.value.Some? && CutsOut(x.value, Removable(m, ov, k, sub), r.parser.value.value)
            && forall q :: q in r.parser.removes <==>
                 IsRemoval(m, ov, k, sub, q) && exists u :: u in WordList(x.value) && HasWord(m, ov, q, u)
  {
    var removes, gone := ToRemove(m, ov, k, sub, tested), Removable(m, ov, k, sub);
    if tested == [] {
      CutNothing(gone);
    } else {
      forall q ensures q in removes <==> IsRemoval(m, ov, k, sub, q) {
        RemovalsAre(m, ov, k, sub, tested, q);
      }
      if removes == {} {
        NoneGone(x.value, gone);
      } else {
        var words := map r | r in removes :: Words(Expand(m, ov, n, None, r).value.value);
        forall q, u | q in removes ensures u in words[q] <==> HasWord(m, ov, q, u) {
          WordsTaken(m, ov, n, q, u);
        }
        GoneAre(m, ov, k, sub, words, gone);
        StripCuts(x.value, AllWords(words), gone);
        HitsAre(m, ov, k, sub, words, x.value);
      }
    }
  }

  lemma CutNothing(gone: iset<Value>)
    ensures CutsOut([], gone, [])
  {
    assert Woven([], [[]], []) && Weave(Emptied([[]], gone), []) == [];
  }

  lemma NoneGone(v: Value, gone: iset<Value>)
    requires forall u :: u !in gone
    ensures CutsOut(v, gone, v)
  {
    var words, spaces := WeaveExists(v);
    NothingEmptied(words, gone);
  }

  /** The words of each removal. */
  ghost predicate Taking(m: View, ov: seq<string>, k: string, sub: Read, words: map<Value, set<Value>>) {
    && (forall q :: q in words <==> IsRemoval(m, ov, k, sub, q))
    && forall q, u | q in words :: u in words[q] <==> HasWord(m, ov, q, u)
  }

  lemma GoneAre(m: View, ov: seq<string>, k: string, sub: Read, words: map<Value, set<Value>>, gone: iset<Value>)
    requires Taking(m, ov, k, sub, words) && gone == Removable(m, ov, k, sub)
    ensures OnlyWords(AllWords(words)) && forall u :: u in AllWords(words) <==> u in gone
  {
    forall u ensures u in AllWords(words) <==> u in gone {
      if u in gone {
        var q :| IsRemoval(m, ov, k, sub, q) && HasWord(m, ov, q, u);
        assert q in words && u in words[q];
      }
    }
    forall u | u in AllWords(words) ensures u != [] && Solid(u) {
      var q :| q in words && u in words[q];
      var e :| Expands(m, ov, None, q, e) && u in WordList(e.value);
      WordsAre(e.value, u);
    }
  }

  lemma HitsAre(m: View, ov: seq<string>, k: string, sub: Read, words: map<Value, set<Value>>, v: Value)
    requires Taking(m, ov, k, sub, words)
    ensures forall q :: q in Hits(v, words) <==>
              IsRemoval(m, ov, k, sub, q) && exists u :: u in WordList(v) && HasWord(m, ov, q, u)
  {
    forall q ensures q in Hits(v, words) <==>
                       IsRemoval(m, ov, k, sub, q) && exists u :: u in WordList(v) && HasWord(m, ov, q, u)
    {
      if q in Hits(v, words) {
        var u :| u in Pieces(v) && u in words[q];
        var e :| Expands(m, ov, None, q, e) && u in WordList(e.value);
        WordsAre(e.value, u);
        PieceIsWord(v, u);
      } else if IsRemoval(m, ov, k, sub, q) {
        forall u | u in WordList(v) ensures !HasWord(m, ov, q, u) {
          WordsAre(v, u);
        }
      }
    }
  }

  lemma PieceIsWord(v: Value, u: Value)
    requires u in Pieces(v) && u != [] && Solid(u)
    ensures u in WordList(v)
  {
    assert u[0] in u;
    WordsAre(v, u);
  }

  /** The last part of a read, at some depth. */
  lemma ReadEnds(m: View, ov: seq<string>, k: string, exp: bool, sub: Read, raw: Value, x: Expansion, r: Read)
    returns (n: nat)
    requires ReadsChosen(m, ov, k, sub) && Assemble(m, ov, k, sub) == Some(raw)
    requires Expands(m, ov, Some(k), raw, x) && Reads(m, ov, k, exp, r)
    ensures Removed(m, ov, n, raw, x, ToRemove(m, ov, k, sub, if exp then x.value else raw)) == Some(r)
    ensures raw == [] ==> x.value == []
  {
    var d: nat :| Eval(m, ov, d, k, exp) == Some(r);
    var i := ChosenDepth(m, ov, k, sub);
    var j: nat :| Expand(m, ov, j, Some(k), raw) == Some(x);
    n := Max(d, Max(i, j));
    EvalDeeper(m, ov, d, n + 1, k, exp);
    ExpandDeeper(m, ov, j, n, Some(k), raw);
    assert EvalChosen(m, ov, n, k) == Some(sub);
    if raw == [] {
      assert Pass(m, ov, n, Some(k), []) == Some([]);
    }
  }

  /** The value that a read gives is the expansion without the words of the removals that apply, and the
      removals reported are those of which some word stood in it. */
  lemma ReadCuts(m: View, ov: seq<string>, k: string, exp: bool, sub: Read, raw: Value, x: Expansion, r: Read)
    requires ReadsChosen(m, ov, k, sub) && Assemble(m, ov, k, sub) == Some(raw)
    requires Expands(m, ov, Some(k), raw, x) && Reads(m, ov, k, exp, r)
    ensures r.raw == Some(raw) && r.parser.value.Some? && r.parser.references == x.refs
    ensures CutsOut(x.value, Removable(m, ov, k, sub), r.parser.value.value)
    ensures WordList(r.parser.value.value) == Staying(WordList(x.value), Removable(m, ov, k, sub))
    ensures (forall u | u in WordList(x.value) :: u !in Removable(m, ov, k, sub)) ==> r.parser.value == Some(x.value)
    ensures forall q :: q in r.parser.removes <==>
              IsRemoval(m, ov, k, sub, q) && exists u :: u in WordList(x.value) && HasWord(m, ov, q, u)
  {
    var tested := if exp then x.value else raw;
    var n := ReadEnds(m, ov, k, exp, sub, raw, x, r);
    RemovedKeepsTokens(m, ov, n, raw, x, ToRemove(m, ov, k, sub, tested));
    RemovedCuts(m, ov, n, k, sub, raw, x, tested);
    GoneIsNotEmpty(m, ov, k, sub);
    CutWords(x.value, Removable(m, ov, k, sub), r.parser.value.value);
  }

  /** A read that gives a value has the parts it is made of. */
  lemma ReadParts(m: View, ov: seq<string>, k: string, exp: bool, r: Read) returns (sub: Read, raw: Value, x: Expansion)
    requires Reads(m, ov, k, exp, r) && r.parser.value.Some?
    ensures ReadsChosen(m, ov, k, sub) && Assemble(m, ov, k, sub) == Some(raw) && Expands(m, ov, Some(k), raw, x)
  {
    var n: nat :| Eval(m, ov, n, k, exp) == Some(r);
    sub := EvalChosen(m, ov, n - 1, k).value;
    if Chosen(m, ov, k).Some? {
      assert Eval(m, ov, n - 1, Chosen(m, ov, k).value, false) == Some(sub);
    }
    assert Finish(m, ov, n - 1, k, exp, sub) == Some(r);
    raw := Assemble(m, ov, k, sub).value;
    x := Expand(m, ov, n - 1, Some(k), raw).value;
  }

  lemma GoneIsNotEmpty(m: View, ov: seq<string>, k: string, sub: Read)
    ensures [] !in Removable(m, ov, k, sub)
  {
    if Takes(m, ov, k, sub, []) {
      var q :| IsRemoval(m, ov, k, sub, q) && HasWord(m, ov, q, []);
      var e :| Expands(m, ov, None, q, e) && [] in WordList(e.value);
      WordsAre(e.value, []);
    }
  }
}
