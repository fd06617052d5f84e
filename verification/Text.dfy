/** The string operations of the source language that the model needs:
    `startswith`, `endswith`, `rfind`, `split` on one character, `join` and
    `replace(pattern, "")`. */
module Text {
  predicate Distinct(s: seq<string>) {
    forall i, j | 0 <= i < j < |s| :: s[i] != s[j]
  }

  predicate StartsWith(s: string, p: string) {
    |p| <= |s| && s[..|p|] == p
  }

  predicate EndsWith(s: string, t: string) {
    |t| <= |s| && forall i | 0 <= i < |t| :: s[|s| - |t| + i] == t[i]
  }

  /** t stands in s from position i on. */
  predicate StandsAt(s: string, t: string, i: nat) {
    i + |t| <= |s| && forall j | 0 <= j < |t| :: s[i + j] == t[j]
  }

  /** The last position of c in s, or -1. */
  function RFind(s: string, c: char): (r: int)
    ensures -1 <= r < |s|
    ensures r >= 0 ==> s[r] == c
    ensures forall j | r < j < |s| :: s[j] != c
  {
    if s == "" then -1
    else if s[|s| - 1] == c then |s| - 1
    else RFind(s[..|s| - 1], c)
  }

  /** `s.split(c)`: never empty. */
  function Split(s: string, c: char): (parts: seq<string>)
    ensures |parts| > 0
  {
    if s == "" then [""]
    else
      var rest := Split(s[1..], c);
      if s[0] == c then [""] + rest else [[s[0]] + rest[0]] + rest[1..]
  }

  /** Every part preceded by c. */
  function Tail(parts: seq<string>, c: char): string {
    if parts == [] then "" else [c] + parts[0] + Tail(parts[1..], c)
  }

  /** `c.join(parts)` */
  function Join(parts: seq<string>, c: char): string
    requires parts != []
  {
    parts[0] + Tail(parts[1..], c)
  }

  /** `s.replace(pat, "")`: leftmost occurrences, not overlapping. */
  function RemoveAll(s: string, pat: string): (r: string)
    requires pat != ""
    ensures |r| <= |s|
  {
    if |s| < |pat| then s
    else if s[..|pat|] == pat then RemoveAll(s[|pat|..], pat)
    else [s[0]] + RemoveAll(s[1..], pat)
  }

  lemma {:induction false} SplitOfPlain(p: string, c: char)
    requires c !in p
    ensures Split(p, c) == [p]
  {
    if p != "" {
      SplitOfPlain(p[1..], c);
      assert [p[0]] + p[1..] == p;
    }
  }

  lemma {:induction false} SplitStep(p: string, s: string, c: char)
    requires c !in p
    ensures Split(p + [c] + s, c) == [p] + Split(s, c)
  {
    if p == "" {
      assert (p + [c] + s)[1..] == s;
    } else {
      SplitStep(p[1..], s, c);
      assert (p + [c] + s)[1..] == p[1..] + [c] + s;
      assert [p[0]] + p[1..] == p;
    }
  }

  /** Joining parts that do not hold the separator and splitting again gives the parts back. */
  lemma {:induction false} SplitJoin(parts: seq<string>, c: char)
    requires parts != []
    requires forall p | p in parts :: c !in p
    ensures Split(Join(parts, c), c) == parts
  {
    if |parts| == 1 {
      assert Join(parts, c) == parts[0];
      SplitOfPlain(parts[0], c);
    } else {
      SplitJoin(parts[1..], c);
      assert Join(parts, c) == parts[0] + [c] + Join(parts[1..], c);
      SplitStep(parts[0], Join(parts[1..], c), c);
    }
  }

  lemma {:induction false} JoinSplit(s: string, c: char)
    ensures Join(Split(s, c), c) == s
    ensures forall p | p in Split(s, c) :: c !in p
  {
    if s != "" {
      JoinSplit(s[1..], c);
      var rest := Split(s[1..], c);
      if s[0] == c {
        assert Split(s, c)[1..] == rest;
        assert [c] + Join(rest, c) == s;
      } else {
        assert Split(s, c)[1..] == rest[1..];
        assert [s[0]] + Join(rest, c) == s;
      }
    }
  }

  lemma {:induction false} TailAppend(a: seq<string>, b: seq<string>, c: char)
    ensures Tail(a + b, c) == Tail(a, c) + Tail(b, c)
  {
    if a == [] {
      assert a + b == b;
    } else {
      TailAppend(a[1..], b, c);
      assert (a + b)[1..] == a[1..] + b;
    }
  }

  lemma RemoveMatch(pat: string, s: string)
    requires pat != ""
    ensures RemoveAll(pat + s, pat) == RemoveAll(s, pat)
  {
    assert (pat + s)[..|pat|] == pat && (pat + s)[|pat|..] == s;
  }

  lemma RemoveNoMatch(s: string, pat: string)
    requires pat != "" && s != "" && !StartsWith(s, pat)
    ensures RemoveAll(s, pat) == [s[0]] + RemoveAll(s[1..], pat)
  {
  }

  /** A pattern that starts with c is not found inside text without c. */
  lemma {:induction false} RemoveSkipsPlain(p: string, s: string, pat: string)
    requires pat != "" && pat[0] !in p
    ensures RemoveAll(p + s, pat) == p + RemoveAll(s, pat)
  {
    if p == "" {
      assert p + s == s;
    } else {
      var t := p + s;
      assert t[0] == p[0] && t[1..] == p[1..] + s;
      if |pat| <= |t| { assert t[..|pat|][0] != pat[0]; }
      RemoveNoMatch(t, pat);
      RemoveSkipsPlain(p[1..], s, pat);
      assert p == [p[0]] + p[1..];
    }
  }

  lemma RemovePiece(pre: string, pat: string, post: string)
    requires pat != "" && pat[0] !in pre
    ensures RemoveAll(pre + (pat + post), pat) == pre + RemoveAll(post, pat)
  {
    RemoveSkipsPlain(pre, pat + post, pat);
    RemoveMatch(pat, post);
  }
}
