/** Which names queue an operation, and which one. */
module OperationNames {
  import opened Wrappers
  import opened Text
  import opened Updates

  predicate NoCapitals(s: string) {
    forall c | c in s :: !('A' <= c <= 'Z')
  }

  /** The condition as it stands behind the keyword. */
  function Behind(cond: Option<string>): string {
    if cond.Some? then ":" + cond.value else ""
  }

  /** The name spells the operation. */
  predicate Spells(name: string, t: Target) {
    name == t.base + KeywordText(t.keyword) + Behind(t.cond) && (t.cond.Some? ==> NoCapitals(t.cond.value))
  }

  lemma SpelledAt(name: string, t: Target)
    requires Spells(name, t)
    ensures |t.base| <= |name| && KeywordAt(name, |t.base|, t.keyword) && TargetAt(name, |t.base|, t.keyword) == t
  {
    var i, word := |t.base|, KeywordText(t.keyword);
    assert name[..i] == t.base && name[i + |word|..] == Behind(t.cond);
    assert forall j | 0 <= j < |word| :: name[i + j] == word[j];
    if t.cond.Some? {
      assert Behind(t.cond)[1..] == t.cond.value;
    }
  }

  lemma AtSpells(name: string, i: nat, w: Keyword)
    requires i <= |name| && KeywordAt(name, i, w)
    ensures Spells(name, TargetAt(name, i, w)) && |TargetAt(name, i, w).base| == i
  {
    var word := KeywordText(w);
    var rest := name[i + |word|..];
    assert name[i..i + |word|] == word;
    assert name == name[..i] + word + rest;
    if rest != "" {
      assert rest == ":" + rest[1..];
    }
  }

  /** Their second letters tell the keywords apart. */
  lemma OneKeyword(name: string, i: nat, w: Keyword, w': Keyword)
    requires StandsAt(name, KeywordText(w), i) && StandsAt(name, KeywordText(w'), i)
    ensures w == w'
  {
    assert name[i + 1] == KeywordText(w)[1] == KeywordText(w')[1];
    assert name[i + 2] == KeywordText(w)[2] == KeywordText(w')[2];
  }

  ghost predicate NoneAt(name: string, i: nat)
    requires i <= |name|
  {
    forall w :: !KeywordAt(name, i, w)
  }

  lemma SpelledShortest(name: string, i: nat, n: nat)
    requires i < n && i <= |name| && forall u | Spells(name, u) :: n <= |u.base|
    ensures NoneAt(name, i)
  {
    forall w ensures !KeywordAt(name, i, w) {
      if KeywordAt(name, i, w) {
        AtSpells(name, i, w);
      }
    }
  }

  lemma StepOn(name: string, i: nat)
    requires i < |name| && NoneAt(name, i)
    ensures FindKeyword(name, i) == FindKeyword(name, i + 1)
  {
  }

  lemma {:induction false} SkipTo(name: string, i: nat, n: nat)
    requires i <= n <= |name| && forall j | i <= j < n :: NoneAt(name, j)
    ensures FindKeyword(name, i) == FindKeyword(name, n)
    decreases n - i
  {
    if i < n {
      StepOn(name, i);
      SkipTo(name, i + 1, n);
    }
  }

  lemma StopHere(name: string, i: nat, w: Keyword)
    requires i <= |name| && KeywordAt(name, i, w)
    ensures FindKeyword(name, i) == Some(TargetAt(name, i, w))
  {
    forall w' | KeywordAt(name, i, w') ensures w' == w {
      OneKeyword(name, i, w, w');
    }
  }

  lemma Found(name: string, t: Target)
    requires Spells(name, t) && forall u | Spells(name, u) :: |t.base| <= |u.base|
    ensures FindKeyword(name, 0) == Some(t)
  {
    SpelledAt(name, t);
    forall j | 0 <= j < |t.base| ensures NoneAt(name, j) {
      SpelledShortest(name, j, |t.base|);
    }
    SkipTo(name, 0, |t.base|);
    StopHere(name, |t.base|, t.keyword);
  }

  lemma NotFound(name: string)
    requires forall t :: !Spells(name, t)
    ensures FindKeyword(name, 0).None?
  {
    forall j | 0 <= j <= |name| ensures NoneAt(name, j) {
      SpelledShortest(name, j, |name| + 1);
    }
    SkipTo(name, 0, |name|);
  }

  lemma {:induction false} ShortestSpelled(name: string, t: Target) returns (u: Target)
    requires Spells(name, t)
    ensures Spells(name, u) && forall v | Spells(name, v) :: |u.base| <= |v.base|
    decreases |t.base|
  {
    if v :| Spells(name, v) && |v.base| < |t.base| {
      u := ShortestSpelled(name, v);
    } else {
      u := t;
    }
  }

  /** A name queues the operation that it spells with the shortest base, and none if it spells none. */
  lemma FindKeywordIs(name: string, t: Target)
    ensures FindKeyword(name, 0) == Some(t) <==>
            Spells(name, t) && forall u | Spells(name, u) :: |t.base| <= |u.base|
    ensures FindKeyword(name, 0).None? <==> forall u :: !Spells(name, u)
  {
    if u :| Spells(name, u) {
      var v := ShortestSpelled(name, u);
      Found(name, v);
      if Spells(name, t) && forall x | Spells(name, x) :: |t.base| <= |x.base| {
        Found(name, t);
      }
    } else {
      NotFound(name);
    }
  }

  /** No operation word stands in it. */
  ghost predicate NoKeyword(s: string) {
    !Contains(s, ":append") && !Contains(s, ":prepend") && !Contains(s, ":remove")
  }

  lemma OccursInside(s: string, word: string, rest: string, i: nat)
    requires word != "" && ':' !in word[1..] && rest != "" && rest[0] == ':'
    requires StandsAt(s + rest, word, i) && i < |s|
    ensures Contains(s, word)
  {
    if i + |word| > |s| {
      ColonInside(s, word, rest, i);
    }
    assert forall j | 0 <= j < |word| :: s[i + j] == word[j];
    assert StandsAt(s, word, i);
  }

  lemma ColonInside(s: string, word: string, rest: string, i: nat)
    requires rest != "" && rest[0] == ':' && StandsAt(s + rest, word, i) && i < |s| < i + |word|
    ensures ':' in word[1..]
  {
    var j := |s| - i;
    assert (s + rest)[i + j] == ':' == word[j] == word[1..][j - 1];
  }

  lemma KeywordInside(base: string, rest: string, w: Keyword, i: nat)
    requires StandsAt(base + rest, KeywordText(w), i) && i < |base| && rest != "" && rest[0] == ':'
    ensures !NoKeyword(base)
  {
    OccursInside(base, KeywordText(w), rest, i);
  }

  lemma BaseIsShortest(base: string, rest: string, u: Target)
    requires NoKeyword(base) && rest != "" && rest[0] == ':' && Spells(base + rest, u)
    ensures |u.base| >= |base|
  {
    SpelledAt(base + rest, u);
    if |u.base| < |base| {
      KeywordInside(base, rest, u.keyword, |u.base|);
    }
  }

  /** A variable's name without an operation word, with one behind it and perhaps a condition. */
  lemma OperationIsFound(base: string, cond: Option<string>)
    requires NoKeyword(base) && (cond.Some? ==> NoCapitals(cond.value))
    ensures FindKeyword(base + ":append" + Behind(cond), 0) == Some(Target(base, Append, cond))
    ensures FindKeyword(base + ":prepend" + Behind(cond), 0) == Some(Target(base, Prepend, cond))
    ensures FindKeyword(base + ":remove" + Behind(cond), 0) == Some(Target(base, Remove, cond))
  {
    KeywordIsFound(base, Append, cond);
    KeywordIsFound(base, Prepend, cond);
    KeywordIsFound(base, Remove, cond);
  }

  lemma KeywordIsFound(base: string, w: Keyword, cond: Option<string>)
    requires NoKeyword(base) && (cond.Some? ==> NoCapitals(cond.value))
    ensures FindKeyword(base + KeywordText(w) + Behind(cond), 0) == Some(Target(base, w, cond))
  {
    var name := base + KeywordText(w) + Behind(cond);
    assert name == base + (KeywordText(w) + Behind(cond));
    forall u | Spells(name, u) ensures |base| <= |u.base| {
      BaseIsShortest(base, KeywordText(w) + Behind(cond), u);
    }
    Found(name, Target(base, w, cond));
  }

  /** A name in which no operation word stands queues nothing. */
  lemma OrdinaryName(name: string)
    requires NoKeyword(name)
    ensures FindKeyword(name, 0).None?
  {
    forall u ensures !Spells(name, u) {
      if Spells(name, u) {
        SpelledAt(name, u);
        assert Contains(name, KeywordText(u.keyword));
      }
    }
    NotFound(name);
  }

  /** Nor does one whose condition has a capital, if that holds no operation word either. */
  lemma CapitalIsNoCondition(base: string, w: Keyword, cond: string)
    requires NoKeyword(base) && NoKeyword(":" + cond) && !NoCapitals(cond)
    ensures FindKeyword(base + KeywordText(w) + ":" + cond, 0).None?
  {
    var name := base + KeywordText(w) + ":" + cond;
    assert name == base + (KeywordText(w) + (":" + cond));
    forall u ensures !Spells(name, u) {
      if Spells(name, u) {
        BaseIsShortest(base, KeywordText(w) + (":" + cond), u);
        CapitalAt(base, w, cond, u);
      }
    }
    NotFound(name);
  }

  lemma ColonIsFirst(pre: string, word: string, post: string, i: int)
    requires word != "" && ':' !in word[1..] && |pre| < i < |pre| + |word|
    ensures (pre + word + post)[i] != ':'
  {
    assert (pre + word + post)[i] == word[i - |pre|] == word[1..][i - |pre| - 1];
  }

  lemma StandsLater(pre: string, rest: string, word: string, i: nat)
    requires StandsAt(pre + rest, word, i) && i >= |pre|
    ensures Contains(rest, word)
  {
    var k := i - |pre|;
    assert forall j | 0 <= j < |word| :: rest[k + j] == word[j];
    assert StandsAt(rest, word, k);
  }

  /** A spelling with the same base has the same keyword and the rest for its condition. */
  lemma SameBase(base: string, w: Keyword, rest: string, u: Target)
    requires Spells(base + KeywordText(w) + rest, u) && |u.base| == |base|
    ensures Behind(u.cond) == rest
  {
    var word := KeywordText(w);
    var name, i := base + word + rest, |base|;
    SpelledAt(name, u);
    assert forall j | 0 <= j < |word| :: name[i + j] == word[j];
    OneKeyword(name, i, w, u.keyword);
    assert name == u.base + word + Behind(u.cond);
    assert name[i + |word|..] == rest && name[i + |word|..] == Behind(u.cond);
  }

  lemma NotInKeyword(base: string, w: Keyword, rest: string, u: Target)
    requires Spells(base + KeywordText(w) + rest, u) && |base| < |u.base|
    ensures |base| + |KeywordText(w)| <= |u.base|
  {
    var word := KeywordText(w);
    var name, i := base + word + rest, |u.base|;
    SpelledAt(name, u);
    assert name[i] == KeywordText(u.keyword)[0] == ':';
    if i < |base| + |word| {
      ColonIsFirst(base, word, rest, i);
    }
  }

  lemma CapitalAt(base: string, w: Keyword, cond: string, u: Target)
    requires Spells(base + KeywordText(w) + ":" + cond, u) && |u.base| >= |base| && NoKeyword(":" + cond)
    ensures NoCapitals(cond)
  {
    var word, rest := KeywordText(w), ":" + cond;
    assert base + word + ":" + cond == base + word + rest;
    if |u.base| == |base| {
      SameBase(base, w, rest, u);
      assert Behind(u.cond)[1..] == cond;
    } else {
      NotInKeyword(base, w, rest, u);
      SpelledAt(base + word + rest, u);
      StandsLater(base + word, rest, KeywordText(u.keyword), |u.base|);
    }
  }

  // ---------------------------------------------------------------- names that are refused

  lemma StandsWithin(s: string, t: string)
    ensures Contains(s, t) <==> exists a, b :: s == a + t + b
  {
    if i :| 0 <= i <= |s| && StandsAt(s, t, i) {
      assert s[i..i + |t|] == t;
      assert s == s[..i] + t + s[i + |t|..];
    }
    forall a, b | s == a + t + b ensures Contains(s, t) {
      assert StandsAt(s, t, |a|);
    }
  }

  /** The names refused are those with a keyword behind an underscore, other than the names of anonymous functions. */
  lemma OldSyntaxIs(name: string)
    ensures IsOldSyntax(name) <==>
            && !("__anon_" <= name)
            && exists a, w, b | w in {"_append", "_prepend", "_remove"} :: name == a + w + b
  {
    StandsWithin(name, "_append");
    StandsWithin(name, "_prepend");
    StandsWithin(name, "_remove");
  }
}
