/** The lists that evaluating OVERRIDES again and again goes through. */
module OverrideLists {
  import opened Wrappers
  import opened Store
  import opened Steady

  /** OVERRIDES, read under one list, gives the other. */
  ghost predicate ListUnder(m: View, overrides: seq<string>, list: seq<string>) {
    exists r :: Reads(m, overrides, "OVERRIDES", true, r) && OverrideList(r.parser.value) == list
  }

  /** The list is what OVERRIDES evaluates to under that same list. */
  ghost predicate FixedPoint(m: View, overrides: seq<string>) {
    ListUnder(m, overrides, overrides)
  }

  /** The lists that successive rounds go through: the first is OVERRIDES with
      no override active, each next one is OVERRIDES under the one before. */
  ghost predicate ListChain(m: View, lists: seq<seq<string>>) {
    && lists != []
    && ListUnder(m, [], lists[0])
    && forall i | 0 < i < |lists| :: ListUnder(m, lists[i - 1], lists[i]) && lists[i - 1] != lists[i]
  }

  /** The list was reached within five rounds, by repeating the evaluation until it changed nothing. */
  ghost predicate Reached(m: View, list: seq<string>) {
    exists lists :: ListChain(m, lists) && |lists| <= 5 && lists[|lists| - 1] == list && ListUnder(m, list, list)
  }

  /** Five rounds changed the list every time. */
  ghost predicate KeepsChanging(m: View) {
    exists lists :: ListChain(m, lists) && |lists| == 6
  }

  ghost predicate CachedList(cache: map<string, Parser>, list: seq<string>) {
    "OVERRIDES" in cache && OverrideList(cache["OVERRIDES"].value) == list
  }

  /** After some rounds that changed the list each time. */
  ghost predicate RoundsDone(m: View, lists: seq<seq<string>>, count: nat, list: Option<seq<string>>) {
    ListChain(m, lists) && |lists| == count + 1 && list == Some(lists[|lists| - 1])
  }

  lemma ChainStarts(m: View, first: seq<string>)
    requires ListUnder(m, [], first)
    ensures ListChain(m, [first])
  {
  }

  lemma ChainGrows(m: View, lists: seq<seq<string>>, next: seq<string>)
    requires ListChain(m, lists) && ListUnder(m, lists[|lists| - 1], next) && lists[|lists| - 1] != next
    ensures ListChain(m, lists + [next])
  {
  }

  lemma ChainReaches(m: View, lists: seq<seq<string>>, list: seq<string>)
    requires ListChain(m, lists) && |lists| <= 5 && lists[|lists| - 1] == list && ListUnder(m, list, list)
    ensures Reached(m, list)
  {
  }

  lemma ChainGoesOn(m: View, lists: seq<seq<string>>)
    requires ListChain(m, lists) && |lists| == 6
    ensures KeepsChanging(m)
  {
  }

  lemma SteadyList(m: View, m': View, ov: seq<string>, ov': seq<string>, list: seq<string>, names: set<string>)
    requires Plain(m, names) && Plain(m', names) && Agree(m, m', names) && "OVERRIDES" in names
    requires ListUnder(m, ov, list)
    ensures ListUnder(m', ov', list)
  {
    var r :| Reads(m, ov, "OVERRIDES", true, r) && OverrideList(r.parser.value) == list;
    PlainReads(m, m', ov, ov', "OVERRIDES", true, r, names);
  }

  /** A list that OVERRIDES gives at once and again is the one that the rounds reach. */
  lemma ListSettles(m: View, list: seq<string>)
    requires ListUnder(m, [], list) && ListUnder(m, list, list)
    ensures Reached(m, list) && !KeepsChanging(m)
  {
    ChainStarts(m, list);
    ChainReaches(m, [list], list);
    if KeepsChanging(m) {
      var lists :| ListChain(m, lists) && |lists| == 6;
      ListIsOne(m, [], lists[0], list);
      ListIsOne(m, list, lists[1], list);
    }
  }

  lemma ListIsOne(m: View, ov: seq<string>, list: seq<string>, list': seq<string>)
    requires ListUnder(m, ov, list) && ListUnder(m, ov, list')
    ensures list == list'
  {
    var r :| Reads(m, ov, "OVERRIDES", true, r) && OverrideList(r.parser.value) == list;
    var s :| Reads(m, ov, "OVERRIDES", true, s) && OverrideList(s.parser.value) == list';
    ReadsOne(m, ov, "OVERRIDES", true, r, s);
  }
}
