/** Why writes end in an error. */
module WriteFailures {
  import opened Wrappers
  import opened Store
  import opened Updates
  import opened AssignedCache
  import opened Failures
  import opened Sticky

  /** Active variants are to be deleted, and the list that says which cannot be computed. */
  ghost predicate DropStops(m: View, name: string, parsing: bool, before: Option<seq<string>>, depth: nat) {
    !parsing && name in m.variants && before.None? && ListStops(Cleared(m, name, parsing), depth)
  }

  /** OVERRIDES depends on the variable, and following the references of its new value fails; or it may
      fail, because it starts from a cache that is wrong. */
  ghost predicate FollowingStops(m: View, name: string, value: Value, parsing: bool, before: Option<seq<string>>,
                                 active: seq<string>, depth: nat)
    requires LongerNames(m.variants)
  {
    var m', list := AfterSetVar(m, name, value, parsing, active), ListAt(m, name, parsing, before, active);
    || TrackStops(m', list.Some?, list, depth, name, value)
    || !OnRight(Cleared(m, name, parsing), active, OnTheWay(m, name, parsing, before, active), m', true, list,
                Refs(value))
  }

  /** The reasons for which `setVar` ends in an error: old syntax, a list that cannot be computed for the
      contents without queued operations, or a new value whose references cannot be followed. */
  ghost predicate SetStops(m: View, name: string, value: Value, parsing: bool, before: Option<seq<string>>,
                           active: seq<string>, vars: set<string>, depth: nat)
    requires LongerNames(m.variants)
  {
    || IsOldSyntax(name)
    || (FindKeyword(name, 0).None? && DropStops(m, name, parsing, before, depth))
    || (Written(name) in vars && Refs(value) != {} && ActiveList(m, name, parsing, before, active)
        && FollowingStops(m, name, value, parsing, before, active, depth))
  }

  /** `setVarFlag` ends in an error only where the references of a default value cannot be followed. */
  ghost predicate FlagStops(m: View, name: string, flag: string, value: Value, before: Option<seq<string>>,
                            vars: set<string>, depth: nat)
  {
    && flag == "_defaultval" && name in vars && Refs(value) != {}
    && TrackStops(AfterFlag(m, name, flag, value), before.Some?, before, depth, name, value)
  }

  /** The reasons for which a write ends in an error; a deletion does not. */
  ghost predicate WriteStops(m: View, w: Write, before: Option<seq<string>>, active: seq<string>, vars: set<string>,
                             depth: nat)
    requires LongerNames(m.variants)
  {
    match w
    case Assign(name, value, parsing) => SetStops(m, name, value, parsing, before, active, vars, depth)
    case Delete(_) => false
    case SetFlag(name, flag, value) => FlagStops(m, name, flag, value, before, vars, depth)
  }

  /** The write may fail on these contents. */
  ghost predicate MayStop(m: View, w: Write, depth: nat) {
    LongerNames(m.variants) && exists before, active, vars :: WriteStops(m, w, before, active, vars, depth)
  }

  lemma StopsAt(m: View, w: Write, before: Option<seq<string>>, active: seq<string>, vars: set<string>, depth: nat)
    requires LongerNames(m.variants) && WriteStops(m, w, before, active, vars, depth)
    ensures MayStop(m, w, depth)
  {
  }
}
