/** The names of recipe variants: a file name combined with a class and a multiconfig. */
module VirtualNames {
  import opened Text

  datatype Parts = Parts(fn: string, cls: string, mc: string)

  /** The elements from i on, joined again. */
  function JoinFrom(elems: seq<string>, i: nat): string
    requires i < |elems|
  {
    Join(elems[i..], ':')
  }

  predicate HasMc(name: string) {
    StartsWith(name, "mc:") && |Split(name, ':')| >= 3
  }

  /** The part of `virtualfn2realfn` that takes the multiconfig off. */
  function WithoutMc(name: string): (string, string) {
    if HasMc(name) then
      var elems := Split(name, ':');
      (elems[1], JoinFrom(elems, 2))
    else ("", name)
  }

  /** The class in a name that starts with `virtual:`, which ends before the last element. */
  function ClassOf(elems: seq<string>): string
    requires |elems| >= 1
  {
    if |elems| <= 2 then "" else Join(elems[1..|elems| - 1], ':')
  }

  /** `virtualfn2realfn` */
  function ToParts(name: string): Parts {
    var (mc, rest) := WithoutMc(name);
    if StartsWith(rest, "virtual:") then
      var elems := Split(rest, ':');
      Parts(elems[|elems| - 1], ClassOf(elems), mc)
    else Parts(rest, "", mc)
  }

  /** `realfn2virtual` */
  function ToName(p: Parts): string {
    var name := if p.cls != "" then "virtual:" + p.cls + ":" + p.fn else p.fn;
    if p.mc != "" then "mc:" + p.mc + ":" + name else name
  }

  /** The key under which `load_bbfile` returns a variant. */
  function VariantKey(cls: string, mc: string): string {
    if mc == "" then cls else "mc:" + mc + ":" + cls
  }

  /** `variant2virtual` */
  function VariantName(fn: string, variant: string): string {
    if variant == "" then fn
    else if HasMc(variant) then
      var elems := Split(variant, ':');
      if elems[2] != "" then "mc:" + elems[1] + ":virtual:" + JoinFrom(elems, 2) + ":" + fn
      else "mc:" + elems[1] + ":" + fn
    else "virtual:" + variant + ":" + fn
  }

  // ---------------------------------------------------------------- splitting what was joined

  lemma {:induction false} SplitLast(s: string, p: string, c: char)
    requires c !in p
    ensures Split(s + [c] + p, c) == Split(s, c) + [p]
  {
    var t := s + [c] + p;
    if s == "" {
      assert t[1..] == p;
      SplitOfPlain(p, c);
    } else {
      assert t[0] == s[0] && t[1..] == s[1..] + [c] + p;
      SplitLast(s[1..], p, c);
      var rest := Split(s[1..], c);
      assert (rest + [p])[0] == rest[0] && (rest + [p])[1..] == rest[1..] + [p];
    }
  }

  lemma NoColon(s: string)
    requires ':' !in s
    ensures !HasMc(s) && !StartsWith(s, "virtual:")
  {
    assert |s| >= 8 ==> s[..8][7] == s[7];
    SplitOfPlain(s, ':');
  }

  /** Taking a colon-free multiconfig off gives back what it was put on. */
  lemma McComesOff(mc: string, rest: string)
    requires ':' !in mc
    ensures HasMc("mc:" + mc + ":" + rest) && WithoutMc("mc:" + mc + ":" + rest) == (mc, rest)
    ensures Split("mc:" + mc + ":" + rest, ':') == ["mc", mc] + Split(rest, ':')
  {
    var name := "mc:" + mc + ":" + rest;
    var inner := mc + ":" + rest;
    assert name == "mc" + ":" + inner;
    SplitStep("mc", inner, ':');
    SplitStep(mc, rest, ':');
    var elems := Split(name, ':');
    assert elems == ["mc", mc] + Split(rest, ':');
    assert elems[2..] == Split(rest, ':');
    JoinSplit(rest, ':');
    assert name[..3] == "mc:";
  }

  lemma ClassComesOff(cls: string, fn: string)
    requires cls != "" && ':' !in fn
    ensures var name := "virtual:" + cls + ":" + fn;
            StartsWith(name, "virtual:") && !HasMc(name)
            && Split(name, ':')[|Split(name, ':')| - 1] == fn && ClassOf(Split(name, ':')) == cls
  {
    var name := "virtual:" + cls + ":" + fn;
    var inner := cls + ":" + fn;
    assert name == "virtual" + ":" + inner;
    SplitStep("virtual", inner, ':');
    SplitLast(cls, fn, ':');
    var elems := Split(name, ':');
    assert elems == ["virtual"] + (Split(cls, ':') + [fn]);
    assert elems[1..|elems| - 1] == Split(cls, ':');
    JoinSplit(cls, ':');
    assert name[..8] == "virtual:";
    assert name[0] == 'v';
  }

  // ---------------------------------------------------------------- the round trip

  /** Names of files and multiconfigs hold no colon; then every class comes back, with its colons. */
  lemma RoundTrip(p: Parts)
    requires ':' !in p.fn && ':' !in p.mc
    ensures ToParts(ToName(p)) == p
  {
    var name := if p.cls != "" then "virtual:" + p.cls + ":" + p.fn else p.fn;
    NoColon(p.fn);
    if p.cls != "" {
      ClassComesOff(p.cls, p.fn);
    }
    if p.mc != "" {
      McComesOff(p.mc, name);
    }
  }

  /** The first part of a name without its multiconfig, and the length of the rest. */
  lemma WithoutMcFacts(name: string)
    ensures ':' !in WithoutMc(name).0
    ensures HasMc(name) ==> |WithoutMc(name).1| < |name|
    ensures !HasMc(name) ==> WithoutMc(name) == ("", name)
  {
    JoinSplit(name, ':');
    var elems := Split(name, ':');
    if HasMc(name) {
      assert elems[1] in elems;
      assert elems[1..][0] == elems[1] && elems[1..][1..] == elems[2..];
      assert |Tail(elems[2..], ':')| == 1 + |JoinFrom(elems, 2)|;
      assert |Tail(elems[1..], ':')| == 1 + |elems[1]| + |Tail(elems[2..], ':')|;
    }
  }

  lemma LastElement(name: string)
    ensures ':' !in Split(name, ':')[|Split(name, ':')| - 1]
  {
    JoinSplit(name, ':');
    var elems := Split(name, ':');
    assert elems[|elems| - 1] in elems;
  }

  /** The names that survive the round trip. */
  predicate Survives(p: Parts) {
    && ':' !in p.mc
    && if p.cls != "" then ':' !in p.fn
       else !StartsWith(p.fn, "virtual:") && (p.mc == "" ==> !HasMc(p.fn))
  }

  lemma SurvivesWhenBack(p: Parts)
    requires ToParts(ToName(p)) == p
    ensures Survives(p)
  {
    var name := ToName(p);
    var rest := WithoutMc(name).1;
    WithoutMcFacts(name);
    LastElement(rest);
    assert ':' !in p.fn ==> !StartsWith(p.fn, "virtual:") by {
      if ':' !in p.fn { NoColon(p.fn); }
    }
    if p.cls == "" && p.mc == "" {
      assert name == p.fn;
      assert ':' !in p.fn ==> !HasMc(p.fn) by {
        if ':' !in p.fn { NoColon(p.fn); }
      }
    }
  }

  /** Splitting the name built from a file, a class and a multiconfig gives them back exactly for these. */
  lemma RoundTripIff(p: Parts)
    ensures ToParts(ToName(p)) == p <==> Survives(p)
  {
    if Survives(p) {
      if p.cls != "" {
        RoundTrip(p);
      } else if p.mc != "" {
        McComesOff(p.mc, p.fn);
      }
    }
    if ToParts(ToName(p)) == p {
      SurvivesWhenBack(p);
    }
  }

  // ---------------------------------------------------------------- the two ways to a name

  lemma FirstElement(s: string)
    ensures Split(s, ':')[0] == "" <==> s == "" || s[0] == ':'
  {
  }

  /** The name made from a variant's key is the one made from its parts, except for a class that
      starts with a colon and, without a multiconfig, for a class that reads like a key with one. */
  lemma VariantNameIsName(fn: string, cls: string, mc: string)
    requires ':' !in mc
    ensures VariantName(fn, VariantKey(cls, mc)) == ToName(Parts(fn, cls, mc)) <==>
            if mc != "" then cls == "" || cls[0] != ':' else !HasMc(cls)
  {
    var name := ToName(Parts(fn, cls, mc));
    var other := VariantName(fn, VariantKey(cls, mc));
    if mc != "" {
      McComesOff(mc, cls);
      FirstElement(cls);
      var elems := Split(VariantKey(cls, mc), ':');
      assert elems[2] == Split(cls, ':')[0] && JoinFrom(elems, 2) == cls;
      if elems[2] != "" {
        assert other == "mc:" + mc + ":virtual:" + cls + ":" + fn;
        assert name == "mc:" + mc + ":" + ("virtual:" + cls + ":" + fn);
        assert other == name;
      } else if cls != "" {
        assert |other| < |name|;
      }
    } else if cls != "" {
      assert name[0] == 'v';
      if HasMc(cls) {
        assert other[0] == 'm';
      }
    }
  }
}
