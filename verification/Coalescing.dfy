/** Coalescing of raw events: the text that stands for an event, and the queue
    that takes each text once until it is cleared. */
module Coalescing {
  import opened Wrappers
  import opened InotifyRecords

  // ---------------------------------------------------------------- the text of an event

  function Digit(d: nat): (c: char)
    requires d < 16
    ensures c != ' ' && c != '-'
  {
    if d < 10 then (48 + d) as char else (87 + d) as char
  }

  /** A number in the given base, which is ten or sixteen. */
  function Digits(n: nat, base: nat): (s: string)
    requires base == 10 || base == 16
    ensures s != ""
  {
    if n < base then [Digit(n)] else Digits(n / base, base) + [Digit(n % base)]
  }

  function Decimal(n: int): string {
    if n < 0 then "-" + Digits(-n, 10) else Digits(n, 10)
  }

  /** An empty name is shown as two quotes. */
  function Shown(name: string): string {
    if name == "" then "''" else name
  }

  /** `str` of a raw event; its attributes come in alphabetical order. */
  function Key(e: Raw): string {
    "<_RawEvent cookie=" + (Decimal(e.cookie) + " " + ("mask=0x" + Digits(e.mask, 16) + " " +
      ("name=" + Shown(e.name) + " " + ("wd=" + Decimal(e.wd)) + " >")))
  }

  predicate SameFields(a: Raw, b: Raw) {
    a.wd == b.wd && a.mask == b.mask && a.cookie == b.cookie && Shown(a.name) == Shown(b.name)
  }

  lemma {:induction false} DigitsAre(n: nat, base: nat)
    requires base == 10 || base == 16
    ensures ' ' !in Digits(n, base) && '-' !in Digits(n, base)
  {
    if n >= base {
      DigitsAre(n / base, base);
    }
  }

  lemma DivMod(n: nat, base: nat)
    requires base == 10 || base == 16
    ensures n == base * (n / base) + n % base
  {
  }

  lemma LastDigit(n: nat, base: nat)
    requires base == 10 || base == 16
    ensures var s := Digits(n, base);
            && s[|s| - 1] == Digit(n % base)
            && (if n < base then |s| == 1 else |s| > 1 && s[..|s| - 1] == Digits(n / base, base))
  {
  }

  lemma {:induction false} DigitsDiffer(m: nat, n: nat, base: nat)
    requires base == 10 || base == 16
    requires Digits(m, base) == Digits(n, base)
    ensures m == n
    decreases m
  {
    LastDigit(m, base);
    LastDigit(n, base);
    DivMod(m, base);
    DivMod(n, base);
    if m >= base {
      DigitsDiffer(m / base, n / base, base);
    }
  }

  lemma DecimalDiffers(m: int, n: int)
    requires Decimal(m) == Decimal(n)
    ensures m == n
  {
    var a, b := if m < 0 then -m else m, if n < 0 then -n else n;
    DigitsAre(a, 10);
    DigitsAre(b, 10);
    assert Decimal(m)[0] == '-' <==> m < 0;
    assert Decimal(n)[0] == '-' <==> n < 0;
    if m < 0 {
      assert Decimal(m)[1..] == Digits(a, 10) && Decimal(n)[1..] == Digits(b, 10);
    }
    DigitsDiffer(a, b, 10);
  }

  lemma NoSpaces(n: int, m: nat)
    ensures ' ' !in Decimal(n) && ' ' !in Digits(m, 16)
  {
    DigitsAre(if n < 0 then -n else n, 10);
    DigitsAre(m, 16);
  }

  /** Text before the first space, or after the last one, can be told from the rest. */
  lemma FirstSpace(a: string, x: string, b: string, y: string)
    requires ' ' !in a && ' ' !in b && a + " " + x == b + " " + y
    ensures a == b && x == y
  {
    var s := a + " " + x;
    assert s[|a|] == ' ' && s[|b|] == ' ';
    assert forall i | 0 <= i < |a| :: s[i] == a[i];
    assert forall i | 0 <= i < |b| :: s[i] == b[i];
    assert |a| == |b|;
    assert s[..|a|] == a && s[..|b|] == b && s[|a| + 1..] == x && s[|b| + 1..] == y;
  }

  lemma LastSpace(x: string, a: string, y: string, b: string)
    requires ' ' !in a && ' ' !in b && x + " " + a == y + " " + b
    ensures a == b && x == y
  {
    var s := x + " " + a;
    assert s[|x|] == ' ' && s[|y|] == ' ';
    assert forall i | |x| < i < |s| :: s[i] == a[i - |x| - 1];
    assert forall i | |y| < i < |s| :: s[i] == b[i - |y| - 1];
    assert |x| == |y|;
    assert s[..|x|] == x && s[..|y|] == y && s[|x| + 1..] == a && s[|y| + 1..] == b;
  }

  lemma Prefix(p: string, x: string, y: string)
    requires p + x == p + y
    ensures x == y
  {
    assert (p + x)[|p|..] == x && (p + y)[|p|..] == y;
  }

  lemma Suffix(x: string, y: string, p: string)
    requires x + p == y + p
    ensures x == y
  {
    assert (x + p)[..|x|] == x && (y + p)[..|y|] == y;
  }

  lemma KeySays(a: Raw, b: Raw)
    requires Key(a) == Key(b)
    ensures SameFields(a, b)
  {
    NoSpaces(a.cookie, a.mask);
    NoSpaces(b.cookie, b.mask);
    NoSpaces(a.wd, 0);
    NoSpaces(b.wd, 0);
    var nameA := "name=" + Shown(a.name) + " " + ("wd=" + Decimal(a.wd));
    var nameB := "name=" + Shown(b.name) + " " + ("wd=" + Decimal(b.wd));
    var restA := "mask=0x" + Digits(a.mask, 16) + " " + (nameA + " >");
    var restB := "mask=0x" + Digits(b.mask, 16) + " " + (nameB + " >");
    Prefix("<_RawEvent cookie=", Decimal(a.cookie) + " " + restA, Decimal(b.cookie) + " " + restB);
    FirstSpace(Decimal(a.cookie), restA, Decimal(b.cookie), restB);
    DecimalDiffers(a.cookie, b.cookie);
    FirstSpace("mask=0x" + Digits(a.mask, 16), nameA + " >", "mask=0x" + Digits(b.mask, 16), nameB + " >");
    Prefix("mask=0x", Digits(a.mask, 16), Digits(b.mask, 16));
    DigitsDiffer(a.mask, b.mask, 16);
    Suffix(nameA, nameB, " >");
    LastSpace("name=" + Shown(a.name), "wd=" + Decimal(a.wd), "name=" + Shown(b.name), "wd=" + Decimal(b.wd));
    Prefix("wd=", Decimal(a.wd), Decimal(b.wd));
    DecimalDiffers(a.wd, b.wd);
    Prefix("name=", Shown(a.name), Shown(b.name));
  }

  /** Two events have one text exactly when they are equal or differ only in that one
      has no name and the other is named by two quotes. */
  lemma KeysCoincideIff(a: Raw, b: Raw)
    ensures Key(a) == Key(b) <==>
            a == b || (a.(name := "") == b.(name := "") && {a.name, b.name} == {"", "''"})
  {
    if Key(a) == Key(b) {
      KeySays(a, b);
      if a.name != b.name {
        assert a.name == "" || b.name == "";
        assert {a.name, b.name} == {"", "''"};
      }
    }
    if a.(name := "") == b.(name := "") && {a.name, b.name} == {"", "''"} {
      assert a.name in {"", "''"} && b.name in {"", "''"};
      assert Shown(a.name) == "''" == Shown(b.name);
    }
  }

  // ---------------------------------------------------------------- the queue

  function Texts(es: seq<Raw>): (texts: seq<string>)
    ensures |texts| == |es|
  {
    if es == [] then [] else Texts(es[..|es| - 1]) + [Key(es[|es| - 1])]
  }

  lemma TextsOneMore(es: seq<Raw>, e: Raw)
    ensures Texts(es + [e]) == Texts(es) + [Key(e)]
  {
    assert (es + [e])[..|es + [e]| - 1] == es;
  }

  /** The text at i does not come up before. */
  predicate IsFirst(texts: seq<string>, i: nat)
    requires i < |texts|
  {
    texts[i] !in texts[..i]
  }

  /** The events with texts that have not come up before, in order. */
  function Firsts(es: seq<Raw>, texts: seq<string>): (kept: seq<Raw>)
    requires |texts| == |es|
  {
    if es == [] then []
    else
      var n := |es| - 1;
      Firsts(es[..n], texts[..n]) + if IsFirst(texts, n) then [es[n]] else []
  }

  lemma FirstsOneMore(es: seq<Raw>, texts: seq<string>, e: Raw, t: string)
    requires |texts| == |es|
    ensures Firsts(es + [e], texts + [t]) == Firsts(es, texts) + if t in texts then [] else [e]
  {
    var n := |es|;
    assert (es + [e])[..n] == es && (texts + [t])[..n] == texts;
  }

  /** The set has these texts, and the queue what was there before and these events. */
  ghost predicate Agrees(eventset: set<string>, eventq: seq<Raw>, base: seq<Raw>, texts: seq<string>, kept: seq<Raw>) {
    (forall t :: t in eventset <==> t in texts) && eventq == base + kept
  }

  lemma AgreesMore(eventset: set<string>, eventq: seq<Raw>, base: seq<Raw>, texts: seq<string>, kept: seq<Raw>,
                   e: Raw, text: string)
    requires Agrees(eventset, eventq, base, texts, kept)
    ensures if text in eventset then Agrees(eventset, eventq, base, texts + [text], kept)
            else Agrees(eventset + {text}, eventq + [e], base, texts + [text], kept + [e])
  {
    assert forall t :: t in texts + [text] <==> t in texts || t == text;
    assert base + kept + [e] == base + (kept + [e]);
  }

  /** Since the queue was base, each text that was read has been put on it once. */
  ghost predicate Once(eventset: set<string>, eventq: seq<Raw>, base: seq<Raw>, since: seq<Raw>) {
    Agrees(eventset, eventq, base, Texts(since), Firsts(since, Texts(since)))
  }

  lemma OnceMore(eventset: set<string>, eventq: seq<Raw>, base: seq<Raw>, since: seq<Raw>, e: Raw, text: string)
    requires Once(eventset, eventq, base, since) && Texts(since + [e]) == Texts(since) + [text]
    ensures if text in eventset then Once(eventset, eventq, base, since + [e])
            else Once(eventset + {text}, eventq + [e], base, since + [e])
  {
    var texts := Texts(since);
    var kept := Firsts(since, texts);
    FirstsOneMore(since, texts, e, text);
    AgreesMore(eventset, eventq, base, texts, kept, e, text);
    assert kept + [] == kept;
  }

  /** The reading side of the notifier: its queue and the texts seen. since and base say
      what was read since the texts were last cleared and what was on the queue then. */
  class Events {
    var eventq: seq<Raw>
    var eventset: set<string>
    var coalesce: bool
    const threshold: nat
    ghost var since: seq<Raw>
    ghost var base: seq<Raw>

    ghost predicate Valid()
      reads this
    {
      if coalesce then Once(eventset, eventq, base, since)
      else eventset == {} && eventq == base + since
    }

    constructor (threshold: nat)
      ensures Valid() && eventq == [] && !coalesce && this.threshold == threshold
    {
      eventq, eventset, coalesce, since, base := [], {}, false, [], [];
      this.threshold := threshold;
    }

    /** One event read. */
    method Enqueue(e: Raw)
      requires Valid()
      modifies this`eventq, this`eventset, this`since
      ensures Valid() && since == old(since) + [e]
    {
      if coalesce {
        EnqueueOnce(e, Key(e));
      } else {
        assert base + since + [e] == base + (since + [e]);
        eventq, since := eventq + [e], since + [e];
      }
    }

    /** Only new texts get on the queue. */
    method EnqueueOnce(e: Raw, text: string)
      requires coalesce && Once(eventset, eventq, base, since) && text == Key(e)
      modifies this`eventq, this`eventset, this`since
      ensures Once(eventset, eventq, base, since) && since == old(since) + [e]
    {
      TextsOneMore(since, e);
      OnceMore(eventset, eventq, base, since, e, text);
      if text !in eventset {
        eventset := eventset + {text};
        eventq := eventq + [e];
      }
      since := since + [e];
    }

    /** `read_events` on the bytes read; an error when the last record is cut off. */
    method ReadEvents(r: seq<Byte>) returns (ok: Result<(), ()>)
      requires Valid()
      modifies this`eventq, this`eventset, this`since
      ensures Valid()
      ensures |r| < threshold ==> ok.Ok? && eventq == old(eventq) && since == old(since)
      ensures |r| >= threshold ==> since == old(since) + Parse(r, 0).0 && (ok.Ok? <==> Parse(r, 0).1 == |r|)
    {
      if |r| < threshold {
        return Ok(());
      }
      var rsum := 0;
      ghost var done: seq<Raw> := [];
      while rsum < |r|
        invariant Valid() && rsum <= |r| && since == old(since) + done
        invariant Parse(r, 0).0 == done + Parse(r, rsum).0 && Parse(r, 0).1 == Parse(r, rsum).1
        decreases |r| - rsum
      {
        if !RecordAt(r, rsum) {
          assert done + [] == done;
          return Err(());
        }
        ParseStep(r, rsum, done);
        var e := RawAt(r, rsum);
        Enqueue(e);
        done := done + [e];
        rsum := rsum + 16 + Word(r, rsum + 12);
      }
      assert done + [] == done;
      ok := Ok(());
    }

    /** `coalesce_events` */
    method CoalesceEvents(on: bool)
      requires Valid()
      modifies this`coalesce, this`eventset, this`since, this`base
      ensures Valid() && coalesce == on && eventq == old(eventq)
      ensures on != old(coalesce) ==> since == [] && eventset == {}
    {
      if on != coalesce {
        base, since := eventq, [];
      }
      coalesce := on;
      if !on {
        eventset := {};
      }
    }

    /** One batch: the queued events go to the handlers in order, and after that any event is taken again. The
        loop that takes them off, while handlers put further ones on, is `ProcessEvents` of `Notifier`. */
    method HandOver() returns (batch: seq<Raw>)
      requires Valid()
      modifies this`eventq, this`eventset, this`since, this`base
      ensures Valid() && batch == old(eventq)
      ensures eventq == [] && since == [] && coalesce == old(coalesce)
    {
      batch := eventq;
      eventq, since, base := [], [], [];
      if coalesce {
        eventset := {};
      }
    }

    /** A buffer of packed records puts exactly those events on the queue, or with coalescing
        exactly those whose text has not come up since the last clear. */
    method ReadPacked(es: seq<Record>, r: seq<Byte>)
      requires Valid() && (forall e | e in es :: Fits(e)) && r == PackAll(es) && |r| >= threshold
      modifies this`eventq, this`eventset, this`since
      ensures Valid() && since == old(since) + RawsOf(es)
      ensures !coalesce ==> eventq == old(eventq) + RawsOf(es)
      ensures coalesce ==> eventq == base + Firsts(since, Texts(since))
    {
      ghost var before, raws := since, RawsOf(es);
      BufferBack(es);
      var ok := ReadEvents(r);
      assert base + (before + raws) == base + before + raws;
    }
  }

  lemma ParseStep(r: seq<Byte>, i: nat, done: seq<Raw>)
    requires RecordAt(r, i)
    ensures var next := i + 16 + Word(r, i + 12);
            && next <= |r| && Parse(r, i).1 == Parse(r, next).1
            && done + Parse(r, i).0 == done + [RawAt(r, i)] + Parse(r, next).0
  {
  }

  lemma FirstInPrefix(texts: seq<string>, n: nat, i: nat)
    requires i < n <= |texts|
    ensures IsFirst(texts[..n], i) <==> IsFirst(texts, i)
  {
    assert texts[..n][..i] == texts[..i];
  }

  /** What is kept: every event with a text that is new at its place, and no other. */
  lemma {:induction false} FirstsAre(es: seq<Raw>, texts: seq<string>, e: Raw)
    requires |texts| == |es|
    ensures e in Firsts(es, texts) <==> exists i :: 0 <= i < |es| && es[i] == e && IsFirst(texts, i)
  {
    if es != [] {
      var n := |es| - 1;
      var init := Firsts(es[..n], texts[..n]);
      FirstsAre(es[..n], texts[..n], e);
      forall i | 0 <= i < n ensures IsFirst(texts[..n], i) <==> IsFirst(texts, i) {
        FirstInPrefix(texts, n, i);
      }
      assert Firsts(es, texts) == init + if IsFirst(texts, n) then [es[n]] else [];
    }
  }
}
