/** The order of strings by their characters, and lists sorted by it. */
module NameOrder {
  predicate Less(a: string, b: string) {
    b != "" && (a == "" || a[0] < b[0] || (a[0] == b[0] && Less(a[1..], b[1..])))
  }

  /** What decides is the first position where the two differ, or their lengths where there is none. */
  lemma {:induction false} LessIsFirstDifference(a: string, b: string)
    ensures Less(a, b) <==>
            exists i | 0 <= i <= |a| && i < |b| :: a[..i] == b[..i] && (i == |a| || a[i] < b[i])
  {
    if a == "" || b == "" {
      assert b != "" ==> a[..0] == b[..0];
    } else if a[0] == b[0] {
      LessIsFirstDifference(a[1..], b[1..]);
      forall i | 0 <= i < |a| && i < |b| - 1 ensures a[1..][..i] == b[1..][..i] <==> a[..i + 1] == b[..i + 1] {
        assert a[..i + 1] == [a[0]] + a[1..][..i] && b[..i + 1] == [b[0]] + b[1..][..i];
        assert a[1..][..i] == a[..i + 1][1..] && b[1..][..i] == b[..i + 1][1..];
      }
      if Less(a, b) {
        var i :| 0 <= i <= |a| - 1 && i < |b| - 1 && a[1..][..i] == b[1..][..i] &&
                 (i == |a| - 1 || a[1..][i] < b[1..][i]);
        assert a[..i + 1] == b[..i + 1];
      }
      if i :| 0 <= i <= |a| && i < |b| && a[..i] == b[..i] && (i == |a| || a[i] < b[i]) {
        assert a[1..][..i - 1] == b[1..][..i - 1];
      }
    } else {
      assert a[..0] == b[..0];
      forall i | 0 < i <= |a| && i < |b| ensures a[..i] != b[..i] {
        assert a[..i][0] != b[..i][0];
      }
    }
  }

  predicate Sorted(names: seq<string>) {
    forall i, j | 0 <= i < j < |names| :: Less(names[i], names[j])
  }

  lemma {:induction false} LessIsTotal(a: string, b: string)
    ensures a == b || Less(a, b) || Less(b, a)
  {
    if a != "" && b != "" && a[0] == b[0] {
      LessIsTotal(a[1..], b[1..]);
      assert a == [a[0]] + a[1..] && b == [b[0]] + b[1..];
    }
  }

  lemma {:induction false} LessIsStrict(a: string, b: string)
    ensures !(Less(a, b) && Less(b, a)) && !Less(a, a)
  {
    if a != "" {
      LessIsStrict(a[1..], if b == "" then "" else b[1..]);
    }
  }

  lemma {:induction false} LessIsTransitive(a: string, b: string, c: string)
    requires Less(a, b) && Less(b, c)
    ensures Less(a, c)
  {
    if a != "" && a[0] == b[0] == c[0] {
      LessIsTransitive(a[1..], b[1..], c[1..]);
    }
  }

  /** The least of some names. */
  method Least(names: set<string>) returns (least: string)
    requires names != {}
    ensures least in names && forall x | x in names && x != least :: Less(least, x)
  {
    least :| least in names;
    var todo := names - {least};
    while todo != {}
      invariant todo <= names && least in names && least !in todo
      invariant forall x | x in names && x !in todo && x != least :: Less(least, x)
      decreases todo
    {
      var x :| x in todo;
      todo := todo - {x};
      LessIsTotal(least, x);
      if Less(x, least) {
        forall y | y in names && y !in todo && y != x ensures Less(x, y) {
          if y != least { LessIsTransitive(x, least, y); }
        }
        least := x;
      }
    }
  }

  /** `sorted(names)` */
  method Sort(names: set<string>) returns (sorted: seq<string>)
    ensures Sorted(sorted)
    ensures forall x :: x in sorted <==> x in names
  {
    sorted := [];
    var todo := names;
    while todo != {}
      invariant todo <= names && Sorted(sorted)
      invariant forall x :: x in sorted <==> x in names && x !in todo
      invariant forall x, y | x in sorted && y in todo :: Less(x, y)
      decreases todo
    {
      var x := Least(todo);
      sorted, todo := sorted + [x], todo - {x};
    }
  }

  lemma LastIsLargest(names: seq<string>, x: string)
    requires Sorted(names) && x in names
    ensures x == names[|names| - 1] || Less(x, names[|names| - 1])
  {
  }

  lemma LastIsNew(names: seq<string>)
    requires Sorted(names) && names != []
    ensures names[|names| - 1] !in names[..|names| - 1]
  {
    LessIsStrict(names[|names| - 1], "");
  }

  /** Sorting has one result: the order in which a set is visited plays no part. */
  lemma {:induction false} SortedIsUnique(a: seq<string>, b: seq<string>)
    requires Sorted(a) && Sorted(b)
    requires forall x :: x in a <==> x in b
    ensures a == b
  {
    forall i | 0 <= i < |a| ensures a[i] in b { assert a[i] in a; }
    forall i | 0 <= i < |b| ensures b[i] in a { assert b[i] in b; }
    assert a != [] ==> a[0] in b;
    assert b != [] ==> b[0] in a;
    if a != [] {
      var m, n := |a| - 1, |b| - 1;
      LastIsLargest(a, b[n]);
      LastIsLargest(b, a[m]);
      LastIsNew(a);
      LastIsNew(b);
      assert forall x :: x in a <==> x in a[..m] || x == a[m];
      assert forall x :: x in b <==> x in b[..n] || x == b[n];
      LessIsStrict(a[m], b[n]);
      assert a[m] == b[n];
      SortedIsUnique(a[..m], b[..n]);
      assert a == a[..m] + [a[m]] && b == b[..n] + [b[n]];
    }
  }
}
