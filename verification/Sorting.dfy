/** `sorted` by a strict total order: there is only one result. */
module Sorting {

  type Less<!T> = (T, T) -> bool

  ghost predicate TotalOrder<T(!new)>(less: Less<T>)
  {
    && (forall a :: !less(a, a))
    && (forall a, b :: a == b || less(a, b) || less(b, a))
    && (forall a, b, c :: less(a, b) && less(b, c) ==> less(a, c))
  }

  ghost predicate Ascending<T>(less: Less<T>, l: seq<T>)
  {
    forall i, j :: 0 <= i < j < |l| ==> less(l[i], l[j])
  }

  /** `l` is `items` in order. */
  ghost predicate SortedOf<T(!new)>(less: Less<T>, l: seq<T>, items: set<T>)
  {
    Ascending(less, l) && forall x :: x in l <==> x in items
  }

  // ---------------------------------------------------------------- texts

  /** The order of texts: character by character, and a text comes before those it starts. */
  predicate TextLess(a: string, b: string)
  {
    b != "" && (a == "" || a[0] < b[0] || (a[0] == b[0] && TextLess(a[1..], b[1..])))
  }

  function ByText(): Less<string>
  {
    (a, b) => TextLess(a, b)
  }

  /** The texts agree up to `i`, where `a` ends or has the lesser character. */
  ghost predicate LessAt(a: string, b: string, i: int)
  {
    0 <= i <= |a| && i < |b| && a[..i] == b[..i] && (i == |a| || a[i] < b[i])
  }

  lemma {:induction false} TextLessIs(a: string, b: string)
    ensures TextLess(a, b) <==> exists i :: LessAt(a, b, i)
  {
    if a == "" && b != "" {
      assert LessAt(a, b, 0);
    } else if b != "" {
      TextLessIs(a[1..], b[1..]);
      if a[0] < b[0] {
        assert LessAt(a, b, 0);
      }
      if a[0] == b[0] && exists i :: LessAt(a[1..], b[1..], i) {
        var i :| LessAt(a[1..], b[1..], i);
        assert a[..i + 1] == [a[0]] + a[1..][..i] && b[..i + 1] == [b[0]] + b[1..][..i];
        assert LessAt(a, b, i + 1);
      }
      if exists i :: LessAt(a, b, i) && i > 0 {
        var i :| LessAt(a, b, i) && i > 0;
        assert a[0] == a[..i][0] && b[0] == b[..i][0];
        assert a[1..][..i - 1] == a[..i][1..] && b[1..][..i - 1] == b[..i][1..];
        assert LessAt(a[1..], b[1..], i - 1);
      }
    }
  }

  lemma {:induction false} TextLessOrMore(a: string, b: string)
    ensures a == b || TextLess(a, b) || TextLess(b, a)
    ensures !(TextLess(a, b) && TextLess(b, a)) && !TextLess(a, a)
  {
    if a != "" && b != "" && a[0] == b[0] {
      TextLessOrMore(a[1..], b[1..]);
      assert a == [a[0]] + a[1..] && b == [b[0]] + b[1..];
    }
    if a != "" {
      TextLessOrMore(a[1..], a[1..]);
    }
  }

  lemma {:induction false} TextLessTransitive(a: string, b: string, c: string)
    requires TextLess(a, b) && TextLess(b, c)
    ensures TextLess(a, c)
  {
    if a != "" && a[0] == b[0] == c[0] {
      TextLessTransitive(a[1..], b[1..], c[1..]);
    }
  }

  lemma ByTextIsTotal()
    ensures TotalOrder(ByText())
  {
    forall a, b
      ensures !ByText()(a, a) && (a == b || ByText()(a, b) || ByText()(b, a))
    {
      TextLessOrMore(a, a);
      TextLessOrMore(a, b);
    }
    forall a, b, c | ByText()(a, b) && ByText()(b, c)
      ensures ByText()(a, c)
    {
      TextLessTransitive(a, b, c);
    }
  }

  lemma {:induction false} SortedIsUnique<T(!new)>(less: Less<T>, a: seq<T>, b: seq<T>, items: set<T>)
    requires TotalOrder(less) && SortedOf(less, a, items) && SortedOf(less, b, items)
    ensures a == b
  {
    if a == [] {
      assert forall i :: 0 <= i < |b| ==> b[i] in b;
    } else {
      assert a[0] in b;
      var x, y := a[0], b[0];
      assert y in b && y in a;
      assert x == y by {
        var i :| 0 <= i < |b| && b[i] == x;
        var j :| 0 <= j < |a| && a[j] == y;
      }
      forall z
        ensures z in a[1..] <==> z in items - {x}
        ensures z in b[1..] <==> z in items - {x}
      {
        TailOf(less, a, z);
        TailOf(less, b, z);
      }
      SortedIsUnique(less, a[1..], b[1..], items - {x});
      assert a == [x] + a[1..] && b == [x] + b[1..];
    }
  }

  lemma {:induction false} SortedCount<T(!new)>(less: Less<T>, l: seq<T>, items: set<T>)
    requires TotalOrder(less) && SortedOf(less, l, items)
    ensures |l| == |items|
    decreases |l|
  {
    if l == [] {
      assert items == {};
    } else {
      assert l[0] in l;
      forall z
        ensures z in l[1..] <==> z in items - {l[0]}
      {
        TailOf(less, l, z);
      }
      assert Ascending(less, l[1..]);
      SortedCount(less, l[1..], items - {l[0]});
      assert |items - {l[0]}| == |items| - 1;
    }
  }

  lemma TailOf<T(!new)>(less: Less<T>, l: seq<T>, z: T)
    requires TotalOrder(less) && Ascending(less, l) && l != []
    ensures z in l[1..] <==> z in l && z != l[0]
  {
    assert l == [l[0]] + l[1..];
    if z in l[1..] {
      var i :| 0 <= i < |l[1..]| && l[1..][i] == z;
      assert less(l[0], l[i + 1]);
    }
  }

  method Sort<T(==, !new)>(items: set<T>, less: Less<T>) returns (l: seq<T>)
    requires TotalOrder(less)
    ensures SortedOf(less, l, items)
  {
    l := [];
    var rest := items;
    while rest != {}
      invariant rest <= items && Ascending(less, l)
      invariant forall x :: x in l <==> x in items && x !in rest
      invariant forall x, y :: x in l && y in rest ==> less(x, y)
      decreases |rest|
    {
      var x := First(rest, less);
      assert forall i :: 0 <= i < |l| ==> l[i] in l;
      l, rest := l + [x], rest - {x};
    }
  }

  method First<T(==, !new)>(items: set<T>, less: Less<T>) returns (x: T)
    requires TotalOrder(less) && items != {}
    ensures x in items && forall y :: y in items && y != x ==> less(x, y)
  {
    x :| x in items;
    var rest := items - {x};
    while rest != {}
      invariant x in items && rest <= items && x !in rest
      invariant forall y :: y in items && y !in rest && y != x ==> less(x, y)
      decreases |rest|
    {
      var y :| y in rest;
      rest := rest - {y};
      if less(y, x) {
        x := y;
      }
    }
  }

  lemma {:induction false} Least<T(!new)>(items: set<T>, less: Less<T>) returns (x: T)
    requires TotalOrder(less) && items != {}
    ensures x in items && forall y :: y in items && y != x ==> less(x, y)
    decreases |items|
  {
    var first :| first in items;
    var rest := items - {first};
    assert forall z :: z in items ==> z == first || z in rest;
    if rest == {} {
      x := first;
    } else {
      var y := Least(rest, less);
      x := if less(y, first) then y else first;
      forall z | z in items && z != x
        ensures less(x, z)
      {
        if z != first {
          assert z in rest && (z == y || less(y, z));
        }
      }
    }
  }

  lemma {:induction false} SortedExists<T(!new)>(items: set<T>, less: Less<T>) returns (l: seq<T>)
    requires TotalOrder(less)
    ensures SortedOf(less, l, items)
    decreases |items|
  {
    if items == {} {
      l := [];
    } else {
      var x := Least(items, less);
      var rest := SortedExists(items - {x}, less);
      assert forall i :: 0 <= i < |rest| ==> rest[i] in rest;
      l := [x] + rest;
    }
  }
}
