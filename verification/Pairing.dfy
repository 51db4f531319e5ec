/** Pairing up two sets: what the matching passes of `_diffPackages` have in common. */
module Pairing {

  datatype Pair<A, B> = Pair(left: A, right: B)

  ghost function Lefts<A, B>(pairs: seq<Pair<A, B>>): set<A>
  {
    if pairs == [] then {} else Lefts(pairs[..|pairs| - 1]) + {pairs[|pairs| - 1].left}
  }

  ghost function Rights<A, B>(pairs: seq<Pair<A, B>>): set<B>
  {
    if pairs == [] then {} else Rights(pairs[..|pairs| - 1]) + {pairs[|pairs| - 1].right}
  }

  lemma {:induction false} LeftAt<A, B>(pairs: seq<Pair<A, B>>, x: A)
    ensures x in Lefts(pairs) <==> exists k :: 0 <= k < |pairs| && pairs[k].left == x
  {
    if pairs != [] {
      var p0 := pairs[..|pairs| - 1];
      LeftAt(p0, x);
      assert forall k :: 0 <= k < |p0| ==> p0[k] == pairs[k];
    }
  }

  lemma {:induction false} RightAt<A, B>(pairs: seq<Pair<A, B>>, x: B)
    ensures x in Rights(pairs) <==> exists k :: 0 <= k < |pairs| && pairs[k].right == x
  {
    if pairs != [] {
      var p0 := pairs[..|pairs| - 1];
      RightAt(p0, x);
      assert forall k :: 0 <= k < |p0| ==> p0[k] == pairs[k];
    }
  }

  /** Nothing is used twice, and only what was offered is used. */
  ghost predicate Pairs<A, B>(pairs: seq<Pair<A, B>>, lefts: set<A>, rights: set<B>)
  {
    pairs == [] ||
    var before, last := pairs[..|pairs| - 1], pairs[|pairs| - 1];
    && Pairs(before, lefts, rights)
    && last.left in lefts && last.left !in Lefts(before)
    && last.right in rights && last.right !in Rights(before)
  }

  lemma PairsAppend<A, B>(pairs: seq<Pair<A, B>>, a: A, b: B, lefts: set<A>, rights: set<B>)
    requires Pairs(pairs, lefts, rights)
    requires a in lefts && a !in Lefts(pairs) && b in rights && b !in Rights(pairs)
    ensures Pairs(pairs + [Pair(a, b)], lefts, rights)
    ensures Lefts(pairs + [Pair(a, b)]) == Lefts(pairs) + {a}
    ensures Rights(pairs + [Pair(a, b)]) == Rights(pairs) + {b}
  {
    assert (pairs + [Pair(a, b)])[..|pairs|] == pairs;
  }

  /** Each pair uses up one thing on each side. */
  lemma {:induction false} PairsCount<A, B>(pairs: seq<Pair<A, B>>, lefts: set<A>, rights: set<B>)
    requires Pairs(pairs, lefts, rights)
    ensures Lefts(pairs) <= lefts && Rights(pairs) <= rights
    ensures |Lefts(pairs)| == |pairs| == |Rights(pairs)|
    ensures |lefts - Lefts(pairs)| == |lefts| - |pairs| && |rights - Rights(pairs)| == |rights| - |pairs|
  {
    if pairs != [] {
      PairsCount(pairs[..|pairs| - 1], lefts, rights);
    }
    assert Lefts(pairs) <= lefts && Rights(pairs) <= rights;
    assert |lefts - Lefts(pairs)| == |lefts| - |Lefts(pairs)|;
    assert |rights - Rights(pairs)| == |rights| - |Rights(pairs)|;
  }

  /** A pairing of what another one left completes it. */
  lemma {:induction false} PairsConcat<A, B>(p: seq<Pair<A, B>>, q: seq<Pair<A, B>>, lefts: set<A>, rights: set<B>)
    requires Pairs(p, lefts, rights) && Pairs(q, lefts - Lefts(p), rights - Rights(p))
    ensures Pairs(p + q, lefts, rights)
    ensures Lefts(p + q) == Lefts(p) + Lefts(q)
    ensures Rights(p + q) == Rights(p) + Rights(q)
  {
    if q == [] {
      assert p + q == p;
    } else {
      var q0, last := q[..|q| - 1], q[|q| - 1];
      PairsConcat(p, q0, lefts, rights);
      PairsAppend(p + q0, last.left, last.right, lefts, rights);
      assert p + q == p + q0 + [last];
    }
  }

  lemma {:induction false} PairsWithin<A, B>(pairs: seq<Pair<A, B>>, lefts: set<A>, rights: set<B>,
                                             lefts': set<A>, rights': set<B>)
    requires Pairs(pairs, lefts, rights) && lefts <= lefts' && rights <= rights'
    ensures Pairs(pairs, lefts', rights')
  {
    if pairs != [] {
      PairsWithin(pairs[..|pairs| - 1], lefts, rights, lefts', rights');
    }
  }

  lemma {:induction false} PairAt<A, B>(pairs: seq<Pair<A, B>>, lefts: set<A>, rights: set<B>, k: nat)
    requires Pairs(pairs, lefts, rights) && k < |pairs|
    ensures pairs[k].left in lefts && pairs[k].right in rights
  {
    if k < |pairs| - 1 {
      PairAt(pairs[..|pairs| - 1], lefts, rights, k);
    }
  }

  lemma Overlapping<T>(a: set<T>, b: set<T>, x: T)
    requires x in a && x in b
    ensures |a + b| < |a| + |b|
  {
    assert |a + b| == |a| + |b| - |a * b|;
    assert x in a * b;
  }

  // ---------------------------------------------------------------- sorting, ties in any order

  ghost predicate Descending<T(!new)>(l: seq<T>, key: T -> real)
  {
    forall i, j :: 0 <= i < j < |l| ==> key(l[i]) >= key(l[j])
  }

  method Largest<T(==, !new)>(s: set<T>, key: T -> real) returns (x: T)
    requires s != {}
    ensures x in s && forall y :: y in s ==> key(y) <= key(x)
  {
    x :| x in s;
    var rest := s - {x};
    while rest != {}
      invariant x in s && rest <= s
      invariant forall y :: y in s && y !in rest ==> key(y) <= key(x)
      decreases |rest|
    {
      var y :| y in rest;
      if key(y) > key(x) {
        x := y;
      }
      rest := rest - {y};
    }
  }

  /** The elements of `s` sorted by falling key; equal keys come in any order. */
  method SortDescending<T(==, !new)>(s: set<T>, key: T -> real) returns (l: seq<T>)
    ensures Descending(l, key)
    ensures |l| == |s| && forall x :: x in l <==> x in s
  {
    l := [];
    var rest := s;
    while rest != {}
      invariant rest <= s && |l| + |rest| == |s|
      invariant forall x :: x in s <==> (x in l || x in rest)
      invariant forall x :: x in l ==> x !in rest
      invariant Descending(l, key)
      invariant forall x, y :: x in l && y in rest ==> key(y) <= key(x)
      decreases |rest|
    {
      var x := Largest(rest, key);
      assert forall i :: 0 <= i < |l| ==> l[i] in l;
      rest := rest - {x};
      l := l + [x];
    }
  }

  lemma {:induction false} NoRepeats<T>(l: seq<T>, s: set<T>, i: int, j: int)
    requires |l| == |s| && forall x :: x in l <==> x in s
    requires 0 <= i < j < |l|
    ensures l[i] != l[j]
  {
    var p, q := l[..i + 1], l[i + 1..];
    if l[i] == l[j] {
      SetOfAtMost(p);
      SetOfAtMost(q);
      assert p[i] == q[j - i - 1];
      var a, b := set x | x in p, set x | x in q;
      assert a + b == s by {
        assert l == p + q;
      }
      Overlapping(a, b, l[i]);
    }
  }

  lemma {:induction false} SetOfAtMost<T>(l: seq<T>)
    ensures |set x | x in l| <= |l|
  {
    if l != [] {
      SetOfAtMost(l[1..]);
      assert (set x | x in l) == {l[0]} + (set x | x in l[1..]);
    }
  }

  // ---------------------------------------------------------------- greedy matching

  /** Whatever could have been paired lost to a pair at least as good, on one side or both. */
  ghost predicate NothingBetter<A(!new), B(!new)>(candidates: set<Pair<A, B>>, pairs: seq<Pair<A, B>>,
                                                  key: Pair<A, B> -> real)
  {
    forall c :: c in candidates ==> Beaten(c, pairs, key)
  }

  ghost predicate Beaten<A(!new), B(!new)>(c: Pair<A, B>, pairs: seq<Pair<A, B>>, key: Pair<A, B> -> real)
  {
    exists k :: 0 <= k < |pairs|
      && (pairs[k].left == c.left || pairs[k].right == c.right) && key(pairs[k]) >= key(c)
  }

  /** After the first `i` candidates: what was taken is at least as good as what is to come,
      and every candidate seen was taken or beaten. */
  ghost predicate GreedySoFar<A(!new), B(!new)>(scored: seq<Pair<A, B>>, i: nat, pairs: seq<Pair<A, B>>,
                                                key: Pair<A, B> -> real)
    requires i <= |scored|
  {
    && (forall k :: TakenAt(scored, i, pairs, k))
    && (forall j :: BeatenAt(scored, i, pairs, key, j))
  }

  ghost predicate TakenAt<A(!new), B(!new)>(scored: seq<Pair<A, B>>, i: nat, pairs: seq<Pair<A, B>>, k: int)
    requires i <= |scored|
  {
    0 <= k < |pairs| ==> TakenFrom(scored, i, pairs[k])
  }

  ghost predicate BeatenAt<A(!new), B(!new)>(scored: seq<Pair<A, B>>, i: nat, pairs: seq<Pair<A, B>>,
                                             key: Pair<A, B> -> real, j: int)
    requires i <= |scored|
  {
    0 <= j < i ==> Beaten(scored[j], pairs, key)
  }

  ghost predicate TakenFrom<A(!new), B(!new)>(scored: seq<Pair<A, B>>, i: nat, p: Pair<A, B>)
    requires i <= |scored|
  {
    exists j :: 0 <= j < i && scored[j] == p
  }

  lemma TakenFromMore<A(!new), B(!new)>(scored: seq<Pair<A, B>>, i: nat, p: Pair<A, B>)
    requires i < |scored|
    requires TakenFrom(scored, i, p) || p == scored[i]
    ensures TakenFrom(scored, i + 1, p)
  {
    if TakenFrom(scored, i, p) {
      var j :| 0 <= j < i && scored[j] == p;
      assert j < i + 1;
    }
  }

  lemma GreedyTake<A(!new), B(!new)>(scored: seq<Pair<A, B>>, i: nat, pairs: seq<Pair<A, B>>, key: Pair<A, B> -> real)
    requires i < |scored| && GreedySoFar(scored, i, pairs, key)
    ensures GreedySoFar(scored, i + 1, pairs + [scored[i]], key)
  {
    var more, next := pairs + [scored[i]], i + 1;
    forall k
      ensures TakenAt(scored, next, more, k)
    {
      assert TakenAt(scored, i, pairs, k);
      if 0 <= k < |more| {
        TakenFromMore(scored, i, more[k]);
      }
    }
    forall j
      ensures BeatenAt(scored, next, more, key, j)
    {
      assert BeatenAt(scored, i, pairs, key, j);
      if 0 <= j < i {
        BeatenMore(scored[j], pairs, scored[i], key);
      } else if j == i {
        assert more[|pairs|] == scored[i];
      }
    }
  }

  lemma GreedySkip<A(!new), B(!new)>(scored: seq<Pair<A, B>>, i: nat, pairs: seq<Pair<A, B>>, key: Pair<A, B> -> real)
    requires i < |scored| && Descending(scored, key) && GreedySoFar(scored, i, pairs, key)
    requires scored[i].left in Lefts(pairs) || scored[i].right in Rights(pairs)
    ensures GreedySoFar(scored, i + 1, pairs, key)
  {
    var next := i + 1;
    forall k
      ensures TakenAt(scored, next, pairs, k)
    {
      assert TakenAt(scored, i, pairs, k);
      if 0 <= k < |pairs| {
        TakenFromMore(scored, i, pairs[k]);
      }
    }
    forall j
      ensures BeatenAt(scored, next, pairs, key, j)
    {
      assert BeatenAt(scored, i, pairs, key, j);
      if j == i {
        LeftAt(pairs, scored[i].left);
        RightAt(pairs, scored[i].right);
        var k :| 0 <= k < |pairs| && (pairs[k].left == scored[i].left || pairs[k].right == scored[i].right);
        assert TakenAt(scored, i, pairs, k);
        var m :| 0 <= m < i && scored[m] == pairs[k];
        assert key(scored[m]) >= key(scored[i]);
      }
    }
  }

  /** Candidates are taken from the best score down; one is skipped if either side is gone. */
  method Greedy<A(==, !new), B(==, !new)>(candidates: set<Pair<A, B>>, lefts: set<A>, rights: set<B>,
                                          key: Pair<A, B> -> real)
    returns (pairs: seq<Pair<A, B>>, leftsLeft: set<A>, rightsLeft: set<B>)
    requires forall c :: c in candidates ==> c.left in lefts && c.right in rights
    ensures Pairs(pairs, lefts, rights)
    ensures leftsLeft == lefts - Lefts(pairs) && rightsLeft == rights - Rights(pairs)
    ensures forall k :: 0 <= k < |pairs| ==> pairs[k] in candidates
    ensures NothingBetter(candidates, pairs, key)
  {
    var scored := SortDescending(candidates, key);
    pairs, leftsLeft, rightsLeft := [], lefts, rights;
    for i := 0 to |scored|
      invariant Pairs(pairs, lefts, rights)
      invariant leftsLeft == lefts - Lefts(pairs) && rightsLeft == rights - Rights(pairs)
      invariant GreedySoFar(scored, i, pairs, key)
    {
      var c := scored[i];
      assert c in candidates;
      if c.left in leftsLeft && c.right in rightsLeft {
        PairsAppend(pairs, c.left, c.right, lefts, rights);
        GreedyTake(scored, i, pairs, key);
        leftsLeft, rightsLeft := leftsLeft - {c.left}, rightsLeft - {c.right};
        pairs := pairs + [c];
      } else {
        GreedySkip(scored, i, pairs, key);
      }
    }
    GreedyDone(scored, candidates, pairs, key);
  }

  lemma GreedyDone<A(!new), B(!new)>(scored: seq<Pair<A, B>>, candidates: set<Pair<A, B>>, pairs: seq<Pair<A, B>>,
                                     key: Pair<A, B> -> real)
    requires GreedySoFar(scored, |scored|, pairs, key)
    requires forall c :: c in scored <==> c in candidates
    ensures NothingBetter(candidates, pairs, key)
    ensures forall k :: 0 <= k < |pairs| ==> pairs[k] in candidates
  {
    forall k | 0 <= k < |pairs|
      ensures pairs[k] in candidates
    {
      assert TakenAt(scored, |scored|, pairs, k);
    }
    forall c | c in candidates
      ensures Beaten(c, pairs, key)
    {
      assert c in scored;
      var j :| 0 <= j < |scored| && scored[j] == c;
      assert BeatenAt(scored, |scored|, pairs, key, j);
    }
  }

  lemma BeatenMore<A(!new), B(!new)>(d: Pair<A, B>, pairs: seq<Pair<A, B>>, c: Pair<A, B>, key: Pair<A, B> -> real)
    requires Beaten(d, pairs, key)
    ensures Beaten(d, pairs + [c], key)
  {
    var k :| 0 <= k < |pairs| && (pairs[k].left == d.left || pairs[k].right == d.right) && key(pairs[k]) >= key(d);
    assert (pairs + [c])[k] == pairs[k];
  }
}
