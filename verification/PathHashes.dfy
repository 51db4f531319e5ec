/** Path hash overlaps: the table of `_getPathHashOverlaps`, and what `_checkPathHashMatch` reads off it. */
module PathHashes {
  import opened Text
  import opened Pairing
  import opened VersionMatch
  import opened FlavorMatch

  /** Path hash overlaps, listed in both directions in one table. */
  type Overlaps = map<Info, seq<Info>>

  ghost predicate Symmetric(overlaps: Overlaps)
  {
    forall x, y :: x in overlaps && y in overlaps[x] ==> y in overlaps && x in overlaps[y]
  }

  /** No row of the table repeats a trove. */
  ghost predicate RowsOnce(overlaps: Overlaps)
  {
    forall x :: x in overlaps ==> NoneTwice(overlaps[x])
  }

  /** Whether the path hashes of an added and a removed trove have something in common. */
  type Shares = (Info, Info) -> bool

  ghost function InRow(overlaps: Overlaps, x: Info, y: Info): nat
  {
    if x in overlaps then multiset(overlaps[x])[y] else 0
  }

  /** `setdefault(x, []).append(y)` */
  function WithOverlap(overlaps: Overlaps, x: Info, y: Info): Overlaps
  {
    overlaps[x := (if x in overlaps then overlaps[x] else []) + [y]]
  }

  /** Each pair in `done` is listed once in either direction, and nothing else is. */
  ghost predicate Listed(overlaps: Overlaps, done: set<(Info, Info)>)
  {
    forall x, y :: ListedAt(overlaps, done, x, y)
  }

  ghost predicate ListedAt(overlaps: Overlaps, done: set<(Info, Info)>, x: Info, y: Info)
  {
    InRow(overlaps, x, y) == (if (x, y) in done then 1 else 0) + (if (y, x) in done then 1 else 0)
  }

  lemma ListBoth(overlaps: Overlaps, done: set<(Info, Info)>, n: Info, o: Info)
    requires Listed(overlaps, done) && (n, o) !in done
    ensures Listed(WithOverlap(WithOverlap(overlaps, n, o), o, n), done + {(n, o)})
  {
    var one := WithOverlap(overlaps, n, o);
    var both := WithOverlap(one, o, n);
    forall x, y
      ensures ListedAt(both, done + {(n, o)}, x, y)
    {
      assert ListedAt(overlaps, done, x, y);
      assert InRow(one, x, y) == InRow(overlaps, x, y) + if (x, y) == (n, o) then 1 else 0;
      assert InRow(both, x, y) == InRow(one, x, y) + if (x, y) == (o, n) then 1 else 0;
    }
  }

  ghost function Sharing(added: set<Info>, removed: set<Info>, share: Shares): set<(Info, Info)>
  {
    set n, o | n in added && o in removed && share(n, o) :: (n, o)
  }

  /** The inner loop of `_getPathHashOverlaps`. */
  method OverlapsWith(overlaps0: Overlaps, n: Info, removed: set<Info>, share: Shares, ghost done: set<(Info, Info)>)
    returns (overlaps: Overlaps)
    requires Listed(overlaps0, done) && forall o :: (n, o) !in done
    ensures Listed(overlaps, done + Sharing({n}, removed, share))
  {
    overlaps := overlaps0;
    var rest := removed;
    assert done + Sharing({n}, removed - rest, share) == done;
    while rest != {}
      invariant rest <= removed && Listed(overlaps, done + Sharing({n}, removed - rest, share))
      decreases |rest|
    {
      var o :| o in rest;
      ghost var before := done + Sharing({n}, removed - rest, share);
      rest := rest - {o};
      if share(n, o) {
        ListBoth(overlaps, before, n, o);
        overlaps := WithOverlap(WithOverlap(overlaps, n, o), o, n);
        assert before + {(n, o)} == done + Sharing({n}, removed - rest, share);
      } else {
        assert before == done + Sharing({n}, removed - rest, share);
      }
    }
    assert removed - rest == removed;
  }

  /** `_getPathHashOverlaps`, with the path hashes given: the table is the same in both directions, and no
      row repeats a trove unless one is both added and removed. */
  method PathHashOverlaps(added: set<Info>, removed: set<Info>, share: Shares) returns (overlaps: Overlaps)
    ensures Listed(overlaps, Sharing(added, removed, share))
    ensures Symmetric(overlaps) && (added !! removed ==> RowsOnce(overlaps))
  {
    overlaps := map[];
    var rest := added;
    assert Sharing(added - rest, removed, share) == {};
    while rest != {}
      invariant rest <= added && Listed(overlaps, Sharing(added - rest, removed, share))
      decreases |rest|
    {
      var n :| n in rest;
      ghost var before := Sharing(added - rest, removed, share);
      overlaps := OverlapsWith(overlaps, n, removed, share, before);
      rest := rest - {n};
      assert before + Sharing({n}, removed, share) == Sharing(added - rest, removed, share);
    }
    assert added - rest == added;
    ListedBothWays(overlaps, added, removed, share);
  }

  lemma ListedBothWays(overlaps: Overlaps, added: set<Info>, removed: set<Info>, share: Shares)
    requires Listed(overlaps, Sharing(added, removed, share))
    ensures Symmetric(overlaps) && (added !! removed ==> RowsOnce(overlaps))
  {
    var done := Sharing(added, removed, share);
    forall x, y | x in overlaps && y in overlaps[x]
      ensures y in overlaps && x in overlaps[y]
    {
      assert ListedAt(overlaps, done, x, y) && ListedAt(overlaps, done, y, x);
      assert y in multiset(overlaps[x]);
      assert InRow(overlaps, y, x) > 0;
    }
    if added !! removed {
      forall x | x in overlaps
        ensures NoneTwice(overlaps[x])
      {
        forall i, j | 0 <= i < j < |overlaps[x]|
          ensures overlaps[x][i] != overlaps[x][j]
        {
          assert ListedAt(overlaps, done, x, overlaps[x][i]);
          if overlaps[x][i] == overlaps[x][j] {
            RepeatCounts(overlaps[x], i, j);
          }
        }
      }
    }
  }

  // ---------------------------------------------------------------- what a row says within a list

  /** `[ x for x in xs if x in s ]` */
  function Among(xs: seq<Info>, s: set<Info>): (r: seq<Info>)
    ensures forall x :: x in r <==> x in xs && x in s
    ensures |r| <= |xs|
  {
    if xs == [] then []
    else Among(xs[..|xs| - 1], s) + (if xs[|xs| - 1] in s then [xs[|xs| - 1]] else [])
  }

  /** `[ x for x in xs if flavorCache.matches(x[1], flavor) ]` */
  function CompatibleWith(table: MatchTable, xs: seq<Info>, flavor: Flavor): seq<Info>
  {
    if xs == [] then []
    else
      CompatibleWith(table, xs[..|xs| - 1], flavor)
      + (if Compatible(table, xs[|xs| - 1].flavor, flavor) then [xs[|xs| - 1]] else [])
  }

  lemma {:induction false} CompatibleWithMembers(table: MatchTable, xs: seq<Info>, flavor: Flavor, x: Info)
    ensures x in CompatibleWith(table, xs, flavor) <==> x in xs && Compatible(table, x.flavor, flavor)
  {
    if xs != [] {
      CompatibleWithMembers(table, xs[..|xs| - 1], flavor, x);
      assert xs == xs[..|xs| - 1] + [xs[|xs| - 1]];
    }
  }

  lemma {:induction false} CompatibleWithFewer(table: MatchTable, xs: seq<Info>, flavor: Flavor)
    ensures |CompatibleWith(table, xs, flavor)| <= |xs|
  {
    if xs != [] {
      CompatibleWithFewer(table, xs[..|xs| - 1], flavor);
    }
  }

  function NotAmong(xs: seq<Info>, ys: seq<Info>): seq<Info>
  {
    if xs == [] then []
    else NotAmong(xs[..|xs| - 1], ys) + (if xs[|xs| - 1] !in ys then [xs[|xs| - 1]] else [])
  }

  /** The candidates inside the list which the pass may use. */
  function InMatches(table: MatchTable, matches: seq<Info>, list: set<Info>, flavor: Flavor, requireCompatible: bool)
    : seq<Info>
  {
    if requireCompatible then CompatibleWith(table, Among(matches, list), flavor) else Among(matches, list)
  }

  predicate Usable(table: MatchTable, list: set<Info>, flavor: Flavor, requireCompatible: bool, x: Info)
  {
    x in list && (requireCompatible ==> Compatible(table, x.flavor, flavor))
  }

  lemma UsableMembers(table: MatchTable, matches: seq<Info>, list: set<Info>, flavor: Flavor, requireCompatible: bool)
    ensures forall x :: x in InMatches(table, matches, list, flavor, requireCompatible)
                        <==> x in matches && Usable(table, list, flavor, requireCompatible, x)
  {
    forall x
      ensures x in InMatches(table, matches, list, flavor, requireCompatible)
              <==> x in matches && Usable(table, list, flavor, requireCompatible, x)
    {
      CompatibleWithMembers(table, Among(matches, list), flavor, x);
    }
  }

  lemma NoneUsable(table: MatchTable, matches: seq<Info>, list: set<Info>, flavor: Flavor, requireCompatible: bool)
    ensures InMatches(table, matches, list, flavor, requireCompatible) == []
            <==> forall x :: x in matches ==> !Usable(table, list, flavor, requireCompatible, x)
  {
    UsableMembers(table, matches, list, flavor, requireCompatible);
    var usable := InMatches(table, matches, list, flavor, requireCompatible);
    if usable != [] {
      assert usable[0] in usable;
    }
  }

  lemma {:induction false} InMatchesCount(table: MatchTable, matches: seq<Info>, list: set<Info>, flavor: Flavor,
                                          requireCompatible: bool, all: seq<Info>)
    requires forall x :: x in matches && Usable(table, list, flavor, requireCompatible, x) ==> x in all
    requires forall x :: x in all ==> Usable(table, list, flavor, requireCompatible, x)
    ensures |InMatches(table, matches, list, flavor, requireCompatible)| + |NotAmong(matches, all)| == |matches|
  {
    if matches != [] {
      var before, last := matches[..|matches| - 1], matches[|matches| - 1];
      InMatchesCount(table, before, list, flavor, requireCompatible, all);
      var rest := Among(before, list);
      if last in list {
        assert (rest + [last])[..|rest|] == rest;
      } else {
        assert rest + [] == rest;
      }
    }
  }

  /** A match that path hashes suggest: the two overlap, and are compatible if that is asked for. */
  ghost predicate HashMatch(table: MatchTable, overlaps: Overlaps, requireCompatible: bool, m: Pair<Info, Info>)
  {
    && m.right in overlaps && m.left in overlaps[m.right]
    && Eligible(table, requireCompatible, m.left.flavor, m.right.flavor)
  }

  /** `removed` is the only trove of the list that the path hashes of `added` point to, and points
      to no other added one. */
  ghost predicate OnlyPartner(table: MatchTable, overlaps: Overlaps, requireCompatible: bool,
                              addedList: set<Info>, removedList: set<Info>, added: Info, removed: Info)
  {
    && added in overlaps && removed in overlaps
    && InMatches(table, overlaps[added], removedList, added.flavor, requireCompatible) == [removed]
    && |InMatches(table, overlaps[removed], addedList, added.flavor, requireCompatible)| <= 1
  }

  /** Two different troves of a row can be used. */
  ghost predicate TwoUsable(table: MatchTable, row: seq<Info>, list: set<Info>, flavor: Flavor, requireCompatible: bool)
  {
    exists x, y :: x != y && x in row && y in row
      && Usable(table, list, flavor, requireCompatible, x) && Usable(table, list, flavor, requireCompatible, y)
  }

  lemma {:induction false} AmongOnce(xs: seq<Info>, s: set<Info>)
    requires NoneTwice(xs)
    ensures NoneTwice(Among(xs, s))
  {
    if xs != [] {
      var before, last := xs[..|xs| - 1], xs[|xs| - 1];
      assert xs == before + [last];
      AmongOnce(before, s);
      assert last !in before;
      assert last !in Among(before, s);
    }
  }

  lemma {:induction false} CompatibleOnce(table: MatchTable, xs: seq<Info>, flavor: Flavor)
    requires NoneTwice(xs)
    ensures NoneTwice(CompatibleWith(table, xs, flavor))
  {
    if xs != [] {
      var before, last := xs[..|xs| - 1], xs[|xs| - 1];
      assert xs == before + [last];
      CompatibleOnce(table, before, flavor);
      assert last !in before;
      CompatibleWithMembers(table, before, flavor, last);
    }
  }

  lemma InMatchesOnce(table: MatchTable, row: seq<Info>, list: set<Info>, flavor: Flavor, requireCompatible: bool)
    requires NoneTwice(row)
    ensures NoneTwice(InMatches(table, row, list, flavor, requireCompatible))
  {
    AmongOnce(row, list);
    if requireCompatible {
      CompatibleOnce(table, Among(row, list), flavor);
    }
  }

  lemma {:induction false} SeveralUsable(table: MatchTable, row: seq<Info>, list: set<Info>, flavor: Flavor,
                                         requireCompatible: bool)
    requires NoneTwice(row)
    ensures |InMatches(table, row, list, flavor, requireCompatible)| > 1 <==> TwoUsable(table, row, list, flavor, requireCompatible)
  {
    var l := InMatches(table, row, list, flavor, requireCompatible);
    UsableMembers(table, row, list, flavor, requireCompatible);
    InMatchesOnce(table, row, list, flavor, requireCompatible);
    if |l| > 1 {
      assert l[0] in l && l[1] in l && l[0] != l[1];
    }
    if TwoUsable(table, row, list, flavor, requireCompatible) {
      var x, y :| x != y && x in row && y in row
        && Usable(table, list, flavor, requireCompatible, x) && Usable(table, list, flavor, requireCompatible, y);
      var i :| 0 <= i < |l| && l[i] == x;
      var j :| 0 <= j < |l| && l[j] == y;
    }
  }

  /** Two troves are partners exactly if they overlap, and neither overlaps with anything else in the lists that
      could be used. */
  lemma PartnersOnly(table: MatchTable, overlaps: Overlaps, requireCompatible: bool,
                     addedList: set<Info>, removedList: set<Info>, added: Info, removed: Info)
    requires Symmetric(overlaps) && RowsOnce(overlaps) && added in overlaps && removed in overlaps
    ensures OnlyPartner(table, overlaps, requireCompatible, addedList, removedList, added, removed) <==>
              && removed in overlaps[added] && Usable(table, removedList, added.flavor, requireCompatible, removed)
              && !TwoUsable(table, overlaps[added], removedList, added.flavor, requireCompatible)
              && !TwoUsable(table, overlaps[removed], addedList, added.flavor, requireCompatible)
  {
    SeveralUsable(table, overlaps[added], removedList, added.flavor, requireCompatible);
    SeveralUsable(table, overlaps[removed], addedList, added.flavor, requireCompatible);
    UsableMembers(table, overlaps[added], removedList, added.flavor, requireCompatible);
    var l := InMatches(table, overlaps[added], removedList, added.flavor, requireCompatible);
    if l == [removed] {
      assert l[0] in l;
    }
    if removed in l && |l| <= 1 {
      assert l == [removed];
    }
  }

  ghost predicate NoPartner(table: MatchTable, overlaps: Overlaps, requireCompatible: bool,
                            added: set<Info>, removed: set<Info>, x: Info)
  {
    forall o :: !OnlyPartner(table, overlaps, requireCompatible, added, removed, x, o)
  }

  lemma PartnerIsHashMatch(table: MatchTable, overlaps: Overlaps, requireCompatible: bool, added: set<Info>,
                           removed: set<Info>, n: Info, o: Info)
    requires OnlyPartner(table, overlaps, requireCompatible, added, removed, n, o)
    ensures HashMatch(table, overlaps, requireCompatible, Pair(o, n)) && o in removed
  {
    UsableMembers(table, overlaps[n], removed, n.flavor, requireCompatible);
    assert o in InMatches(table, overlaps[n], removed, n.flavor, requireCompatible);
  }

  /** The only partner stays the only one if compatible flavors are asked for and these are. */
  lemma PartnerIfCompatible(table: MatchTable, overlaps: Overlaps, added: set<Info>, removed: set<Info>, n: Info, o: Info)
    requires OnlyPartner(table, overlaps, false, added, removed, n, o) && Compatible(table, o.flavor, n.flavor)
    ensures OnlyPartner(table, overlaps, true, added, removed, n, o)
  {
    assert Among(overlaps[n], removed) == [o];
    assert [o][..0] == [];
    assert CompatibleWith(table, [o], n.flavor) == CompatibleWith(table, [], n.flavor) + [o];
    CompatibleWithFewer(table, Among(overlaps[o], added), n.flavor);
  }

  lemma {:induction false} AmongOne(xs: seq<Info>, x: Info)
    requires NoneTwice(xs)
    ensures Among(xs, {x}) == if x in xs then [x] else []
  {
    if xs != [] {
      var before, last := xs[..|xs| - 1], xs[|xs| - 1];
      assert NoneTwice(before);
      AmongOne(before, x);
      assert xs == before + [last];
      assert last !in before;
    }
  }

  /** For one trove on each side, an overlap is a match. */
  lemma OverlapIsPartner(table: MatchTable, overlaps: Overlaps, o: Info, n: Info)
    requires Symmetric(overlaps) && RowsOnce(overlaps) && n in overlaps && o in overlaps[n]
    ensures OnlyPartner(table, overlaps, false, {n}, {o}, n, o)
  {
    AmongOne(overlaps[n], o);
    AmongOne(overlaps[o], n);
  }

  /** There are overlaps, but none in the list: a match should wait. */
  ghost predicate Elsewhere(table: MatchTable, overlaps: Overlaps, requireCompatible: bool, list: set<Info>, x: Info)
  {
    && x in overlaps && overlaps[x] != []
    && InMatches(table, overlaps[x], list, x.flavor, requireCompatible) == []
  }

  /** It goes on waiting as the list shrinks. */
  lemma StillElsewhere(table: MatchTable, overlaps: Overlaps, requireCompatible: bool, list: set<Info>, x: Info,
                       list': set<Info>)
    requires Elsewhere(table, overlaps, requireCompatible, list, x) && list' <= list
    ensures Elsewhere(table, overlaps, requireCompatible, list', x)
  {
    NoneUsable(table, overlaps[x], list, x.flavor, requireCompatible);
    NoneUsable(table, overlaps[x], list', x.flavor, requireCompatible);
  }
}
