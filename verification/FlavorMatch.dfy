/** Matching by flavor: the cached symmetric flavor score and the greedy pairing of flavor groups
    (`FlavorScoreCache` and `_matchByFlavorAndVersion`). */
module FlavorMatch {
  import opened Text
  import opened Pairing
  import opened VersionMatch

  const NEG_INF: int := -9999
  const POS_INF: int := 9999

  /** What matching is given: which flavors are empty, how one scores against another (None is False,
      no match at all), and the time stamps of the troves. */
  datatype MatchTable = MatchTable(isEmpty: Flavor -> bool, score: (Flavor, Flavor) -> Option<int>, stamp: Stamp)

  function Better(best: int, score: Option<int>): int
  {
    if score.Some? && score.value > best then score.value else best
  }

  /** The score of an old and a new flavor, whichever way round it is better. */
  function FlavorScore(table: MatchTable, oldFlavor: Flavor, newFlavor: Flavor): int
  {
    if table.isEmpty(oldFlavor) && table.isEmpty(newFlavor) then POS_INF
    else Better(Better(NEG_INF, table.score(newFlavor, oldFlavor)), table.score(oldFlavor, newFlavor))
  }

  predicate Compatible(table: MatchTable, oldFlavor: Flavor, newFlavor: Flavor)
  {
    FlavorScore(table, oldFlavor, newFlavor) > NEG_INF
  }

  /** The two sides can be exchanged, which is why the cache may be filled both ways at once. */
  lemma FlavorScoreSymmetric(table: MatchTable, a: Flavor, b: Flavor)
    ensures FlavorScore(table, a, b) == FlavorScore(table, b, a)
  {
  }

  /** It is the better of the two, and flavors are incompatible if neither is better than the lowest. */
  lemma FlavorScoreIsBest(table: MatchTable, a: Flavor, b: Flavor)
    ensures table.isEmpty(a) && table.isEmpty(b) ==> FlavorScore(table, a, b) == POS_INF
    ensures !(table.isEmpty(a) && table.isEmpty(b)) ==>
              var scores := [Some(NEG_INF), table.score(a, b), table.score(b, a)];
              && Some(FlavorScore(table, a, b)) in scores
              && forall x :: x in scores && x.Some? ==> x.value <= FlavorScore(table, a, b)
    ensures Compatible(table, a, b) <==>
              || (table.isEmpty(a) && table.isEmpty(b))
              || (exists x: int :: x > NEG_INF && (table.score(a, b) == Some(x) || table.score(b, a) == Some(x)))
  {
    assert [Some(NEG_INF), table.score(a, b), table.score(b, a)][0] == Some(NEG_INF);
    assert [Some(NEG_INF), table.score(a, b), table.score(b, a)][1] == table.score(a, b);
    assert [Some(NEG_INF), table.score(a, b), table.score(b, a)][2] == table.score(b, a);
  }

  class FlavorScoreCache {
    const table: MatchTable
    var cache: map<(Flavor, Flavor), int>

    ghost predicate Valid()
      reads this
    {
      forall k :: k in cache ==> cache[k] == FlavorScore(table, k.0, k.1)
    }

    constructor (table: MatchTable)
      ensures Valid() && this.table == table
    {
      this.table := table;
      cache := map[];
    }

    /** `__getitem__`: the cache never changes what is answered. */
    method Get(oldFlavor: Flavor, newFlavor: Flavor) returns (score: int)
      requires Valid()
      modifies this
      ensures Valid() && score == FlavorScore(table, oldFlavor, newFlavor)
    {
      if (oldFlavor, newFlavor) !in cache {
        var best := POS_INF;
        if !(table.isEmpty(oldFlavor) && table.isEmpty(newFlavor)) {
          best := Better(Better(NEG_INF, table.score(newFlavor, oldFlavor)), table.score(oldFlavor, newFlavor));
        }
        FlavorScoreSymmetric(table, oldFlavor, newFlavor);
        cache := cache[(oldFlavor, newFlavor) := best];
        cache := cache[(newFlavor, oldFlavor) := best];
        return best;
      }
      return cache[(oldFlavor, newFlavor)];
    }

    /** `matches` */
    method Matches(oldFlavor: Flavor, newFlavor: Flavor) returns (r: bool)
      requires Valid()
      modifies this
      ensures Valid() && (r <==> Compatible(table, oldFlavor, newFlavor))
    {
      var score := Get(oldFlavor, newFlavor);
      r := score > NEG_INF;
    }
  }

  // ---------------------------------------------------------------- pairing flavors

  type FlavorPair = Pair<Flavor, Flavor>

  predicate Eligible(table: MatchTable, requireCompatible: bool, oldFlavor: Flavor, newFlavor: Flavor)
  {
    requireCompatible ==> Compatible(table, oldFlavor, newFlavor)
  }

  function Flavors(infos: set<Info>): set<Flavor>
  {
    set x | x in infos :: x.flavor
  }

  function OfFlavor(infos: set<Info>, f: Flavor): set<Info>
  {
    set x | x in infos && x.flavor == f
  }

  function Key(table: MatchTable): FlavorPair -> real
  {
    (p: FlavorPair) => FlavorScore(table, p.left, p.right) as real
  }

  ghost predicate Candidate(table: MatchTable, requireCompatible: bool, olds: set<Flavor>, news: set<Flavor>, p: FlavorPair)
  {
    p.left in olds && p.right in news && Eligible(table, requireCompatible, p.left, p.right)
  }

  /** One new flavor against every old one. */
  method ScoreFlavor(cache: FlavorScoreCache, newFlavor: Flavor, olds: set<Flavor>, requireCompatible: bool)
    returns (scored: set<FlavorPair>)
    requires cache.Valid()
    modifies cache
    ensures cache.Valid()
    ensures forall p :: p in scored <==> Candidate(cache.table, requireCompatible, olds, {newFlavor}, p)
  {
    scored := {};
    var oldsToDo := olds;
    while oldsToDo != {}
      invariant oldsToDo <= olds && cache.Valid()
      invariant forall p :: p in scored <==> Candidate(cache.table, requireCompatible, olds - oldsToDo, {newFlavor}, p)
      decreases |oldsToDo|
    {
      var oldFlavor :| oldFlavor in oldsToDo;
      var score := cache.Get(oldFlavor, newFlavor);
      if !requireCompatible || score > NEG_INF {
        scored := scored + {Pair(oldFlavor, newFlavor)};
      }
      oldsToDo := oldsToDo - {oldFlavor};
    }
  }

  /** Every new flavor is scored against every old one, and pairs are picked off from the highest
      score down. Of any two flavors that could have been paired, one went to a flavor that scores
      at least as well. */
  method PairFlavors(cache: FlavorScoreCache, olds: set<Flavor>, news: set<Flavor>, requireCompatible: bool)
    returns (changePair: seq<FlavorPair>)
    requires cache.Valid()
    modifies cache
    ensures cache.Valid()
    ensures Pairs(changePair, olds, news)
    ensures forall k :: 0 <= k < |changePair| ==> Candidate(cache.table, requireCompatible, olds, news, changePair[k])
    ensures forall p :: Candidate(cache.table, requireCompatible, olds, news, p) ==> Beaten(p, changePair, Key(cache.table))
  {
    var scored: set<FlavorPair> := {};
    var newsToDo := news;
    while newsToDo != {}
      invariant newsToDo <= news && cache.Valid()
      invariant forall p :: p in scored <==> Candidate(cache.table, requireCompatible, olds, news - newsToDo, p)
      decreases |newsToDo|
    {
      var newFlavor :| newFlavor in newsToDo;
      var more := ScoreFlavor(cache, newFlavor, olds, requireCompatible);
      scored := scored + more;
      newsToDo := newsToDo - {newFlavor};
    }
    var oldsLeft, newsLeft;
    changePair, oldsLeft, newsLeft := Greedy(scored, olds, news, Key(cache.table));
  }

  // ---------------------------------------------------------------- matching by flavor, then version

  /** Some match shares a flavor with `o` or with `n`, not both, and scores at least as well. */
  ghost predicate Outdone(table: MatchTable, matches: Matches, o: Info, n: Info)
  {
    exists k :: 0 <= k < |matches| && Outdoes(table, matches[k], o, n)
  }

  ghost predicate Outdoes(table: MatchTable, m: Pair<Info, Info>, o: Info, n: Info)
  {
    && (m.left.flavor == o.flavor || m.right.flavor == n.flavor)
    && (m.left.flavor, m.right.flavor) != (o.flavor, n.flavor)
    && FlavorScore(table, m.left.flavor, m.right.flavor) >= FlavorScore(table, o.flavor, n.flavor)
  }

  /** If `o` and `n` could have been matched, one of them was, or another match outdid them. */
  ghost predicate Accounted(table: MatchTable, requireCompatible: bool, matches: Matches, o: Info, n: Info)
  {
    Eligible(table, requireCompatible, o.flavor, n.flavor) ==>
      o in Lefts(matches) || n in Rights(matches) || Outdone(table, matches, o, n)
  }

  /** A flavor pair has used up one of its two groups, and matched something. */
  ghost predicate GroupDone(olds: set<Info>, news: set<Info>, matches: Matches, p: FlavorPair)
  {
    && (OfFlavor(olds, p.left) <= Lefts(matches) || OfFlavor(news, p.right) <= Rights(matches))
    && HasMatch(matches, p)
  }

  ghost predicate HasMatch(matches: Matches, p: FlavorPair)
  {
    exists j :: 0 <= j < |matches| && matches[j].left.flavor == p.left && matches[j].right.flavor == p.right
  }

  ghost predicate GroupDoneAt(olds: set<Info>, news: set<Info>, changePair: seq<FlavorPair>, i: nat, matches: Matches, k: int)
    requires i <= |changePair|
  {
    0 <= k < i ==> GroupDone(olds, news, matches, changePair[k])
  }

  ghost predicate MatchEligible(table: MatchTable, requireCompatible: bool, matches: Matches, k: int)
  {
    0 <= k < |matches| ==> Eligible(table, requireCompatible, matches[k].left.flavor, matches[k].right.flavor)
  }

  // Which groups `_versionMatch` gets through: some way to match on labels first leaves nothing, or
  // something, that the measure of its second pass cannot tell apart.

  ghost predicate LabelsFirst(olds: set<Info>, news: set<Info>, stamp: Stamp, sameLabel: Matches, told: bool)
  {
    && Pairs(sameLabel, olds, news) && SameLabelDone(olds, news, stamp, sameLabel)
    && (told <==> ToldApart(olds - Lefts(sameLabel), news - Rights(sameLabel)))
  }

  ghost predicate GroupTold(olds: set<Info>, news: set<Info>, stamp: Stamp, p: FlavorPair, told: bool)
  {
    exists sameLabel :: LabelsFirst(OfFlavor(olds, p.left), OfFlavor(news, p.right), stamp, sameLabel, told)
  }

  /** The same, said of the two groups alone. */
  ghost predicate GroupSurplusTold(olds: set<Info>, news: set<Info>, stamp: Stamp, p: FlavorPair)
  {
    SurplusTold(OfFlavor(olds, p.left), OfFlavor(news, p.right), stamp)
  }

  /** No two troves of one flavor and label share a time stamp. */
  ghost predicate StampsDifferByFlavor(infos: set<Info>, stamp: Stamp)
  {
    forall f :: StampsDiffer(OfFlavor(infos, f), stamp)
  }

  lemma GroupToldBySurplus(olds: set<Info>, news: set<Info>, stamp: Stamp, p: FlavorPair, told: bool)
    requires StampsDifferByFlavor(olds, stamp) && StampsDifferByFlavor(news, stamp)
    requires GroupTold(olds, news, stamp, p, told)
    ensures told <==> GroupSurplusTold(olds, news, stamp, p)
  {
    var os, ns := OfFlavor(olds, p.left), OfFlavor(news, p.right);
    var sameLabel :| LabelsFirst(os, ns, stamp, sameLabel, told);
    LeftIsSurplus(os, ns, stamp, sameLabel);
  }

  /** Two troves that could be matched, on different labels, for which the measure divides by zero. */
  ghost predicate Confused(table: MatchTable, requireCompatible: bool, olds: set<Info>, news: set<Info>, o: Info, n: Info)
  {
    o in olds && n in news && !ToldApartPair(o, n) && Eligible(table, requireCompatible, o.flavor, n.flavor)
  }

  lemma UntoldGroupConfused(table: MatchTable, requireCompatible: bool, olds: set<Info>, news: set<Info>, stamp: Stamp,
                            p: FlavorPair)
    returns (o: Info, n: Info)
    requires GroupTold(olds, news, stamp, p, false) && Eligible(table, requireCompatible, p.left, p.right)
    ensures Confused(table, requireCompatible, olds, news, o, n)
  {
    var os, ns := OfFlavor(olds, p.left), OfFlavor(news, p.right);
    var sameLabel :| LabelsFirst(os, ns, stamp, sameLabel, false);
    o, n :| o in os - Lefts(sameLabel) && n in ns - Rights(sameLabel) && !ToldApartPair(o, n);
  }

  ghost predicate FlavorsFrom(matches: Matches, changePair: seq<FlavorPair>)
  {
    && (forall x :: x in Lefts(matches) ==> x.flavor in Lefts(changePair))
    && (forall x :: x in Rights(matches) ==> x.flavor in Rights(changePair))
  }

  /** The invariant after the first `i` flavor pairs. */
  ghost predicate GroupsSoFar(table: MatchTable, requireCompatible: bool, olds: set<Info>, news: set<Info>,
                              changePair: seq<FlavorPair>, i: nat, matches: Matches)
    requires i <= |changePair|
  {
    && Pairs(matches, olds, news)
    && FlavorsFrom(matches, changePair[..i])
    && (forall k :: GroupDoneAt(olds, news, changePair, i, matches, k))
    && (forall k :: MatchEligible(table, requireCompatible, matches, k))
  }

  lemma GroupDoneMore(olds: set<Info>, news: set<Info>, matches: Matches, more: Matches, p: FlavorPair)
    requires GroupDone(olds, news, matches, p)
    requires Lefts(matches + more) == Lefts(matches) + Lefts(more)
    requires Rights(matches + more) == Rights(matches) + Rights(more)
    ensures GroupDone(olds, news, matches + more, p)
  {
    var j :| 0 <= j < |matches| && matches[j].left.flavor == p.left && matches[j].right.flavor == p.right;
    assert (matches + more)[j] == matches[j];
  }

  /** All of the smaller group are in a matching of its size. */
  lemma SmallerUsedUp(olds: set<Info>, news: set<Info>, more: Matches)
    requires Pairs(more, olds, news)
    requires |more| == if |olds| < |news| then |olds| else |news|
    ensures olds <= Lefts(more) || news <= Rights(more)
  {
    PairsCount(more, olds, news);
    if |olds| < |news| {
      assert |olds - Lefts(more)| == 0;
      assert olds - Lefts(more) == {};
    } else {
      assert |news - Rights(more)| == 0;
      assert news - Rights(more) == {};
    }
  }

  lemma NewGroupDone(olds: set<Info>, news: set<Info>, p: FlavorPair, matches: Matches, more: Matches)
    requires p.left in Flavors(olds) && p.right in Flavors(news)
    requires var os, ns := OfFlavor(olds, p.left), OfFlavor(news, p.right);
             Pairs(more, os, ns) && |more| == if |os| < |ns| then |os| else |ns|
    requires Lefts(matches + more) == Lefts(matches) + Lefts(more)
    requires Rights(matches + more) == Rights(matches) + Rights(more)
    ensures GroupDone(olds, news, matches + more, p)
  {
    var os, ns := OfFlavor(olds, p.left), OfFlavor(news, p.right);
    var o :| o in olds && o.flavor == p.left;
    var n :| n in news && n.flavor == p.right;
    assert o in os && n in ns;
    SmallerUsedUp(os, ns, more);
    PairAt(more, os, ns, 0);
    assert (matches + more)[|matches|] == more[0];
  }

  /** One more flavor pair: its group is disjoint from those before. */
  lemma AddGroupPairs(olds: set<Info>, news: set<Info>, changePair: seq<FlavorPair>, i: nat,
                      matches: Matches, more: Matches)
    requires Pairs(changePair, Flavors(olds), Flavors(news)) && i < |changePair|
    requires Pairs(matches, olds, news) && FlavorsFrom(matches, changePair[..i])
    requires Pairs(more, OfFlavor(olds, changePair[i].left), OfFlavor(news, changePair[i].right))
    ensures Pairs(matches + more, olds, news)
    ensures Lefts(matches + more) == Lefts(matches) + Lefts(more)
    ensures Rights(matches + more) == Rights(matches) + Rights(more)
  {
    var os, ns := OfFlavor(olds, changePair[i].left), OfFlavor(news, changePair[i].right);
    FreshFlavors(changePair, Flavors(olds), Flavors(news), i);
    assert os <= olds - Lefts(matches) && ns <= news - Rights(matches);
    PairsWithin(more, os, ns, olds - Lefts(matches), news - Rights(matches));
    PairsConcat(matches, more, olds, news);
  }

  lemma AddGroupFlavors(olds: set<Info>, news: set<Info>, changePair: seq<FlavorPair>, i: nat,
                        matches: Matches, more: Matches)
    requires i < |changePair| && FlavorsFrom(matches, changePair[..i])
    requires Pairs(more, OfFlavor(olds, changePair[i].left), OfFlavor(news, changePair[i].right))
    requires Lefts(matches + more) == Lefts(matches) + Lefts(more)
    requires Rights(matches + more) == Rights(matches) + Rights(more)
    ensures FlavorsFrom(matches + more, changePair[..i + 1])
  {
    var used := changePair[..i + 1];
    assert used[..i] == changePair[..i];
    assert Lefts(used) == Lefts(changePair[..i]) + {changePair[i].left};
    assert Rights(used) == Rights(changePair[..i]) + {changePair[i].right};
    PairsCount(more, OfFlavor(olds, changePair[i].left), OfFlavor(news, changePair[i].right));
  }

  lemma {:induction false} AddGroup(table: MatchTable, requireCompatible: bool, olds: set<Info>, news: set<Info>,
                 changePair: seq<FlavorPair>, i: nat, matches: Matches, more: Matches)
    requires Pairs(changePair, Flavors(olds), Flavors(news)) && i < |changePair|
    requires Eligible(table, requireCompatible, changePair[i].left, changePair[i].right)
    requires GroupsSoFar(table, requireCompatible, olds, news, changePair, i, matches)
    requires var os, ns := OfFlavor(olds, changePair[i].left), OfFlavor(news, changePair[i].right);
             Pairs(more, os, ns) && |more| == if |os| < |ns| then |os| else |ns|
    ensures GroupsSoFar(table, requireCompatible, olds, news, changePair, i + 1, matches + more)
  {
    var next := i + 1;
    AddGroupPairs(olds, news, changePair, i, matches, more);
    AddGroupFlavors(olds, news, changePair, i, matches, more);
    FreshFlavors(changePair, Flavors(olds), Flavors(news), i);
    forall k
      ensures GroupDoneAt(olds, news, changePair, next, matches + more, k)
    {
      assert GroupDoneAt(olds, news, changePair, i, matches, k);
      if 0 <= k < i {
        GroupDoneMore(olds, news, matches, more, changePair[k]);
      } else if k == i {
        NewGroupDone(olds, news, changePair[i], matches, more);
      }
    }
    forall k
      ensures MatchEligible(table, requireCompatible, matches + more, k)
    {
      AddGroupEligible(table, requireCompatible, olds, news, changePair[i], matches, more, k);
    }
  }

  lemma AddGroupEligible(table: MatchTable, requireCompatible: bool, olds: set<Info>, news: set<Info>,
                         p: FlavorPair, matches: Matches, more: Matches, k: int)
    requires Eligible(table, requireCompatible, p.left, p.right)
    requires Pairs(more, OfFlavor(olds, p.left), OfFlavor(news, p.right))
    requires forall k :: MatchEligible(table, requireCompatible, matches, k)
    ensures MatchEligible(table, requireCompatible, matches + more, k)
  {
    assert MatchEligible(table, requireCompatible, matches, k);
    if |matches| <= k < |matches + more| {
      PairAt(more, OfFlavor(olds, p.left), OfFlavor(news, p.right), k - |matches|);
    }
  }

  lemma {:induction false} FreshFlavors(changePair: seq<FlavorPair>, olds: set<Flavor>, news: set<Flavor>, i: nat)
    requires Pairs(changePair, olds, news) && i < |changePair|
    ensures changePair[i].left in olds && changePair[i].left !in Lefts(changePair[..i])
    ensures changePair[i].right in news && changePair[i].right !in Rights(changePair[..i])
  {
    var before := changePair[..|changePair| - 1];
    if i < |before| {
      FreshFlavors(before, olds, news, i);
      assert before[..i] == changePair[..i];
    }
  }

  /** One flavor pair. */
  method MatchGroup(removedList: set<Info>, addedList: set<Info>, p: FlavorPair, stamp: Stamp) returns (r: Result<Matches>)
    ensures GroupTold(removedList, addedList, stamp, p, r.Ok?)
    ensures r.Ok? ==> VersionMatched(OfFlavor(removedList, p.left), OfFlavor(addedList, p.right), stamp, r.value)
    ensures r.Ok? ==> forall k :: MatchTold(r.value, k)
  {
    var oldInfoList := OfFlavor(removedList, p.left);
    var newInfoList := OfFlavor(addedList, p.right);
    ghost var sameLabel, closest, dregs;
    r, sameLabel, closest, dregs := MatchVersions(oldInfoList, newInfoList, stamp);
    assert LabelsFirst(oldInfoList, newInfoList, stamp, sameLabel, r.Ok?);
  }

  lemma AllAccounted(table: MatchTable, requireCompatible: bool, olds: set<Info>, news: set<Info>,
                     changePair: seq<FlavorPair>, matches: Matches, o: Info, n: Info)
    requires o in olds && n in news
    requires GroupsSoFar(table, requireCompatible, olds, news, changePair, |changePair|, matches)
    requires Candidate(table, requireCompatible, Flavors(olds), Flavors(news), Pair(o.flavor, n.flavor)) ==>
               Beaten(Pair(o.flavor, n.flavor), changePair, Key(table))
    ensures Accounted(table, requireCompatible, matches, o, n)
  {
    var c := Pair(o.flavor, n.flavor);
    if Eligible(table, requireCompatible, o.flavor, n.flavor) {
      assert o.flavor in Flavors(olds) && n.flavor in Flavors(news);
      var k :| 0 <= k < |changePair| && (changePair[k].left == c.left || changePair[k].right == c.right)
        && Key(table)(changePair[k]) >= Key(table)(c);
      assert GroupDoneAt(olds, news, changePair, |changePair|, matches, k);
      if changePair[k] == c {
        assert o in OfFlavor(olds, o.flavor) && n in OfFlavor(news, n.flavor);
      } else {
        var j :| 0 <= j < |matches|
          && matches[j].left.flavor == changePair[k].left && matches[j].right.flavor == changePair[k].right;
        assert Outdoes(table, matches[j], o, n);
      }
    }
  }

  ghost predicate GroupToldAt(olds: set<Info>, news: set<Info>, stamp: Stamp, changePair: seq<FlavorPair>, told: bool,
                              k: int)
  {
    0 <= k < |changePair| ==> GroupTold(olds, news, stamp, changePair[k], told)
  }

  function Flat(parts: seq<Matches>): Matches
  {
    if parts == [] then [] else Flat(parts[..|parts| - 1]) + parts[|parts| - 1]
  }

  ghost predicate GroupMatched(olds: set<Info>, news: set<Info>, stamp: Stamp, changePair: seq<FlavorPair>,
                               parts: seq<Matches>, k: int)
  {
    0 <= k < |parts| && k < |changePair| ==>
      VersionMatched(OfFlavor(olds, changePair[k].left), OfFlavor(news, changePair[k].right), stamp, parts[k])
  }

  /** The matches are those of `_versionMatch` over the group of each flavor pair, one group after the other. */
  ghost predicate InGroups(olds: set<Info>, news: set<Info>, stamp: Stamp, changePair: seq<FlavorPair>, matches: Matches)
  {
    exists parts :: GroupsMatched(olds, news, stamp, changePair, parts) && matches == Flat(parts)
  }

  ghost predicate GroupsMatched(olds: set<Info>, news: set<Info>, stamp: Stamp, changePair: seq<FlavorPair>,
                                parts: seq<Matches>)
  {
    |parts| == |changePair| && forall k :: GroupMatched(olds, news, stamp, changePair, parts, k)
  }

  lemma GroupStill(olds: set<Info>, news: set<Info>, stamp: Stamp, before: seq<FlavorPair>, p: FlavorPair,
                   parts: seq<Matches>, more: Matches, k: int)
    requires |parts| == |before| && GroupMatched(olds, news, stamp, before, parts, k)
    requires VersionMatched(OfFlavor(olds, p.left), OfFlavor(news, p.right), stamp, more)
    ensures GroupMatched(olds, news, stamp, before + [p], parts + [more], k)
  {
    if 0 <= k < |parts| {
      assert (parts + [more])[k] == parts[k] && (before + [p])[k] == before[k];
    } else if k == |parts| {
      assert (parts + [more])[k] == more && (before + [p])[k] == p;
    }
  }

  lemma NextGroup(olds: set<Info>, news: set<Info>, stamp: Stamp, before: seq<FlavorPair>, p: FlavorPair,
                  matches: Matches, more: Matches)
    requires InGroups(olds, news, stamp, before, matches)
    requires VersionMatched(OfFlavor(olds, p.left), OfFlavor(news, p.right), stamp, more)
    ensures InGroups(olds, news, stamp, before + [p], matches + more)
  {
    var parts :| GroupsMatched(olds, news, stamp, before, parts) && matches == Flat(parts);
    var all, now := parts + [more], before + [p];
    assert all[..|all| - 1] == parts;
    forall k
      ensures GroupMatched(olds, news, stamp, now, all, k)
    {
      GroupStill(olds, news, stamp, before, p, parts, more, k);
    }
    assert GroupsMatched(olds, news, stamp, now, all);
  }

  lemma NoGroups(olds: set<Info>, news: set<Info>, stamp: Stamp)
    ensures InGroups(olds, news, stamp, [], [])
  {
    var parts: seq<Matches> := [];
    assert forall k :: GroupMatched(olds, news, stamp, [], parts, k);
    assert GroupsMatched(olds, news, stamp, [], parts) && Flat(parts) == [];
  }

  /** What `_matchByFlavorAndVersion` promises when it gets through. */
  ghost predicate MatchedByFlavor(table: MatchTable, requireCompatible: bool, olds: set<Info>, news: set<Info>,
                                  stamp: Stamp, changePair: seq<FlavorPair>, matches: Matches)
  {
    && Pairs(matches, olds, news) && InGroups(olds, news, stamp, changePair, matches)
    && (forall k :: MatchEligible(table, requireCompatible, matches, k))
    && (forall k :: MatchTold(matches, k))
    && (forall o, n {:trigger Accounted(table, requireCompatible, matches, o, n)} :: o in olds && n in news ==> Accounted(table, requireCompatible, matches, o, n))
    && (forall k :: GroupToldAt(olds, news, stamp, changePair, true, k))
  }

  /** And when it raises: some flavor pair has a group that `_versionMatch` does not get through. */
  ghost predicate GroupFails(table: MatchTable, requireCompatible: bool, olds: set<Info>, news: set<Info>, stamp: Stamp,
                             changePair: seq<FlavorPair>)
  {
    exists k :: 0 <= k < |changePair|
      && Eligible(table, requireCompatible, changePair[k].left, changePair[k].right)
      && GroupTold(olds, news, stamp, changePair[k], false)
  }

  ghost predicate PairedFlavors(table: MatchTable, requireCompatible: bool, olds: set<Flavor>, news: set<Flavor>,
                                changePair: seq<FlavorPair>)
  {
    && Pairs(changePair, olds, news)
    && (forall k :: 0 <= k < |changePair| ==> Candidate(table, requireCompatible, olds, news, changePair[k]))
    && (forall p :: Candidate(table, requireCompatible, olds, news, p) ==> Beaten(p, changePair, Key(table)))
  }

  ghost predicate ToldSoFar(olds: set<Info>, news: set<Info>, stamp: Stamp, changePair: seq<FlavorPair>, i: nat,
                            matches: Matches)
  {
    && (forall k :: MatchTold(matches, k))
    && (forall k :: 0 <= k < i ==> GroupToldAt(olds, news, stamp, changePair, true, k))
  }

  lemma MoreTold(olds: set<Info>, news: set<Info>, stamp: Stamp, changePair: seq<FlavorPair>, i: nat,
                 matches: Matches, more: Matches)
    requires i < |changePair| && ToldSoFar(olds, news, stamp, changePair, i, matches)
    requires GroupTold(olds, news, stamp, changePair[i], true) && forall k :: MatchTold(more, k)
    ensures ToldSoFar(olds, news, stamp, changePair, i + 1, matches + more)
  {
    ToldConcat(matches, more);
    forall k | 0 <= k < i + 1
      ensures GroupToldAt(olds, news, stamp, changePair, true, k)
    {
      assert k == i || GroupToldAt(olds, news, stamp, changePair, true, k);
    }
  }

  /** What holds after the first `i` flavor pairs. */
  ghost predicate GroupsTo(table: MatchTable, requireCompatible: bool, olds: set<Info>, news: set<Info>, stamp: Stamp,
                           changePair: seq<FlavorPair>, i: nat, matches: Matches)
    requires i <= |changePair|
  {
    && GroupsSoFar(table, requireCompatible, olds, news, changePair, i, matches)
    && ToldSoFar(olds, news, stamp, changePair, i, matches)
    && InGroups(olds, news, stamp, changePair[..i], matches)
  }

  lemma NoGroupsYet(table: MatchTable, requireCompatible: bool, olds: set<Info>, news: set<Info>, stamp: Stamp,
                    changePair: seq<FlavorPair>)
    ensures GroupsTo(table, requireCompatible, olds, news, stamp, changePair, 0, [])
  {
    NoGroups(olds, news, stamp);
    assert changePair[..0] == [];
  }

  lemma NextSoFar(table: MatchTable, requireCompatible: bool, olds: set<Info>, news: set<Info>, stamp: Stamp,
                  changePair: seq<FlavorPair>, i: nat, matches: Matches, more: Matches)
    requires PairedFlavors(table, requireCompatible, Flavors(olds), Flavors(news), changePair) && i < |changePair|
    requires GroupsSoFar(table, requireCompatible, olds, news, changePair, i, matches)
    requires VersionMatched(OfFlavor(olds, changePair[i].left), OfFlavor(news, changePair[i].right), stamp, more)
    ensures GroupsSoFar(table, requireCompatible, olds, news, changePair, i + 1, matches + more)
  {
    assert Candidate(table, requireCompatible, Flavors(olds), Flavors(news), changePair[i]);
    AddGroup(table, requireCompatible, olds, news, changePair, i, matches, more);
  }

  lemma GroupStep(table: MatchTable, requireCompatible: bool, olds: set<Info>, news: set<Info>, stamp: Stamp,
                  changePair: seq<FlavorPair>, i: nat, matches: Matches, more: Matches)
    requires PairedFlavors(table, requireCompatible, Flavors(olds), Flavors(news), changePair) && i < |changePair|
    requires GroupsTo(table, requireCompatible, olds, news, stamp, changePair, i, matches)
    requires GroupTold(olds, news, stamp, changePair[i], true) && forall k :: MatchTold(more, k)
    requires VersionMatched(OfFlavor(olds, changePair[i].left), OfFlavor(news, changePair[i].right), stamp, more)
    ensures GroupsTo(table, requireCompatible, olds, news, stamp, changePair, i + 1, matches + more)
  {
    NextSoFar(table, requireCompatible, olds, news, stamp, changePair, i, matches, more);
    MoreTold(olds, news, stamp, changePair, i, matches, more);
    NextGroup(olds, news, stamp, changePair[..i], changePair[i], matches, more);
    NextPrefix(changePair, i);
  }

  /** The flavor pairs in turn. */
  method MatchGroups(ghost table: MatchTable, ghost requireCompatible: bool, removedList: set<Info>, addedList: set<Info>,
                     stamp: Stamp, changePair: seq<FlavorPair>)
    returns (r: Result<Matches>)
    requires PairedFlavors(table, requireCompatible, Flavors(removedList), Flavors(addedList), changePair)
    ensures r.Ok? ==> MatchedByFlavor(table, requireCompatible, removedList, addedList, stamp, changePair, r.value)
    ensures r.Err? ==> GroupFails(table, requireCompatible, removedList, addedList, stamp, changePair)
  {
    var matches: Matches := [];
    NoGroupsYet(table, requireCompatible, removedList, addedList, stamp, changePair);
    for i := 0 to |changePair|
      invariant GroupsTo(table, requireCompatible, removedList, addedList, stamp, changePair, i, matches)
    {
      var versionMatches := MatchGroup(removedList, addedList, changePair[i], stamp);
      if versionMatches.Err? {
        assert Candidate(table, requireCompatible, Flavors(removedList), Flavors(addedList), changePair[i]);
        return Err(versionMatches.error);
      }
      GroupStep(table, requireCompatible, removedList, addedList, stamp, changePair, i, matches, versionMatches.value);
      matches := matches + versionMatches.value;
    }
    assert changePair[..|changePair|] == changePair;
    GroupsDone(table, requireCompatible, removedList, addedList, stamp, changePair, matches);
    r := Ok(matches);
  }

  lemma GroupsDone(table: MatchTable, requireCompatible: bool, olds: set<Info>, news: set<Info>, stamp: Stamp,
                   changePair: seq<FlavorPair>, matches: Matches)
    requires PairedFlavors(table, requireCompatible, Flavors(olds), Flavors(news), changePair)
    requires GroupsSoFar(table, requireCompatible, olds, news, changePair, |changePair|, matches)
    requires ToldSoFar(olds, news, stamp, changePair, |changePair|, matches)
    requires InGroups(olds, news, stamp, changePair, matches)
    ensures MatchedByFlavor(table, requireCompatible, olds, news, stamp, changePair, matches)
  {
    forall o, n | o in olds && n in news
      ensures Accounted(table, requireCompatible, matches, o, n)
    {
      AllAccounted(table, requireCompatible, olds, news, changePair, matches, o, n);
    }
    forall k
      ensures GroupToldAt(olds, news, stamp, changePair, true, k)
    {
      assert 0 <= k < |changePair| ==> GroupToldAt(olds, news, stamp, changePair, true, k);
    }
  }

  ghost predicate AllSurplusTold(olds: set<Info>, news: set<Info>, stamp: Stamp, changePair: seq<FlavorPair>)
  {
    forall k :: 0 <= k < |changePair| ==> GroupSurplusTold(olds, news, stamp, changePair[k])
  }

  lemma ThroughBySurplus(table: MatchTable, requireCompatible: bool, olds: set<Info>, news: set<Info>, stamp: Stamp,
                         changePair: seq<FlavorPair>, r: Result<Matches>)
    requires StampsDifferByFlavor(olds, stamp) && StampsDifferByFlavor(news, stamp)
    requires r.Ok? ==> MatchedByFlavor(table, requireCompatible, olds, news, stamp, changePair, r.value)
    requires r.Err? ==> GroupFails(table, requireCompatible, olds, news, stamp, changePair)
    ensures r.Ok? <==> AllSurplusTold(olds, news, stamp, changePair)
  {
    if r.Ok? {
      forall k | 0 <= k < |changePair|
        ensures GroupSurplusTold(olds, news, stamp, changePair[k])
      {
        assert GroupToldAt(olds, news, stamp, changePair, true, k);
        GroupToldBySurplus(olds, news, stamp, changePair[k], true);
      }
    } else {
      var k :| 0 <= k < |changePair| && GroupTold(olds, news, stamp, changePair[k], false);
      GroupToldBySurplus(olds, news, stamp, changePair[k], false);
    }
  }

  /** `_matchByFlavorAndVersion`: nothing is used twice, incompatible flavors are not matched if
      that is asked for, and two troves that could have been matched but were not, neither of
      them, lost to a match of a better flavor pair. The matches are those of `_versionMatch` over the groups of
      the flavor pairs. It gets through if every group of a flavor pair
      does, and raises if one does not; with different time stamps that can be read off the groups. */
  method MatchByFlavorAndVersion(cache: FlavorScoreCache, addedList: set<Info>, removedList: set<Info>,
                                 stamp: Stamp, requireCompatible: bool)
    returns (r: Result<Matches>, ghost changePair: seq<FlavorPair>)
    requires cache.Valid()
    modifies cache
    ensures cache.Valid()
    ensures PairedFlavors(cache.table, requireCompatible, Flavors(removedList), Flavors(addedList), changePair)
    ensures r.Ok? ==> MatchedByFlavor(cache.table, requireCompatible, removedList, addedList, stamp, changePair, r.value)
    ensures r.Err? ==> GroupFails(cache.table, requireCompatible, removedList, addedList, stamp, changePair)
    ensures StampsDifferByFlavor(removedList, stamp) && StampsDifferByFlavor(addedList, stamp) ==>
              (r.Ok? <==> AllSurplusTold(removedList, addedList, stamp, changePair))
  {
    if addedList == {} || removedList == {} {
      NoGroups(removedList, addedList, stamp);
      return Ok([]), [];
    }
    var groups := PairFlavors(cache, Flavors(removedList), Flavors(addedList), requireCompatible);
    changePair := groups;
    r := MatchGroups(cache.table, requireCompatible, removedList, addedList, stamp, groups);
    if StampsDifferByFlavor(removedList, stamp) && StampsDifferByFlavor(addedList, stamp) {
      ThroughBySurplus(cache.table, requireCompatible, removedList, addedList, stamp, groups, r);
    }
  }
}
