/** What the four passes over the troves of a name do, said of the troves and the matches alone. */
module Passes {
  import opened Text
  import Versions
  import opened Pairing
  import opened VersionMatch
  import opened FlavorMatch
  import opened PathHashes

  // ---------------------------------------------------------------- entries and lists

  /** One entry of the result; None is `(None, None)`. The last field of the tuple is always False. */
  datatype Job = Job(name: string, oldInfo: Option<Info>, newInfo: Option<Info>)

  function Jobs(name: string, pairs: Matches): seq<Job>
  {
    if pairs == [] then []
    else
      var last := pairs[|pairs| - 1];
      Jobs(name, pairs[..|pairs| - 1]) + [Job(name, Some(last.left), Some(last.right))]
  }

  lemma {:induction false} JobsConcat(name: string, p: Matches, q: Matches)
    ensures Jobs(name, p + q) == Jobs(name, p) + Jobs(name, q)
  {
    if q == [] {
      assert p + q == p;
    } else {
      var q0, last := q[..|q| - 1], q[|q| - 1];
      var job := Job(name, Some(last.left), Some(last.right));
      JobsConcat(name, p, q0);
      assert (p + q)[..|p + q| - 1] == p + q0 && (p + q)[|p + q| - 1] == last;
      assert Jobs(name, p) + (Jobs(name, q0) + [job]) == Jobs(name, p) + Jobs(name, q0) + [job];
    }
  }

  lemma JobsOne(name: string, pairs: Matches, o: Info, n: Info)
    ensures Jobs(name, pairs + [Pair(o, n)]) == Jobs(name, pairs) + [Job(name, Some(o), Some(n))]
  {
    assert (pairs + [Pair(o, n)])[..|pairs|] == pairs;
  }

  lemma AppendJobs(before: seq<Job>, name: string, p: Matches, q: Matches)
    ensures before + Jobs(name, p) + Jobs(name, q) == before + Jobs(name, p + q)
  {
    JobsConcat(name, p, q);
  }

  /** The contents of the lists a pass works on and of the dictionary entries behind them. */
  datatype Pool = Pool(addedList: set<Info>, removedList: set<Info>, added: set<Info>, removed: set<Info>)

  function Without(pool: Pool, lefts: set<Info>, rights: set<Info>): Pool
  {
    Pool(pool.addedList - rights, pool.removedList - lefts, pool.added - rights, pool.removed - lefts)
  }

  /** Making the matches `pairs` turns `before` into `after`. */
  ghost predicate Took(before: Pool, pairs: Matches, after: Pool)
  {
    && Pairs(pairs, before.removedList, before.addedList)
    && after == Without(before, Lefts(pairs), Rights(pairs))
  }

  lemma TookNothing(s: Pool)
    ensures Took(s, [], s)
  {
  }

  lemma TookThen(s0: Pool, p: Matches, s1: Pool, q: Matches, s2: Pool)
    requires Took(s0, p, s1) && Took(s1, q, s2)
    ensures Took(s0, p + q, s2)
  {
    PairsConcat(p, q, s0.removedList, s0.addedList);
  }

  /** A pass over part of what another one works on. */
  lemma TookWithin(s: Pool, pairs: Matches, after: Pool, addedList: set<Info>, removedList: set<Info>)
    requires Took(s, pairs, after) && s.addedList <= addedList && s.removedList <= removedList
    ensures Took(s.(addedList := addedList, removedList := removedList), pairs,
                 after.(addedList := addedList - Rights(pairs), removedList := removedList - Lefts(pairs)))
  {
    PairsWithin(pairs, s.removedList, s.addedList, removedList, addedList);
  }

  lemma TookOne(s0: Pool, pairs: Matches, s1: Pool, o: Info, n: Info)
    requires Took(s0, pairs, s1) && o in s1.removedList && n in s1.addedList
    ensures Took(s0, pairs + [Pair(o, n)], Without(s1, {o}, {n}))
  {
    PairsAppend(pairs, o, n, s0.removedList, s0.addedList);
  }

  lemma OneMore(trv: seq<Job>, name: string, s0: Pool, pairs: Matches, s1: Pool, o: Info, n: Info)
    requires Took(s0, pairs, s1) && o in s1.removedList && n in s1.addedList
    ensures Took(s0, pairs + [Pair(o, n)], Without(s1, {o}, {n}))
    ensures trv + Jobs(name, pairs) + [Job(name, Some(o), Some(n))] == trv + Jobs(name, pairs + [Pair(o, n)])
  {
    TookOne(s0, pairs, s1, o, n);
    JobsOne(name, pairs, o, n);
  }

  lemma {:induction false} NextPair(matches: Matches, olds: set<Info>, news: set<Info>, i: nat)
    requires Pairs(matches, olds, news) && i < |matches|
    ensures matches[i].left in olds - Lefts(matches[..i]) && matches[i].right in news - Rights(matches[..i])
    ensures Lefts(matches[..i + 1]) == Lefts(matches[..i]) + {matches[i].left}
    ensures Rights(matches[..i + 1]) == Rights(matches[..i]) + {matches[i].right}
    ensures matches[..i + 1][..i] == matches[..i]
  {
    var before := matches[..|matches| - 1];
    assert matches[..i + 1][..i] == matches[..i];
    if i < |before| {
      NextPair(before, olds, news, i);
      assert before[..i] == matches[..i];
    } else {
      assert before == matches[..i];
    }
  }

  lemma CardinalityLe<T>(a: set<T>, b: set<T>)
    requires a <= b
    ensures |a| <= |b|
  {
    assert |b| == |a| + |b - a| by {
      assert b == a + (b - a);
    }
  }

  // ---------------------------------------------------------------- sound matches, and pairs a pass raises over

  /** A match is of flavors the pass allows, and either path hashes suggest it or the two troves are
      on one label or measured apart. */
  ghost predicate Sound(table: MatchTable, overlaps: Overlaps, requireCompatible: bool, m: Pair<Info, Info>)
  {
    && Eligible(table, requireCompatible, m.left.flavor, m.right.flavor)
    && (HashMatch(table, overlaps, requireCompatible, m) || ToldApartPair(m.left, m.right))
  }

  ghost predicate MatchSound(table: MatchTable, overlaps: Overlaps, requireCompatible: bool, matches: Matches, k: int)
  {
    0 <= k < |matches| ==> Sound(table, overlaps, requireCompatible, matches[k])
  }

  lemma SoundConcat(table: MatchTable, overlaps: Overlaps, requireCompatible: bool, p: Matches, q: Matches)
    requires forall k :: MatchSound(table, overlaps, requireCompatible, p, k)
    requires forall k :: MatchSound(table, overlaps, requireCompatible, q, k)
    ensures forall k :: MatchSound(table, overlaps, requireCompatible, p + q, k)
  {
    forall k
      ensures MatchSound(table, overlaps, requireCompatible, p + q, k)
    {
      assert MatchSound(table, overlaps, requireCompatible, p, k);
      assert MatchSound(table, overlaps, requireCompatible, q, k - |p|);
    }
  }

  lemma SoundAnyway(table: MatchTable, overlaps: Overlaps, pairs: Matches)
    requires forall k :: MatchSound(table, overlaps, true, pairs, k)
    ensures forall k :: MatchSound(table, overlaps, false, pairs, k)
  {
    forall k
      ensures MatchSound(table, overlaps, false, pairs, k)
    {
      assert MatchSound(table, overlaps, true, pairs, k);
    }
  }

  /** A pass raises over `o` and `n`: it could have matched them, but the closeness measure divides by
      zero for them. If they are all there is, then path hashes do not pair them first. */
  ghost predicate StuckOn(table: MatchTable, overlaps: Overlaps, requireCompatible: bool,
                          added: set<Info>, removed: set<Info>, o: Info, n: Info)
  {
    && Confused(table, requireCompatible, removed, added, o, n)
    && (added == {n} && removed == {o} ==> !OnlyPartner(table, overlaps, requireCompatible, added, removed, n, o))
  }

  ghost predicate Stuck(table: MatchTable, overlaps: Overlaps, requireCompatible: bool,
                        added: set<Info>, removed: set<Info>)
  {
    exists o, n :: StuckOn(table, overlaps, requireCompatible, added, removed, o, n)
  }

  /** What stops a pass over part of the troves is there among all of them. */
  lemma StuckWithin(table: MatchTable, overlaps: Overlaps, requireCompatible: bool, added: set<Info>, removed: set<Info>,
                    added0: set<Info>, removed0: set<Info>)
    requires Stuck(table, overlaps, requireCompatible, added, removed)
    requires added <= added0 && removed <= removed0
    ensures Stuck(table, overlaps, false, added0, removed0)
  {
    var o, n :| StuckOn(table, overlaps, requireCompatible, added, removed, o, n);
    if added0 == {n} && removed0 == {o} {
      assert added == added0 && removed == removed0;
      if requireCompatible && OnlyPartner(table, overlaps, false, added0, removed0, n, o) {
        PartnerIfCompatible(table, overlaps, added0, removed0, n, o);
      }
    }
    assert StuckOn(table, overlaps, false, added0, removed0, o, n);
  }

  /** Troves on one label are never measured. */
  lemma NotStuckOnLabel(table: MatchTable, overlaps: Overlaps, requireCompatible: bool, l: Option<Versions.Part>,
                        added: set<Info>, removed: set<Info>)
    requires forall x :: x in added || x in removed ==> TrailingLabel(x.version) == l
    ensures !Stuck(table, overlaps, requireCompatible, added, removed)
  {
    forall o, n
      ensures !StuckOn(table, overlaps, requireCompatible, added, removed, o, n)
    {
    }
  }

  // ---------------------------------------------------------------- matches by path hashes

  /** The partner that path hashes give an added trove, if there is exactly one. */
  ghost function PartnerOf(table: MatchTable, overlaps: Overlaps, requireCompatible: bool, added: set<Info>, removed: set<Info>, n: Info)
    : (r: Option<Info>)
    ensures forall o :: r == Some(o) <==> OnlyPartner(table, overlaps, requireCompatible, added, removed, n, o)
  {
    if exists o :: OnlyPartner(table, overlaps, requireCompatible, added, removed, n, o) then
      var o :| OnlyPartner(table, overlaps, requireCompatible, added, removed, n, o);
      Some(o)
    else
      None
  }

  ghost function WithMatch(pairs: Matches, matched: Option<Info>, n: Info): Matches
  {
    if matched.Some? then pairs + [Pair(matched.value, n)] else pairs
  }

  /** The matches of the first loop of `_checkPathHashMatch`, if it takes the added troves in this order. */
  ghost function Hashing(table: MatchTable, overlaps: Overlaps, requireCompatible: bool, added: set<Info>, removed: set<Info>, order: seq<Info>)
    : Matches
  {
    if order == [] then []
    else
      var before := Hashing(table, overlaps, requireCompatible, added, removed, order[..|order| - 1]);
      var n := order[|order| - 1];
      WithMatch(before, PartnerOf(table, overlaps, requireCompatible, added - Rights(before), removed - Lefts(before), n), n)
  }

  /** The added troves it delays. */
  ghost function Delays(table: MatchTable, overlaps: Overlaps, requireCompatible: bool, added: set<Info>, removed: set<Info>, order: seq<Info>)
    : seq<Info>
  {
    if order == [] then []
    else
      var before, n := order[..|order| - 1], order[|order| - 1];
      var hashed := Hashing(table, overlaps, requireCompatible, added, removed, before);
      Delays(table, overlaps, requireCompatible, added, removed, before)
      + if Elsewhere(table, overlaps, requireCompatible, removed - Lefts(hashed), n) then [n] else []
  }

  lemma {:induction false} HashingSound(table: MatchTable, overlaps: Overlaps, requireCompatible: bool,
                                        added: set<Info>, removed: set<Info>, order: seq<Info>)
    requires NoneTwice(order) && forall x :: x in order ==> x in added
    ensures var hashed := Hashing(table, overlaps, requireCompatible, added, removed, order);
            && Pairs(hashed, removed, added)
            && (forall x :: x in Rights(hashed) ==> x in order)
            && (forall k :: MatchSound(table, overlaps, requireCompatible, hashed, k))
  {
    if order != [] {
      var before, n := order[..|order| - 1], order[|order| - 1];
      assert order == before + [n];
      HashingSound(table, overlaps, requireCompatible, added, removed, before);
      var hashed := Hashing(table, overlaps, requireCompatible, added, removed, before);
      assert n !in before;
      var partner := PartnerOf(table, overlaps, requireCompatible, added - Rights(hashed), removed - Lefts(hashed), n);
      if partner.Some? {
        PartnerIsHashMatch(table, overlaps, requireCompatible, added - Rights(hashed), removed - Lefts(hashed), n, partner.value);
        PairsAppend(hashed, partner.value, n, removed, added);
        OneMoreSound(table, overlaps, requireCompatible, hashed, Pair(partner.value, n));
      }
    }
  }

  lemma OneMoreSound(table: MatchTable, overlaps: Overlaps, requireCompatible: bool, pairs: Matches, m: Pair<Info, Info>)
    requires forall k :: MatchSound(table, overlaps, requireCompatible, pairs, k)
    requires Sound(table, overlaps, requireCompatible, m)
    ensures forall k :: MatchSound(table, overlaps, requireCompatible, pairs + [m], k)
  {
    forall k
      ensures MatchSound(table, overlaps, requireCompatible, pairs + [m], k)
    {
      assert MatchSound(table, overlaps, requireCompatible, pairs, k);
    }
  }

  /** The delayed troves have no usable overlap in the list at the end either, and none is listed twice. */
  lemma {:induction false} DelaysWait(table: MatchTable, overlaps: Overlaps, requireCompatible: bool,
                                      added: set<Info>, removed: set<Info>, order: seq<Info>)
    requires NoneTwice(order)
    ensures var removedLeft := removed - Lefts(Hashing(table, overlaps, requireCompatible, added, removed, order));
            var delays := Delays(table, overlaps, requireCompatible, added, removed, order);
            && NoneTwice(delays)
            && (forall x :: x in delays ==> x in order && Elsewhere(table, overlaps, requireCompatible, removedLeft, x))
  {
    if order != [] {
      var before, n := order[..|order| - 1], order[|order| - 1];
      assert order == before + [n];
      assert n !in before;
      DelaysWait(table, overlaps, requireCompatible, added, removed, before);
      var hashed := Hashing(table, overlaps, requireCompatible, added, removed, before);
      var after := Hashing(table, overlaps, requireCompatible, added, removed, order);
      assert after == hashed || after[..|after| - 1] == hashed;
      assert Lefts(hashed) <= Lefts(after);
      forall x | x in Delays(table, overlaps, requireCompatible, added, removed, order)
        ensures x in order && Elsewhere(table, overlaps, requireCompatible, removed - Lefts(after), x)
      {
        StillElsewhere(table, overlaps, requireCompatible, removed - Lefts(hashed), x, removed - Lefts(after));
      }
    }
  }

  /** One added trove more. */
  lemma NextChecked(table: MatchTable, overlaps: Overlaps, requireCompatible: bool, trv: seq<Job>, name: string, s0: Pool, order: seq<Info>,
                    s1: Pool, n: Info, matched: Option<Info>, delay: bool, s2: Pool)
    requires Took(s0, Hashing(table, overlaps, requireCompatible, s0.addedList, s0.removedList, order), s1)
    requires n in s1.addedList
    requires matched.None? ==> s2 == s1
    requires matched.Some? ==> matched.value in s1.removedList && s2 == Without(s1, {matched.value}, {n})
    requires forall o :: matched == Some(o) <==>
               OnlyPartner(table, overlaps, requireCompatible, s1.addedList, s1.removedList, n, o)
    requires delay <==> Elsewhere(table, overlaps, requireCompatible, s1.removedList, n)
    ensures var pairs := Hashing(table, overlaps, requireCompatible, s0.addedList, s0.removedList, order);
            var pairs' := Hashing(table, overlaps, requireCompatible, s0.addedList, s0.removedList, order + [n]);
            && Took(s0, pairs', s2)
            && trv + Jobs(name, pairs) + (if matched.Some? then [Job(name, matched, Some(n))] else [])
               == trv + Jobs(name, pairs')
    ensures Delays(table, overlaps, requireCompatible, s0.addedList, s0.removedList, order + [n])
         == Delays(table, overlaps, requireCompatible, s0.addedList, s0.removedList, order) + if delay then [n] else []
  {
    assert (order + [n])[..|order|] == order;
    var pairs := Hashing(table, overlaps, requireCompatible, s0.addedList, s0.removedList, order);
    var partner := PartnerOf(table, overlaps, requireCompatible, s1.addedList, s1.removedList, n);
    assert forall o :: partner == Some(o) <==> matched == Some(o);
    assert partner == matched;
    if matched.Some? {
      OneMore(trv, name, s0, pairs, s1, matched.value, n);
    }
  }

  // ---------------------------------------------------------------- progress

  predicate OneFlavor(infos: set<Info>)
  {
    forall x, y :: x in infos && y in infos ==> x.flavor == y.flavor
  }

  /** A pass that does not insist on compatible flavors matches something if it can, and if all
      flavors on each side are the same it uses up one side. */
  ghost predicate Progress(added: set<Info>, removed: set<Info>, pairs: Matches)
  {
    && (added != {} && removed != {} ==> pairs != [])
    && (OneFlavor(added) && OneFlavor(removed) ==>
          |pairs| == if |removed| < |added| then |removed| else |added|)
  }

  /** What the matching by flavor promises of the matches it makes: flavors are paired from the best score down, and
      each pair of groups is matched by version. */
  ghost predicate MatchedWell(table: MatchTable, requireCompatible: bool, matches: Matches,
                              olds: set<Info>, news: set<Info>)
  {
    && (forall k :: MatchEligible(table, requireCompatible, matches, k))
    && (forall k :: MatchTold(matches, k))
    && (forall o, n {:trigger Accounted(table, requireCompatible, matches, o, n)} :: o in olds && n in news ==> Accounted(table, requireCompatible, matches, o, n))
    && (exists changePair :: ByFlavorPairs(table, requireCompatible, matches, olds, news, changePair))
  }

  ghost predicate ByFlavorPairs(table: MatchTable, requireCompatible: bool, matches: Matches, olds: set<Info>,
                                news: set<Info>, changePair: seq<FlavorPair>)
  {
    && PairedFlavors(table, requireCompatible, Flavors(olds), Flavors(news), changePair)
    && InGroups(olds, news, table.stamp, changePair, matches)
  }

  lemma FailedOverTwo(table: MatchTable, requireCompatible: bool, olds: set<Info>, news: set<Info>,
                      changePair: seq<FlavorPair>)
    requires GroupFails(table, requireCompatible, olds, news, table.stamp, changePair)
    ensures exists o, n :: Confused(table, requireCompatible, olds, news, o, n)
  {
    var k :| 0 <= k < |changePair|
      && Eligible(table, requireCompatible, changePair[k].left, changePair[k].right)
      && GroupTold(olds, news, table.stamp, changePair[k], false);
    var o, n := UntoldGroupConfused(table, requireCompatible, olds, news, table.stamp, changePair[k]);
  }

  lemma MakesProgress(table: MatchTable, s0: Pool, hashed: Matches, s1: Pool, added: set<Info>, removed: set<Info>,
                      matches: Matches)
    requires Took(s0, hashed, s1) && added <= s1.addedList && removed <= s1.removedList
    requires var least := if |s1.removedList| < |s1.addedList| then |s1.removedList| else |s1.addedList|;
             |added| >= least && |removed| >= least
    requires Pairs(matches, removed, added)
    requires forall o, n {:trigger Accounted(table, false, matches, o, n)} :: o in removed && n in added ==> Accounted(table, false, matches, o, n)
    ensures Progress(s0.addedList, s0.removedList, hashed + matches)
  {
    PairsCount(hashed, s0.removedList, s0.addedList);
    PairsCount(matches, removed, added);
    CardinalityLe(added, s1.addedList);
    CardinalityLe(removed, s1.removedList);
    if added != {} && removed != {} {
      SomethingMatched(table, removed, added, matches);
    }
    if OneFlavor(s0.addedList) && OneFlavor(s0.removedList) {
      OneFlavorUsedUp(table, removed, added, matches);
    }
  }

  lemma SomethingMatched(table: MatchTable, olds: set<Info>, news: set<Info>, matches: Matches)
    requires olds != {} && news != {}
    requires forall o, n {:trigger Accounted(table, false, matches, o, n)} :: o in olds && n in news ==> Accounted(table, false, matches, o, n)
    ensures matches != []
  {
    var o :| o in olds;
    var n :| n in news;
    assert Accounted(table, false, matches, o, n);
  }

  lemma OneFlavorUsedUp(table: MatchTable, olds: set<Info>, news: set<Info>, matches: Matches)
    requires Pairs(matches, olds, news) && OneFlavor(olds) && OneFlavor(news)
    requires forall o, n {:trigger Accounted(table, false, matches, o, n)} :: o in olds && n in news ==> Accounted(table, false, matches, o, n)
    ensures |matches| == if |olds| < |news| then |olds| else |news|
  {
    PairsCount(matches, olds, news);
    if exists o :: o in olds && o !in Lefts(matches) {
      var o :| o in olds && o !in Lefts(matches);
      forall n | n in news
        ensures n in Rights(matches)
      {
        assert Accounted(table, false, matches, o, n);
        if Outdone(table, matches, o, n) {
          var k :| 0 <= k < |matches| && Outdoes(table, matches[k], o, n);
          PairAt(matches, olds, news, k);
        }
      }
      CardinalityLe(news, Rights(matches));
    } else {
      CardinalityLe(olds, Lefts(matches));
    }
    CardinalityLe(Lefts(matches), olds);
    CardinalityLe(Rights(matches), news);
  }

  /** The last pass makes up for what earlier ones did not match. */
  lemma ProgressThen(s0: Pool, pairs: Matches, s1: Pool, more: Matches)
    requires Took(s0, pairs, s1) && Progress(s1.addedList, s1.removedList, more)
    ensures Progress(s0.addedList, s0.removedList, pairs + more)
  {
    PairsCount(pairs, s0.removedList, s0.addedList);
  }

  lemma MeasuredSound(table: MatchTable, overlaps: Overlaps, requireCompatible: bool, matches: Matches)
    requires forall k :: MatchEligible(table, requireCompatible, matches, k)
    requires forall k :: MatchTold(matches, k)
    ensures forall k :: MatchSound(table, overlaps, requireCompatible, matches, k)
  {
    forall k
      ensures MatchSound(table, overlaps, requireCompatible, matches, k)
    {
      assert MatchEligible(table, requireCompatible, matches, k) && MatchTold(matches, k);
    }
  }

  // ---------------------------------------------------------------- one pass

  /** What a list keeps if these troves are to be held back: all the others, as long as the other list can still be
      used up. */
  ghost function Kept(all: set<Info>, others: set<Info>, delayed: set<Info>): set<Info>
  {
    if |others| + |delayed| <= |all| then all - delayed else all
  }

  lemma KeptBy(all: set<Info>, others: set<Info>, delays: seq<Info>)
    requires NoneTwice(delays)
    ensures (if |others| + |delays| <= |all| then (set x | x in all && x !in delays) else all)
         == Kept(all, others, set x | x in delays)
  {
    OnceCount(delays);
  }

  lemma {:induction false} OnceCount<T>(l: seq<T>)
    requires NoneTwice(l)
    ensures |set x | x in l| == |l|
  {
    if l != [] {
      var before, last := l[..|l| - 1], l[|l| - 1];
      assert l == before + [last];
      assert last !in before;
      OnceCount(before);
      assert (set x | x in l) == (set x | x in before) + {last};
    }
  }

  /** The troves that wait are left out exactly if what remains can still use up the other list. */
  lemma KeptIfEnough(all: set<Info>, others: set<Info>, delayed: set<Info>)
    requires delayed <= all
    ensures Kept(all, others, delayed) == if |all - delayed| >= |others| then all - delayed else all
  {
    assert |all - delayed| == |all| - |delayed|;
  }

  lemma KeptEnough(all: set<Info>, others: set<Info>, delayed: set<Info>)
    ensures Kept(all, others, delayed) <= all
    ensures |Kept(all, others, delayed)| >= if |others| < |all| then |others| else |all|
  {
    CardinalityLe(all, (all - delayed) + delayed);
    assert |(all - delayed) + delayed| == |all - delayed| + |delayed|;
  }

  /** The troves of a list that wait for others outside the lists. */
  ghost function Waiting(table: MatchTable, overlaps: Overlaps, requireCompatible: bool, list: set<Info>, others: set<Info>): set<Info>
  {
    set x | x in list && Elsewhere(table, overlaps, requireCompatible, others, x)
  }

  /** The order in which a pass takes the added troves, and the matches it makes by flavor and version. */
  datatype Steps = Steps(order: seq<Info>, flavored: Matches)

  ghost predicate MatchedKept(table: MatchTable, overlaps: Overlaps, requireCompatible: bool, addedLeft: set<Info>, removedLeft: set<Info>,
                              delayed: set<Info>, flavored: Matches)
  {
    var keptAdded := Kept(addedLeft, removedLeft, delayed);
    var keptRemoved := Kept(removedLeft, addedLeft, Waiting(table, overlaps, requireCompatible, removedLeft, addedLeft));
    Pairs(flavored, keptRemoved, keptAdded) && MatchedWell(table, requireCompatible, flavored, keptRemoved, keptAdded)
  }

  /** A pass over two lists: matches by path hashes, the added troves in some order; then, of what is left and not
      held back, matches by flavor and version. */
  ghost predicate PassTook(table: MatchTable, overlaps: Overlaps, requireCompatible: bool, added: set<Info>, removed: set<Info>, steps: Steps)
  {
    var hashed := Hashing(table, overlaps, requireCompatible, added, removed, steps.order);
    && NoneTwice(steps.order) && (forall x :: x in steps.order <==> x in added)
    && MatchedKept(table, overlaps, requireCompatible, added - Rights(hashed), removed - Lefts(hashed),
                   (set x | x in Delays(table, overlaps, requireCompatible, added, removed, steps.order)), steps.flavored)
  }

  ghost function Made(table: MatchTable, overlaps: Overlaps, requireCompatible: bool, added: set<Info>, removed: set<Info>, steps: Steps): Matches
  {
    Hashing(table, overlaps, requireCompatible, added, removed, steps.order) + steps.flavored
  }

  /** What one pass promises: these steps, if there is anything on both sides, and progress if it does not insist on
      compatible flavors. */
  ghost predicate PassResult(table: MatchTable, overlaps: Overlaps, requireCompatible: bool, added: set<Info>, removed: set<Info>, pairs: Matches)
  {
    if added == {} || removed == {} then pairs == []
    else
      && (exists steps :: PassTook(table, overlaps, requireCompatible, added, removed, steps)
            && pairs == Made(table, overlaps, requireCompatible, added, removed, steps))
      && (!requireCompatible ==> Progress(added, removed, pairs))
  }

  lemma KeptPairs(table: MatchTable, overlaps: Overlaps, requireCompatible: bool, addedLeft: set<Info>, removedLeft: set<Info>,
                  delayed: set<Info>, flavored: Matches)
    requires MatchedKept(table, overlaps, requireCompatible, addedLeft, removedLeft, delayed, flavored)
    ensures Pairs(flavored, removedLeft, addedLeft) && forall k :: MatchSound(table, overlaps, requireCompatible, flavored, k)
  {
    var keptAdded := Kept(addedLeft, removedLeft, delayed);
    var waiting := Waiting(table, overlaps, requireCompatible, removedLeft, addedLeft);
    PairsWithin(flavored, Kept(removedLeft, addedLeft, waiting), keptAdded, removedLeft, addedLeft);
    MeasuredSound(table, overlaps, requireCompatible, flavored);
  }

  lemma PassPairs(table: MatchTable, overlaps: Overlaps, requireCompatible: bool, added: set<Info>, removed: set<Info>, steps: Steps)
    requires PassTook(table, overlaps, requireCompatible, added, removed, steps)
    ensures var hashed := Hashing(table, overlaps, requireCompatible, added, removed, steps.order);
            var pairs := Made(table, overlaps, requireCompatible, added, removed, steps);
            && Pairs(pairs, removed, added) && (forall k :: MatchSound(table, overlaps, requireCompatible, pairs, k))
            && Lefts(pairs) == Lefts(hashed) + Lefts(steps.flavored)
            && Rights(pairs) == Rights(hashed) + Rights(steps.flavored)
  {
    var hashed := Hashing(table, overlaps, requireCompatible, added, removed, steps.order);
    HashingSound(table, overlaps, requireCompatible, added, removed, steps.order);
    KeptPairs(table, overlaps, requireCompatible, added - Rights(hashed), removed - Lefts(hashed),
              (set x | x in Delays(table, overlaps, requireCompatible, added, removed, steps.order)), steps.flavored);
    PairsConcat(hashed, steps.flavored, removed, added);
    SoundConcat(table, overlaps, requireCompatible, hashed, steps.flavored);
  }

  /** Nothing is used twice, and every match is sound. */
  lemma PassSound(table: MatchTable, overlaps: Overlaps, requireCompatible: bool, added: set<Info>, removed: set<Info>, pairs: Matches)
    requires PassResult(table, overlaps, requireCompatible, added, removed, pairs)
    ensures Pairs(pairs, removed, added) && forall k :: MatchSound(table, overlaps, requireCompatible, pairs, k)
  {
    if added != {} && removed != {} {
      var steps :| PassTook(table, overlaps, requireCompatible, added, removed, steps)
        && pairs == Made(table, overlaps, requireCompatible, added, removed, steps);
      PassPairs(table, overlaps, requireCompatible, added, removed, steps);
    }
  }

  /** Why two troves are both left although they could have been matched: one was held back, as the longer list
      allowed, for troves outside the lists, or a match that takes its flavor is at least as good. */
  lemma LeftOver(table: MatchTable, overlaps: Overlaps, requireCompatible: bool, added: set<Info>, removed: set<Info>, steps: Steps,
                 o: Info, n: Info)
    requires PassTook(table, overlaps, requireCompatible, added, removed, steps)
    requires var pairs := Made(table, overlaps, requireCompatible, added, removed, steps);
             o in removed - Lefts(pairs) && n in added - Rights(pairs)
    requires Eligible(table, requireCompatible, o.flavor, n.flavor)
    ensures
      var hashed := Hashing(table, overlaps, requireCompatible, added, removed, steps.order);
      var addedLeft, removedLeft := added - Rights(hashed), removed - Lefts(hashed);
      || (|addedLeft| > |removedLeft| && Elsewhere(table, overlaps, requireCompatible, removedLeft, n))
      || (|removedLeft| > |addedLeft| && Elsewhere(table, overlaps, requireCompatible, addedLeft, o))
      || Outdone(table, steps.flavored, o, n)
  {
    var hashed := Hashing(table, overlaps, requireCompatible, added, removed, steps.order);
    var addedLeft, removedLeft := added - Rights(hashed), removed - Lefts(hashed);
    var delays := Delays(table, overlaps, requireCompatible, added, removed, steps.order);
    var delayed := set x | x in delays;
    var waiting := Waiting(table, overlaps, requireCompatible, removedLeft, addedLeft);
    PassPairs(table, overlaps, requireCompatible, added, removed, steps);
    DelaysWait(table, overlaps, requireCompatible, added, removed, steps.order);
    if n !in Kept(addedLeft, removedLeft, delayed) {
      assert n in delayed && |delayed - {n}| == |delayed| - 1;
    } else if o !in Kept(removedLeft, addedLeft, waiting) {
      assert o in waiting && |waiting - {o}| == |waiting| - 1;
    } else {
      assert Accounted(table, requireCompatible, steps.flavored, o, n);
    }
  }

  lemma NothingToPass(table: MatchTable, overlaps: Overlaps, requireCompatible: bool, added: set<Info>, removed: set<Info>)
    requires added == {} || removed == {}
    ensures PassResult(table, overlaps, requireCompatible, added, removed, [])
  {
  }

  lemma JoinPass(table: MatchTable, overlaps: Overlaps, requireCompatible: bool, s0: Pool, steps: Steps, s1: Pool, s2: Pool)
    requires s0.addedList != {} && s0.removedList != {}
    requires Took(s0, Hashing(table, overlaps, requireCompatible, s0.addedList, s0.removedList, steps.order), s1)
    requires Took(s1, steps.flavored, s2)
    requires PassTook(table, overlaps, requireCompatible, s0.addedList, s0.removedList, steps)
    ensures var pairs := Made(table, overlaps, requireCompatible, s0.addedList, s0.removedList, steps);
            Took(s0, pairs, s2) && PassResult(table, overlaps, requireCompatible, s0.addedList, s0.removedList, pairs)
  {
    var hashed := Hashing(table, overlaps, requireCompatible, s0.addedList, s0.removedList, steps.order);
    TookThen(s0, hashed, s1, steps.flavored, s2);
    if !requireCompatible {
      var delayed := set x | x in Delays(table, overlaps, requireCompatible, s0.addedList, s0.removedList, steps.order);
      var waiting := Waiting(table, overlaps, requireCompatible, s1.removedList, s1.addedList);
      KeptEnough(s1.addedList, s1.removedList, delayed);
      KeptEnough(s1.removedList, s1.addedList, waiting);
      MakesProgress(table, s0, hashed, s1, Kept(s1.addedList, s1.removedList, delayed),
                    Kept(s1.removedList, s1.addedList, waiting), steps.flavored);
    }
  }

  /** If matching by flavor raises, path hashes had not paired the two troves at fault. */
  lemma PassStuck(table: MatchTable, overlaps: Overlaps, requireCompatible: bool, s0: Pool, order: seq<Info>, s1: Pool,
                  added: set<Info>, removed: set<Info>)
    requires NoneTwice(order) && forall x :: x in order <==> x in s0.addedList
    requires Took(s0, Hashing(table, overlaps, requireCompatible, s0.addedList, s0.removedList, order), s1)
    requires added <= s1.addedList && removed <= s1.removedList
    requires exists o, n :: Confused(table, requireCompatible, removed, added, o, n)
    ensures Stuck(table, overlaps, requireCompatible, s0.addedList, s0.removedList)
  {
    var o, n :| Confused(table, requireCompatible, removed, added, o, n);
    if s0.addedList == {n} && s0.removedList == {o} {
      NotHashed(table, overlaps, requireCompatible, s0, order, n);
    }
    assert StuckOn(table, overlaps, requireCompatible, s0.addedList, s0.removedList, o, n);
  }

  lemma NotHashed(table: MatchTable, overlaps: Overlaps, requireCompatible: bool, s0: Pool, order: seq<Info>, n: Info)
    requires s0.addedList == {n} && NoneTwice(order) && forall x :: x in order <==> x in s0.addedList
    requires n !in Rights(Hashing(table, overlaps, requireCompatible, s0.addedList, s0.removedList, order))
    ensures NoPartner(table, overlaps, requireCompatible, s0.addedList, s0.removedList, n)
  {
    assert n in order;
    assert forall i :: 0 <= i < |order| ==> order[i] in order;
    assert order == [n];
    forall o
      ensures !OnlyPartner(table, overlaps, requireCompatible, s0.addedList, s0.removedList, n, o)
    {
      if OnlyPartner(table, overlaps, requireCompatible, s0.addedList, s0.removedList, n, o) {
        HashedAlone(table, overlaps, requireCompatible, s0.addedList, s0.removedList, n, o);
      }
    }
  }

  lemma HashedAlone(table: MatchTable, overlaps: Overlaps, requireCompatible: bool, added: set<Info>, removed: set<Info>,
                    n: Info, o: Info)
    requires OnlyPartner(table, overlaps, requireCompatible, added, removed, n, o)
    ensures n in Rights(Hashing(table, overlaps, requireCompatible, added, removed, [n]))
  {
    var none: Matches := [];
    assert [n][..0] == [];
    assert added - Rights(none) == added && removed - Lefts(none) == removed;
    assert Hashing(table, overlaps, requireCompatible, added, removed, [n]) == none + [Pair(o, n)];
    RightAt(none + [Pair(o, n)], n);
    assert (none + [Pair(o, n)])[0].right == n;
  }

  // ---------------------------------------------------------------- a pass label by label

  /** The matches `mine` are what a pass over the troves on label `l` makes, and only they touch them. */
  ghost predicate MadeOnLabel(table: MatchTable, overlaps: Overlaps, requireCompatible: bool,
                              added: set<Info>, removed: set<Info>, pairs: Matches, l: Option<Versions.Part>, mine: Matches)
  {
    && PassResult(table, overlaps, requireCompatible, Labelled(added, l), Labelled(removed, l), mine)
    && Labelled(added - Rights(pairs), l) == Labelled(added, l) - Rights(mine)
    && Labelled(removed - Lefts(pairs), l) == Labelled(removed, l) - Lefts(mine)
    && (forall m :: m in mine ==> m in pairs)
  }

  ghost predicate LabelSettled(table: MatchTable, overlaps: Overlaps, requireCompatible: bool,
                               added: set<Info>, removed: set<Info>, pairs: Matches, l: Option<Versions.Part>)
  {
    exists mine :: MadeOnLabel(table, overlaps, requireCompatible, added, removed, pairs, l, mine)
  }

  ghost predicate LabelUntouched(added: set<Info>, removed: set<Info>, pairs: Matches, l: Option<Versions.Part>)
  {
    Labelled(added - Rights(pairs), l) == Labelled(added, l) && Labelled(removed - Lefts(pairs), l) == Labelled(removed, l)
  }

  ghost predicate LabelAt(table: MatchTable, overlaps: Overlaps, requireCompatible: bool, added: set<Info>, removed: set<Info>,
                          pairs: Matches, todo: set<Option<Versions.Part>>, l: Option<Versions.Part>)
  {
    if l in todo then LabelUntouched(added, removed, pairs, l)
    else LabelSettled(table, overlaps, requireCompatible, added, removed, pairs, l)
  }

  /** The labels in `todo` are still to do, and the others are settled. */
  ghost predicate LabelsSoFar(table: MatchTable, overlaps: Overlaps, requireCompatible: bool,
                              added: set<Info>, removed: set<Info>, pairs: Matches, todo: set<Option<Versions.Part>>)
  {
    && Pairs(pairs, removed, added)
    && (forall k :: OnOneLabel(pairs, k))
    && (forall k :: MatchSound(table, overlaps, requireCompatible, pairs, k))
    && (forall l :: LabelAt(table, overlaps, requireCompatible, added, removed, pairs, todo, l))
  }

  /** What passes 1 and 3 promise: every match is on one label, and on each label they are what a pass over the
      troves on that label makes. */
  ghost predicate LabelPassResult(table: MatchTable, overlaps: Overlaps, requireCompatible: bool,
                                  added: set<Info>, removed: set<Info>, pairs: Matches)
  {
    LabelsSoFar(table, overlaps, requireCompatible, added, removed, pairs, {})
  }

  lemma NothingOnLabel(table: MatchTable, overlaps: Overlaps, requireCompatible: bool,
                       added: set<Info>, removed: set<Info>, l: Option<Versions.Part>)
    requires Labelled(added, l) == {} || Labelled(removed, l) == {}
    ensures LabelSettled(table, overlaps, requireCompatible, added, removed, [], l)
  {
    NothingToPass(table, overlaps, requireCompatible, Labelled(added, l), Labelled(removed, l));
    assert MadeOnLabel(table, overlaps, requireCompatible, added, removed, [], l, []);
  }

  lemma NoLabelYet(table: MatchTable, overlaps: Overlaps, requireCompatible: bool,
                   added: set<Info>, removed: set<Info>, todo: set<Option<Versions.Part>>)
    requires forall l :: l !in todo ==> Labelled(added, l) == {}
    ensures LabelsSoFar(table, overlaps, requireCompatible, added, removed, [], todo)
  {
    forall l
      ensures LabelAt(table, overlaps, requireCompatible, added, removed, [], todo, l)
    {
      if l !in todo {
        NothingOnLabel(table, overlaps, requireCompatible, added, removed, l);
      }
    }
  }

  lemma OtherLabels(items: set<Info>, used: set<Info>, l: Option<Versions.Part>, mine: set<Info>, m: Option<Versions.Part>)
    requires mine <= Labelled(items - used, l)
    ensures m != l ==> Labelled(items - (used + mine), m) == Labelled(items - used, m)
    ensures Labelled(items - (used + mine), l) == Labelled(items - used, l) - mine
  {
  }

  /** One label more. */
  lemma NextLabel(table: MatchTable, overlaps: Overlaps, requireCompatible: bool, added: set<Info>, removed: set<Info>,
                  pairs: Matches, todo: set<Option<Versions.Part>>, l: Option<Versions.Part>, more: Matches)
    requires LabelsSoFar(table, overlaps, requireCompatible, added, removed, pairs, todo) && l in todo
    requires PassResult(table, overlaps, requireCompatible, Labelled(added, l), Labelled(removed, l), more)
    ensures LabelsSoFar(table, overlaps, requireCompatible, added, removed, pairs + more, todo - {l})
  {
    assert LabelAt(table, overlaps, requireCompatible, added, removed, pairs, todo, l);
    PassSound(table, overlaps, requireCompatible, Labelled(added, l), Labelled(removed, l), more);
    LabelPairs(added, removed, pairs, l, more);
    SoundConcat(table, overlaps, requireCompatible, pairs, more);
    forall m
      ensures LabelAt(table, overlaps, requireCompatible, added, removed, pairs + more, todo - {l}, m)
    {
      LabelStep(table, overlaps, requireCompatible, added, removed, pairs, todo, l, more, m);
    }
  }

  lemma LabelPairs(added: set<Info>, removed: set<Info>, pairs: Matches, l: Option<Versions.Part>, more: Matches)
    requires Pairs(pairs, removed, added) && LabelUntouched(added, removed, pairs, l)
    requires Pairs(more, Labelled(removed, l), Labelled(added, l)) && forall k :: OnOneLabel(pairs, k)
    ensures Pairs(pairs + more, removed, added) && forall k :: OnOneLabel(pairs + more, k)
    ensures Lefts(pairs + more) == Lefts(pairs) + Lefts(more) && Rights(pairs + more) == Rights(pairs) + Rights(more)
  {
    assert Labelled(removed, l) <= removed - Lefts(pairs) && Labelled(added, l) <= added - Rights(pairs);
    PairsWithin(more, Labelled(removed, l), Labelled(added, l), removed - Lefts(pairs), added - Rights(pairs));
    PairsConcat(pairs, more, removed, added);
    forall k
      ensures OnOneLabel(pairs + more, k)
    {
      assert OnOneLabel(pairs, k);
      if |pairs| <= k < |pairs + more| {
        PairAt(more, Labelled(removed, l), Labelled(added, l), k - |pairs|);
      }
    }
  }

  /** Matches on another label change nothing on this one. */
  lemma StillMade(table: MatchTable, overlaps: Overlaps, requireCompatible: bool, added: set<Info>, removed: set<Info>,
                  pairs: Matches, more: Matches, l: Option<Versions.Part>, mine: Matches)
    requires MadeOnLabel(table, overlaps, requireCompatible, added, removed, pairs, l, mine)
    requires Labelled(added - Rights(pairs + more), l) == Labelled(added - Rights(pairs), l)
    requires Labelled(removed - Lefts(pairs + more), l) == Labelled(removed - Lefts(pairs), l)
    ensures MadeOnLabel(table, overlaps, requireCompatible, added, removed, pairs + more, l, mine)
  {
    assert forall m :: m in mine ==> m in pairs + more;
  }

  lemma MadeHere(table: MatchTable, overlaps: Overlaps, requireCompatible: bool, added: set<Info>, removed: set<Info>,
                 pairs: Matches, l: Option<Versions.Part>, more: Matches)
    requires LabelUntouched(added, removed, pairs, l)
    requires PassResult(table, overlaps, requireCompatible, Labelled(added, l), Labelled(removed, l), more)
    requires Labelled(added - Rights(pairs + more), l) == Labelled(added - Rights(pairs), l) - Rights(more)
    requires Labelled(removed - Lefts(pairs + more), l) == Labelled(removed - Lefts(pairs), l) - Lefts(more)
    ensures MadeOnLabel(table, overlaps, requireCompatible, added, removed, pairs + more, l, more)
  {
    assert forall m :: m in more ==> m in pairs + more;
  }

  lemma LabelStep(table: MatchTable, overlaps: Overlaps, requireCompatible: bool, added: set<Info>, removed: set<Info>,
                  pairs: Matches, todo: set<Option<Versions.Part>>, l: Option<Versions.Part>, more: Matches,
                  m: Option<Versions.Part>)
    requires LabelAt(table, overlaps, requireCompatible, added, removed, pairs, todo, m)
    requires LabelUntouched(added, removed, pairs, l) && l in todo
    requires Pairs(more, Labelled(removed, l), Labelled(added, l))
    requires PassResult(table, overlaps, requireCompatible, Labelled(added, l), Labelled(removed, l), more)
    requires Lefts(pairs + more) == Lefts(pairs) + Lefts(more) && Rights(pairs + more) == Rights(pairs) + Rights(more)
    ensures LabelAt(table, overlaps, requireCompatible, added, removed, pairs + more, todo - {l}, m)
  {
    LabelsLeft(added, removed, pairs, l, more, m);
    if m == l {
      MadeHere(table, overlaps, requireCompatible, added, removed, pairs, l, more);
    } else if m !in todo {
      var mine :| MadeOnLabel(table, overlaps, requireCompatible, added, removed, pairs, m, mine);
      StillMade(table, overlaps, requireCompatible, added, removed, pairs, more, m, mine);
    }
  }

  lemma LabelsLeft(added: set<Info>, removed: set<Info>, pairs: Matches, l: Option<Versions.Part>, more: Matches,
                   m: Option<Versions.Part>)
    requires Pairs(more, Labelled(removed, l), Labelled(added, l)) && LabelUntouched(added, removed, pairs, l)
    requires Lefts(pairs + more) == Lefts(pairs) + Lefts(more) && Rights(pairs + more) == Rights(pairs) + Rights(more)
    ensures Labelled(added - Rights(pairs + more), m)
         == if m == l then Labelled(added - Rights(pairs), m) - Rights(more) else Labelled(added - Rights(pairs), m)
    ensures Labelled(removed - Lefts(pairs + more), m)
         == if m == l then Labelled(removed - Lefts(pairs), m) - Lefts(more) else Labelled(removed - Lefts(pairs), m)
  {
    PairsCount(more, Labelled(removed, l), Labelled(added, l));
    OtherLabels(added, Rights(pairs), l, Rights(more), m);
    OtherLabels(removed, Lefts(pairs), l, Lefts(more), m);
  }

  // ---------------------------------------------------------------- four passes

  /** Compatible flavors on one label, compatible flavors, one label, and the rest, each among what the ones
      before left. */
  ghost predicate FourPasses(table: MatchTable, overlaps: Overlaps, added: set<Info>, removed: set<Info>,
                             first: Matches, second: Matches, third: Matches, fourth: Matches)
  {
    && LabelPassResult(table, overlaps, true, added, removed, first)
    && PassResult(table, overlaps, true, added - Rights(first), removed - Lefts(first), second)
    && LabelPassResult(table, overlaps, false, added - Rights(first + second), removed - Lefts(first + second), third)
    && PassResult(table, overlaps, false, added - Rights(first + second + third), removed - Lefts(first + second + third),
                  fourth)
  }

  ghost predicate ByFourPasses(table: MatchTable, overlaps: Overlaps, added: set<Info>, removed: set<Info>, pairs: Matches)
  {
    exists first, second, third, fourth :: FourPasses(table, overlaps, added, removed, first, second, third, fourth)
      && pairs == first + second + third + fourth
  }

  /** What the passes over a name promise: nothing is used twice, something is matched if anything can be, every
      match is sound, and the matches are those of the four passes in turn. */
  ghost predicate WellMatched(table: MatchTable, overlaps: Overlaps, added: set<Info>, removed: set<Info>, pairs: Matches)
  {
    && Pairs(pairs, removed, added) && Progress(added, removed, pairs)
    && (forall k :: MatchSound(table, overlaps, false, pairs, k))
    && ByFourPasses(table, overlaps, added, removed, pairs)
  }

  ghost predicate NameOutcome(table: MatchTable, overlaps: Overlaps, added: set<Info>, removed: set<Info>,
                              error: bool, pairs: Matches)
  {
    if error then Stuck(table, overlaps, false, added, removed) else WellMatched(table, overlaps, added, removed, pairs)
  }

  lemma NothingToMatch(table: MatchTable, overlaps: Overlaps, added: set<Info>, removed: set<Info>)
    requires added == {} || removed == {}
    ensures WellMatched(table, overlaps, added, removed, [])
  {
    NothingByLabel(table, overlaps, true, added, removed);
    NothingByLabel(table, overlaps, false, added, removed);
    NothingToPass(table, overlaps, true, added, removed);
    NothingToPass(table, overlaps, false, added, removed);
    var none: Matches := [];
    assert none + none == none;
    assert FourPasses(table, overlaps, added, removed, none, none, none, none);
  }

  lemma NothingByLabel(table: MatchTable, overlaps: Overlaps, requireCompatible: bool, added: set<Info>, removed: set<Info>)
    requires added == {} || removed == {}
    ensures LabelPassResult(table, overlaps, requireCompatible, added, removed, [])
  {
    forall l
      ensures LabelAt(table, overlaps, requireCompatible, added, removed, [], {}, l)
    {
      NothingOnLabel(table, overlaps, requireCompatible, added, removed, l);
    }
  }

  lemma JoinFour(name: string, table: MatchTable, overlaps: Overlaps, trv: seq<Job>, s0: Pool, first: Matches, s1: Pool,
                 second: Matches, s2: Pool, third: Matches, s3: Pool, fourth: Matches, s4: Pool)
    requires Took(s0, first, s1) && Took(s1, second, s2) && Took(s2, third, s3) && Took(s3, fourth, s4)
    requires LabelPassResult(table, overlaps, true, s0.addedList, s0.removedList, first)
    requires PassResult(table, overlaps, true, s1.addedList, s1.removedList, second)
    requires LabelPassResult(table, overlaps, false, s2.addedList, s2.removedList, third)
    requires PassResult(table, overlaps, false, s3.addedList, s3.removedList, fourth)
    ensures var pairs := first + second + third + fourth;
            && Took(s0, pairs, s4) && WellMatched(table, overlaps, s0.addedList, s0.removedList, pairs)
            && trv + Jobs(name, first) + Jobs(name, second) + Jobs(name, third) + Jobs(name, fourth)
               == trv + Jobs(name, pairs)
  {
    TookThen(s0, first, s1, second, s2);
    TookThen(s0, first + second, s2, third, s3);
    TookThen(s0, first + second + third, s3, fourth, s4);
    AppendJobs(trv, name, first, second);
    AppendJobs(trv, name, first + second, third);
    AppendJobs(trv, name, first + second + third, fourth);
    ProgressThen(s0, first + second + third, s3, fourth);
    FourSound(table, overlaps, s1, second, s3, fourth, first, third);
    assert FourPasses(table, overlaps, s0.addedList, s0.removedList, first, second, third, fourth);
  }

  lemma FourSound(table: MatchTable, overlaps: Overlaps, s1: Pool, second: Matches, s3: Pool, fourth: Matches,
                  first: Matches, third: Matches)
    requires forall k :: MatchSound(table, overlaps, true, first, k)
    requires PassResult(table, overlaps, true, s1.addedList, s1.removedList, second)
    requires forall k :: MatchSound(table, overlaps, false, third, k)
    requires PassResult(table, overlaps, false, s3.addedList, s3.removedList, fourth)
    ensures forall k :: MatchSound(table, overlaps, false, first + second + third + fourth, k)
  {
    PassSound(table, overlaps, true, s1.addedList, s1.removedList, second);
    PassSound(table, overlaps, false, s3.addedList, s3.removedList, fourth);
    SoundConcat(table, overlaps, true, first, second);
    SoundAnyway(table, overlaps, first + second);
    SoundConcat(table, overlaps, false, first + second, third);
    SoundConcat(table, overlaps, false, first + second + third, fourth);
  }
}
