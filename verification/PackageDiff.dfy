/** `_diffPackages`: pairing the troves a change removes with those it adds. The troves of a name
    are held in sets that are shared between the passes and shrink as matches are made. */
module PackageDiff {
  import opened Text
  import Versions
  import opened Pairing
  import opened VersionMatch
  import opened FlavorMatch
  import opened PathHashes
  import opened Passes

  // ---------------------------------------------------------------- shared sets

  class InfoSet {
    var items: set<Info>

    constructor (items: set<Info>)
      ensures this.items == items
    {
      this.items := items;
    }

    /** `remove`, which raises if the item is missing. */
    method Remove(info: Info)
      requires info in items
      modifies this
      ensures items == old(items) - {info}
    {
      items := items - {info};
    }
  }

  // ---------------------------------------------------------------- delays

  /** Which troves `_matchList` goes on with: all of the shorter list, and of the longer list those
      not delayed if that still leaves enough. */
  method ChooseDelays(added: set<Info>, removed: set<Info>, addDelays: seq<Info>, removeDelays: seq<Info>)
    returns (newAdded: set<Info>, newRemoved: set<Info>)
    ensures newAdded <= added && newRemoved <= removed
    ensures newAdded == if |removed| + |addDelays| <= |added| then (set x | x in added && x !in addDelays) else added
    ensures newRemoved == if |added| + |removeDelays| <= |removed| then (set x | x in removed && x !in removeDelays) else removed
    ensures var least := if |removed| < |added| then |removed| else |added|;
            |newAdded| >= least && |newRemoved| >= least
  {
    newAdded, newRemoved := added, removed;
    var possibleDelays := Abs(|added| - |removed|);
    if |added| > |removed| {
      if |addDelays| <= possibleDelays {
        newAdded := set x | x in added && x !in addDelays;
        FewDelayed(added, addDelays, newAdded);
      }
    } else if |added| < |removed| {
      if |removeDelays| <= possibleDelays {
        newRemoved := set x | x in removed && x !in removeDelays;
        FewDelayed(removed, removeDelays, newRemoved);
      }
    }
  }

  function Abs(x: int): nat
  {
    if x < 0 then -x else x
  }

  lemma FewDelayed(all: set<Info>, delays: seq<Info>, kept: set<Info>)
    requires kept == set x | x in all && x !in delays
    ensures |kept| >= |all| - |delays|
  {
    var delayed := set x | x in delays;
    SetOfAtMost(delays);
    assert all <= kept + delayed;
    CardinalityLe(all, kept + delayed);
    assert |kept + delayed| == |kept| + |delayed| - |kept * delayed|;
  }

  /** The lists that the choice of delays leaves. */
  lemma KeptLists(table: MatchTable, overlaps: Overlaps, requireCompatible: bool, s0: Pool, order: seq<Info>, s1: Pool,
                  addDelays: seq<Info>, removeDelays: seq<Info>)
    requires NoneTwice(order) && NoneTwice(removeDelays)
    requires Took(s0, Hashing(table, overlaps, requireCompatible, s0.addedList, s0.removedList, order), s1)
    requires addDelays == Delays(table, overlaps, requireCompatible, s0.addedList, s0.removedList, order)
    requires forall x :: x in removeDelays <==>
               x in s1.removedList && Elsewhere(table, overlaps, requireCompatible, s1.addedList, x)
    ensures (if |s1.removedList| + |addDelays| <= |s1.addedList| then (set x | x in s1.addedList && x !in addDelays)
             else s1.addedList)
         == Kept(s1.addedList, s1.removedList, set x | x in addDelays)
    ensures (if |s1.addedList| + |removeDelays| <= |s1.removedList| then (set x | x in s1.removedList && x !in removeDelays)
             else s1.removedList)
         == Kept(s1.removedList, s1.addedList, Waiting(table, overlaps, requireCompatible, s1.removedList, s1.addedList))
  {
    DelaysWait(table, overlaps, requireCompatible, s0.addedList, s0.removedList, order);
    KeptBy(s1.addedList, s1.removedList, addDelays);
    KeptBy(s1.removedList, s1.addedList, removeDelays);
    assert (set x | x in removeDelays)
      == Waiting(table, overlaps, requireCompatible, s1.removedList, s1.addedList);
  }

  // ---------------------------------------------------------------- labels

  /** The labels that occur, each with what is on it. */
  ghost predicate GroupedByLabel(byLabel: map<Option<Versions.Part>, set<Info>>, items: set<Info>)
  {
    forall l :: LabelEntry(byLabel, items, l)
  }

  ghost predicate LabelEntry(byLabel: map<Option<Versions.Part>, set<Info>>, items: set<Info>, l: Option<Versions.Part>)
  {
    if l in byLabel then byLabel[l] == Labelled(items, l) != {} else Labelled(items, l) == {}
  }

  lemma AddToLabel(byLabel: map<Option<Versions.Part>, set<Info>>, items: set<Info>, x: Info)
    requires GroupedByLabel(byLabel, items)
    ensures var l := TrailingLabel(x.version);
            GroupedByLabel(byLabel[l := (if l in byLabel then byLabel[l] else {}) + {x}], items + {x})
  {
    var l := TrailingLabel(x.version);
    var more := byLabel[l := (if l in byLabel then byLabel[l] else {}) + {x}];
    forall m
      ensures LabelEntry(more, items + {x}, m)
    {
      assert LabelEntry(byLabel, items, m);
      assert Labelled(items + {x}, m) == Labelled(items, m) + (if m == l then {x} else {});
    }
  }

  lemma StartLabels(table: MatchTable, overlaps: Overlaps, requireCompatible: bool,
                    addedByLabel: map<Option<Versions.Part>, set<Info>>, added: set<Info>, removed: set<Info>)
    requires GroupedByLabel(addedByLabel, added)
    ensures LabelsSoFar(table, overlaps, requireCompatible, added, removed, [], addedByLabel.Keys)
  {
    forall l | l !in addedByLabel.Keys
      ensures Labelled(added, l) == {}
    {
      assert LabelEntry(addedByLabel, added, l);
    }
    NoLabelYet(table, overlaps, requireCompatible, added, removed, addedByLabel.Keys);
  }

  lemma JoinLabel(table: MatchTable, overlaps: Overlaps, requireCompatible: bool, name: string, trv: seq<Job>,
                  s0: Pool, pairs: Matches, s1: Pool, labels: set<Option<Versions.Part>>, l: Option<Versions.Part>,
                  more: Matches, s2: Pool)
    requires Took(s0, pairs, s1) && Took(s1, more, s2)
    requires LabelsSoFar(table, overlaps, requireCompatible, s0.addedList, s0.removedList, pairs, labels) && l in labels
    requires PassResult(table, overlaps, requireCompatible, Labelled(s0.addedList, l), Labelled(s0.removedList, l), more)
    ensures Took(s0, pairs + more, s2)
    ensures LabelsSoFar(table, overlaps, requireCompatible, s0.addedList, s0.removedList, pairs + more, labels - {l})
    ensures trv + Jobs(name, pairs) + Jobs(name, more) == trv + Jobs(name, pairs + more)
  {
    TookThen(s0, pairs, s1, more, s2);
    AppendJobs(trv, name, pairs, more);
    NextLabel(table, overlaps, requireCompatible, s0.addedList, s0.removedList, pairs, labels, l, more);
  }

  /** The lists of a label still to do hold what is on that label. */
  lemma LabelLists(table: MatchTable, overlaps: Overlaps, requireCompatible: bool,
                   addedByLabel: map<Option<Versions.Part>, set<Info>>, removedByLabel: map<Option<Versions.Part>, set<Info>>,
                   added: set<Info>, removed: set<Info>, pairs: Matches, labels: set<Option<Versions.Part>>,
                   l: Option<Versions.Part>)
    requires GroupedByLabel(addedByLabel, added) && GroupedByLabel(removedByLabel, removed)
    requires LabelsSoFar(table, overlaps, requireCompatible, added, removed, pairs, labels)
    requires l in labels && labels <= addedByLabel.Keys
    ensures addedByLabel[l] == Labelled(added, l) == Labelled(added - Rights(pairs), l)
    ensures l in removedByLabel ==> removedByLabel[l] == Labelled(removed, l) == Labelled(removed - Lefts(pairs), l)
    ensures l !in removedByLabel ==>
              PassResult(table, overlaps, requireCompatible, Labelled(added, l), Labelled(removed, l), [])
  {
    assert LabelEntry(addedByLabel, added, l) && LabelEntry(removedByLabel, removed, l);
    assert LabelAt(table, overlaps, requireCompatible, added, removed, pairs, labels, l);
    if l !in removedByLabel {
      NothingToPass(table, overlaps, requireCompatible, Labelled(added, l), Labelled(removed, l));
    }
  }

  class PackageMatcher {
    var trvList: seq<Job>
    var addedDict: map<string, InfoSet>
    var removedDict: map<string, InfoSet>
    const scoreCache: FlavorScoreCache

    constructor (table: MatchTable)
      ensures trvList == [] && addedDict == map[] && removedDict == map[]
      ensures scoreCache.Valid() && scoreCache.table == table && fresh(scoreCache)
    {
      trvList, addedDict, removedDict := [], map[], map[];
      scoreCache := new FlavorScoreCache(table);
    }

    ghost function PoolOf(name: string, addedList: InfoSet, removedList: InfoSet): Pool
      requires name in addedDict && name in removedDict
      reads this, addedList, removedList, addedDict[name], removedDict[name]
    {
      Pool(addedList.items, removedList.items, addedDict[name].items, removedDict[name].items)
    }

    /** The lists of a pass are parts of the dictionary entries, or those entries themselves. */
    ghost predicate InStep(name: string, addedList: InfoSet, removedList: InfoSet)
      reads this, addedList, removedList, scoreCache,
            (if name in addedDict then {addedDict[name]} else {}),
            (if name in removedDict then {removedDict[name]} else {})
    {
      && name in addedDict && name in removedDict
      && addedDict[name] != removedDict[name] && addedList != removedList
      && addedList != removedDict[name] && removedList != addedDict[name]
      && addedList.items <= addedDict[name].items && removedList.items <= removedDict[name].items
      && scoreCache.Valid()
    }

    /** `_makeMatch`: none of its removals can fail. */
    method MakeMatch(name: string, oldInfo: Info, newInfo: Info, addedList: InfoSet, removedList: InfoSet)
      requires InStep(name, addedList, removedList)
      requires newInfo in addedList.items && oldInfo in removedList.items
      modifies this`trvList, addedList, removedList, addedDict[name], removedDict[name]
      ensures InStep(name, addedList, removedList)
      ensures trvList == old(trvList) + [Job(name, Some(oldInfo), Some(newInfo))]
      ensures PoolOf(name, addedList, removedList)
              == Without(old(PoolOf(name, addedList, removedList)), {oldInfo}, {newInfo})
    {
      trvList := trvList + [Job(name, Some(oldInfo), Some(newInfo))];
      if addedList != addedDict[name] {
        addedList.Remove(newInfo);
      }
      addedDict[name].Remove(newInfo);
      if removedList != removedDict[name] {
        removedList.Remove(oldInfo);
      }
      removedDict[name].Remove(oldInfo);
    }

    method MakeMatches(name: string, matches: Matches, addedList: InfoSet, removedList: InfoSet)
      requires InStep(name, addedList, removedList)
      requires Pairs(matches, removedList.items, addedList.items)
      modifies this`trvList, addedList, removedList, addedDict[name], removedDict[name]
      ensures InStep(name, addedList, removedList)
      ensures trvList == old(trvList) + Jobs(name, matches)
      ensures Took(old(PoolOf(name, addedList, removedList)), matches, PoolOf(name, addedList, removedList))
    {
      ghost var before := PoolOf(name, addedList, removedList);
      assert matches[..0] == [];
      for i := 0 to |matches|
        invariant InStep(name, addedList, removedList)
        invariant trvList == old(trvList) + Jobs(name, matches[..i])
        invariant PoolOf(name, addedList, removedList) == Without(before, Lefts(matches[..i]), Rights(matches[..i]))
      {
        NextPair(matches, before.removedList, before.addedList, i);
        MakeMatch(name, matches[i].left, matches[i].right, addedList, removedList);
      }
      assert matches[..|matches|] == matches;
    }

    method FilterCompatible(xs: seq<Info>, flavor: Flavor) returns (r: seq<Info>)
      requires scoreCache.Valid()
      modifies scoreCache
      ensures scoreCache.Valid() && r == CompatibleWith(scoreCache.table, xs, flavor)
    {
      r := [];
      for i := 0 to |xs|
        invariant scoreCache.Valid() && r == CompatibleWith(scoreCache.table, xs[..i], flavor)
      {
        assert xs[..i + 1][..i] == xs[..i];
        var ok := scoreCache.Matches(xs[i].flavor, flavor);
        if ok {
          r := r + [xs[i]];
        }
      }
      assert xs[..|xs|] == xs;
    }

    method FilterUsable(matches: seq<Info>, list: set<Info>, flavor: Flavor, requireCompatible: bool)
      returns (r: seq<Info>)
      requires scoreCache.Valid()
      modifies scoreCache
      ensures scoreCache.Valid() && r == InMatches(scoreCache.table, matches, list, flavor, requireCompatible)
    {
      r := Among(matches, list);
      if requireCompatible {
        r := FilterCompatible(r, flavor);
      }
    }

    /** What the path hashes of an added trove point to in the list, and what the last of those points
        back to. */
    method PathMatches(added: Info, addedItems: set<Info>, removedItems: set<Info>, overlaps: Overlaps,
                       requireCompatible: bool)
      returns (inMatches: seq<Info>, reverseMatches: seq<Info>)
      requires scoreCache.Valid() && Symmetric(overlaps) && added in overlaps
      modifies scoreCache
      ensures scoreCache.Valid()
      ensures inMatches == InMatches(scoreCache.table, overlaps[added], removedItems, added.flavor, requireCompatible)
      ensures forall x :: x in inMatches ==>
                && x in removedItems && x in overlaps
                && HashMatch(scoreCache.table, overlaps, requireCompatible, Pair(x, added))
      ensures inMatches == [] ==> reverseMatches == []
      ensures inMatches != [] ==>
                var last := inMatches[|inMatches| - 1];
                && last in overlaps
                && reverseMatches == InMatches(scoreCache.table, overlaps[last], addedItems, added.flavor, requireCompatible)
    {
      var removedPathMatches := overlaps[added];
      inMatches := FilterUsable(removedPathMatches, removedItems, added.flavor, requireCompatible);
      var outMatches := NotAmong(removedPathMatches, inMatches);
      UsableMembers(scoreCache.table, removedPathMatches, removedItems, added.flavor, requireCompatible);
      InMatchesCount(scoreCache.table, removedPathMatches, removedItems, added.flavor, requireCompatible, inMatches);
      assert |inMatches| + |outMatches| == |removedPathMatches|;
      reverseMatches := [];
      for i := 0 to |inMatches|
        invariant scoreCache.Valid()
        invariant i == 0 ==> reverseMatches == []
        invariant i > 0 ==> inMatches[i - 1] in overlaps
        invariant i > 0 ==>
                    reverseMatches == InMatches(scoreCache.table, overlaps[inMatches[i - 1]], addedItems, added.flavor,
                                                requireCompatible)
      {
        assert inMatches[i] in removedPathMatches;
        reverseMatches := FilterUsable(overlaps[inMatches[i]], addedItems, added.flavor, requireCompatible);
      }
    }

    /** One added trove of `_checkPathHashMatch`: matched if its path hashes point to exactly one
        removed trove and that one points to nothing else. */
    method CheckAdded(name: string, added: Info, addedList: InfoSet, removedList: InfoSet,
                      overlaps: Overlaps, requireCompatible: bool)
      returns (matched: Option<Info>, delay: bool)
      requires InStep(name, addedList, removedList) && Symmetric(overlaps) && added in addedList.items
      modifies this`trvList, addedList, removedList, addedDict[name], removedDict[name], scoreCache
      ensures InStep(name, addedList, removedList)
      ensures matched.None? ==>
                && trvList == old(trvList)
                && PoolOf(name, addedList, removedList) == old(PoolOf(name, addedList, removedList))
      ensures matched.Some? ==>
                && matched.value in old(removedList.items)
                && trvList == old(trvList) + [Job(name, matched, Some(added))]
                && PoolOf(name, addedList, removedList)
                     == Without(old(PoolOf(name, addedList, removedList)), {matched.value}, {added})
      ensures forall removed :: matched == Some(removed) <==>
                OnlyPartner(scoreCache.table, overlaps, requireCompatible, old(addedList.items), old(removedList.items),
                            added, removed)
      ensures delay <==> Elsewhere(scoreCache.table, overlaps, requireCompatible, old(removedList.items), added)
    {
      matched, delay := None, false;
      if added !in overlaps || overlaps[added] == [] {
        return;
      }
      var inMatches, reverseMatches :=
        PathMatches(added, addedList.items, removedList.items, overlaps, requireCompatible);
      if |reverseMatches| > 1 || |inMatches| > 1 {
        return;
      } else if |inMatches| == 1 {
        var removed := inMatches[0];
        MakeMatch(name, removed, added, addedList, removedList);
        matched := Some(removed);
      } else {
        delay := true;
      }
    }

    /** What the first loop of `_checkPathHashMatch` has done after the added troves in `order`. */
    ghost predicate HashedSoFar(name: string, addedList: InfoSet, removedList: InfoSet, overlaps: Overlaps,
                                requireCompatible: bool, trv0: seq<Job>, s0: Pool, order: seq<Info>, delayed: seq<Info>)
      reads this, addedList, removedList, scoreCache,
            (if name in addedDict then {addedDict[name]} else {}),
            (if name in removedDict then {removedDict[name]} else {})
    {
      var pairs := Hashing(scoreCache.table, overlaps, requireCompatible, s0.addedList, s0.removedList, order);
      && InStep(name, addedList, removedList)
      && trvList == trv0 + Jobs(name, pairs)
      && Took(s0, pairs, PoolOf(name, addedList, removedList))
      && delayed == Delays(scoreCache.table, overlaps, requireCompatible, s0.addedList, s0.removedList, order)
    }

    method CheckNext(name: string, added: Info, addedList: InfoSet, removedList: InfoSet,
                     overlaps: Overlaps, requireCompatible: bool, delayed: seq<Info>,
                     ghost trv0: seq<Job>, ghost s0: Pool, ghost order: seq<Info>)
      returns (delayedAdds: seq<Info>)
      requires Symmetric(overlaps) && added in addedList.items
      requires HashedSoFar(name, addedList, removedList, overlaps, requireCompatible, trv0, s0, order, delayed)
      modifies this`trvList, addedList, removedList, addedDict[name], removedDict[name], scoreCache
      ensures HashedSoFar(name, addedList, removedList, overlaps, requireCompatible, trv0, s0, order + [added], delayedAdds)
      ensures old(addedList.items) - {added} <= addedList.items
    {
      ghost var s1 := PoolOf(name, addedList, removedList);
      var matched, delay := CheckAdded(name, added, addedList, removedList, overlaps, requireCompatible);
      NextChecked(scoreCache.table, overlaps, requireCompatible, trv0, name, s0, order, s1, added, matched, delay,
                  PoolOf(name, addedList, removedList));
      delayedAdds := if delay then delayed + [added] else delayed;
    }

    /** `_checkPathHashMatch`, first loop: in the order in which it takes the added troves, each is matched if path
        hashes name one partner for it, and delayed if they only name troves outside the lists. */
    method CheckAllAdded(name: string, addedList: InfoSet, removedList: InfoSet,
                         overlaps: Overlaps, requireCompatible: bool)
      returns (delayedAdds: seq<Info>, ghost order: seq<Info>)
      requires InStep(name, addedList, removedList) && Symmetric(overlaps)
      modifies this`trvList, addedList, removedList, addedDict[name], removedDict[name], scoreCache
      ensures NoneTwice(order) && forall x :: x in order <==> x in old(addedList.items)
      ensures HashedSoFar(name, addedList, removedList, overlaps, requireCompatible, old(trvList),
                          old(PoolOf(name, addedList, removedList)), order, delayedAdds)
    {
      ghost var before := PoolOf(name, addedList, removedList);
      delayedAdds, order := [], [];
      var todo := addedList.items;
      TookNothing(before);
      while todo != {}
        invariant todo <= addedList.items && NoneTwice(order)
        invariant forall x :: x in order <==> x in before.addedList && x !in todo
        invariant HashedSoFar(name, addedList, removedList, overlaps, requireCompatible, old(trvList), before, order,
                              delayedAdds)
        decreases |todo|
      {
        var added :| added in todo;
        delayedAdds := CheckNext(name, added, addedList, removedList, overlaps, requireCompatible, delayedAdds,
                                 old(trvList), before, order);
        todo, order := todo - {added}, order + [added];
      }
    }

    /** `_checkPathHashMatch`, second loop: the removed troves whose overlaps lie outside the lists. */
    method DelayedRemoves(removes0: set<Info>, adds: set<Info>, overlaps: Overlaps, requireCompatible: bool)
      returns (delayedRemoves: seq<Info>)
      requires scoreCache.Valid()
      modifies scoreCache
      ensures scoreCache.Valid()
      ensures forall x :: x in delayedRemoves <==>
                x in removes0 && Elsewhere(scoreCache.table, overlaps, requireCompatible, adds, x)
      ensures NoneTwice(delayedRemoves)
    {
      delayedRemoves := [];
      var removes := removes0;
      while removes != {}
        invariant scoreCache.Valid() && removes <= removes0 && NoneTwice(delayedRemoves)
        invariant forall x :: x in delayedRemoves <==>
                    x in removes0 - removes && Elsewhere(scoreCache.table, overlaps, requireCompatible, adds, x)
        decreases |removes|
      {
        var removed :| removed in removes;
        assert removed !in delayedRemoves;
        removes := removes - {removed};
        if removed in overlaps && overlaps[removed] != [] {
          var inMatches := FilterUsable(overlaps[removed], adds, removed.flavor, requireCompatible);
          if inMatches == [] {
            delayedRemoves := delayedRemoves + [removed];
          }
        }
      }
    }

    /** The end of `_matchList`: by flavor and version, among what is not delayed. It raises over two
        troves the closeness measure cannot tell apart. */
    method MatchRest(name: string, addedList: InfoSet, removedList: InfoSet,
                     newAddedList: set<Info>, newRemovedList: set<Info>, requireCompatible: bool)
      returns (error: bool, matches: Matches)
      requires InStep(name, addedList, removedList)
      requires newAddedList <= addedList.items && newRemovedList <= removedList.items
      modifies this`trvList, addedList, removedList, addedDict[name], removedDict[name], scoreCache
      ensures scoreCache.Valid()
      ensures error ==> exists o, n :: Confused(scoreCache.table, requireCompatible, newRemovedList, newAddedList, o, n)
      ensures !error ==>
                && InStep(name, addedList, removedList)
                && trvList == old(trvList) + Jobs(name, matches)
                && Took(old(PoolOf(name, addedList, removedList)), matches, PoolOf(name, addedList, removedList))
                && Pairs(matches, newRemovedList, newAddedList)
                && MatchedWell(scoreCache.table, requireCompatible, matches, newRemovedList, newAddedList)
    {
      var found;
      ghost var changePair;
      found, changePair :=
        MatchByFlavorAndVersion(scoreCache, newAddedList, newRemovedList, scoreCache.table.stamp, requireCompatible);
      if found.Err? {
        FailedOverTwo(scoreCache.table, requireCompatible, newRemovedList, newAddedList, changePair);
        return true, [];
      }
      error, matches := false, found.value;
      assert ByFlavorPairs(scoreCache.table, requireCompatible, matches, newRemovedList, newAddedList, changePair);
      PairsWithin(matches, newRemovedList, newAddedList, removedList.items, addedList.items);
      MakeMatches(name, matches, addedList, removedList);
    }

    /** `_matchList` when there is something on both sides: path hashes first, then flavors and
        versions. Delayed troves are left out only as long as the other side can still be used up
        without them. */
    method MatchBothSides(name: string, addedList: InfoSet, removedList: InfoSet, overlaps: Overlaps, requireCompatible: bool)
      returns (error: bool, ghost pairs: Matches)
      requires InStep(name, addedList, removedList) && Symmetric(overlaps)
      requires addedList.items != {} && removedList.items != {}
      modifies this`trvList, addedList, removedList, addedDict[name], removedDict[name], scoreCache
      ensures scoreCache.Valid()
      ensures error ==> Stuck(scoreCache.table, overlaps, requireCompatible, old(addedList.items), old(removedList.items))
      ensures !error ==>
                && InStep(name, addedList, removedList)
                && trvList == old(trvList) + Jobs(name, pairs)
                && Took(old(PoolOf(name, addedList, removedList)), pairs, PoolOf(name, addedList, removedList))
                && PassResult(scoreCache.table, overlaps, requireCompatible, old(addedList.items), old(removedList.items),
                              pairs)
    {
      ghost var s0 := PoolOf(name, addedList, removedList);
      var addDelays, order := CheckAllAdded(name, addedList, removedList, overlaps, requireCompatible);
      var removeDelays := DelayedRemoves(removedList.items, addedList.items, overlaps, requireCompatible);
      ghost var s1 := PoolOf(name, addedList, removedList);
      var newAddedList, newRemovedList :=
        ChooseDelays(addedList.items, removedList.items, addDelays, removeDelays);
      KeptLists(scoreCache.table, overlaps, requireCompatible, s0, order, s1, addDelays, removeDelays);
      var matches;
      error, matches := MatchRest(name, addedList, removedList, newAddedList, newRemovedList, requireCompatible);
      if error {
        PassStuck(scoreCache.table, overlaps, requireCompatible, s0, order, s1, newAddedList, newRemovedList);
        return true, [];
      }
      ghost var steps := Steps(order, matches);
      pairs := Made(scoreCache.table, overlaps, requireCompatible, s0.addedList, s0.removedList, steps);
      JoinPass(scoreCache.table, overlaps, requireCompatible, s0, steps, s1, PoolOf(name, addedList, removedList));
      AppendJobs(old(trvList), name,
                 Hashing(scoreCache.table, overlaps, requireCompatible, s0.addedList, s0.removedList, order), matches);
    }

    /** `_matchList` */
    method MatchList(name: string, addedList: InfoSet, removedList: InfoSet, overlaps: Overlaps, requireCompatible: bool)
      returns (error: bool, ghost pairs: Matches)
      requires InStep(name, addedList, removedList) && Symmetric(overlaps)
      modifies this`trvList, addedList, removedList, addedDict[name], removedDict[name], scoreCache
      ensures scoreCache.Valid()
      ensures error ==> Stuck(scoreCache.table, overlaps, requireCompatible, old(addedList.items), old(removedList.items))
      ensures !error ==>
                && InStep(name, addedList, removedList)
                && trvList == old(trvList) + Jobs(name, pairs)
                && Took(old(PoolOf(name, addedList, removedList)), pairs, PoolOf(name, addedList, removedList))
                && PassResult(scoreCache.table, overlaps, requireCompatible, old(addedList.items), old(removedList.items),
                              pairs)
    {
      error, pairs := false, [];
      if addedList.items != {} && removedList.items != {} {
        error, pairs := MatchBothSides(name, addedList, removedList, overlaps, requireCompatible);
      } else {
        NothingToPass(scoreCache.table, overlaps, requireCompatible, addedList.items, removedList.items);
      }
    }

    /** The troves of a name by the label they are on. */
    method GroupByLabel(items: set<Info>) returns (byLabel: map<Option<Versions.Part>, set<Info>>)
      ensures GroupedByLabel(byLabel, items)
    {
      byLabel := map[];
      var rest := items;
      ghost var done: set<Info> := {};
      while rest != {}
        invariant rest + done == items && rest !! done
        invariant GroupedByLabel(byLabel, done)
        decreases |rest|
      {
        var x :| x in rest;
        var l := TrailingLabel(x.version);
        AddToLabel(byLabel, done, x);
        byLabel := byLabel[l := (if l in byLabel then byLabel[l] else {}) + {x}];
        rest, done := rest - {x}, done + {x};
      }
      assert done == items;
    }

    /** The dictionary entries of a name, as the lists of a pass over all of them. */
    ghost function Whole(name: string): Pool
      requires name in addedDict && name in removedDict
      reads this, addedDict[name], removedDict[name]
    {
      PoolOf(name, addedDict[name], removedDict[name])
    }

    ghost predicate WholeInStep(name: string)
      reads this, scoreCache,
            (if name in addedDict then {addedDict[name]} else {}),
            (if name in removedDict then {removedDict[name]} else {})
    {
      name in addedDict && name in removedDict && InStep(name, addedDict[name], removedDict[name])
    }

    /** What a pass has done for a name so far. */
    ghost predicate DoneSoFar(name: string, trv0: seq<Job>, s0: Pool, pairs: Matches)
      reads this, scoreCache,
            (if name in addedDict then {addedDict[name]} else {}),
            (if name in removedDict then {removedDict[name]} else {})
    {
      WholeInStep(name) && trvList == trv0 + Jobs(name, pairs) && Took(s0, pairs, Whole(name))
    }

    /** One label of `LabelPass`, with its own lists. Nothing can be raised, since troves on one label are not
        measured. */
    method MatchLabel(name: string, l: Option<Versions.Part>, labelAdded: set<Info>, labelRemoved: set<Info>,
                      overlaps: Overlaps, requireCompatible: bool)
      returns (ghost pairs: Matches)
      requires Symmetric(overlaps) && WholeInStep(name)
      requires labelAdded == Labelled(addedDict[name].items, l)
      requires labelRemoved == Labelled(removedDict[name].items, l)
      modifies this`trvList, addedDict[name], removedDict[name], scoreCache
      ensures DoneSoFar(name, old(trvList), old(Whole(name)), pairs)
      ensures PassResult(scoreCache.table, overlaps, requireCompatible, labelAdded, labelRemoved, pairs)
    {
      var addedList := new InfoSet(labelAdded);
      var removedList := new InfoSet(labelRemoved);
      ghost var s := Whole(name);
      ghost var before := PoolOf(name, addedList, removedList);
      NotStuckOnLabel(scoreCache.table, overlaps, requireCompatible, l, labelAdded, labelRemoved);
      var error;
      error, pairs := MatchList(name, addedList, removedList, overlaps, requireCompatible);
      assert !error;
      ghost var after := PoolOf(name, addedList, removedList);
      TookWithin(before, pairs, after, s.added, s.removed);
      assert Whole(name) == Pool(after.added, after.removed, after.added, after.removed);
    }

    /** What `LabelPass` has done once the labels in `todo` are all that is still to do. */
    ghost predicate LabelsInStep(name: string, overlaps: Overlaps, requireCompatible: bool, trv0: seq<Job>, s0: Pool,
                                 pairs: Matches, todo: set<Option<Versions.Part>>)
      reads this, scoreCache,
            (if name in addedDict then {addedDict[name]} else {}),
            (if name in removedDict then {removedDict[name]} else {})
    {
      && DoneSoFar(name, trv0, s0, pairs)
      && LabelsSoFar(scoreCache.table, overlaps, requireCompatible, s0.addedList, s0.removedList, pairs, todo)
    }

    /** One label, if it has troves on both sides. */
    method NextOnLabel(name: string, overlaps: Overlaps, requireCompatible: bool,
                       addedByLabel: map<Option<Versions.Part>, set<Info>>,
                       removedByLabel: map<Option<Versions.Part>, set<Info>>, l: Option<Versions.Part>,
                       ghost labels: set<Option<Versions.Part>>, ghost trv0: seq<Job>, ghost s0: Pool, ghost pairs: Matches)
      returns (ghost all: Matches)
      requires Symmetric(overlaps) && LabelsInStep(name, overlaps, requireCompatible, trv0, s0, pairs, labels)
      requires GroupedByLabel(addedByLabel, s0.addedList) && GroupedByLabel(removedByLabel, s0.removedList)
      requires l in labels && labels <= addedByLabel.Keys
      modifies this`trvList, addedDict[name], removedDict[name], scoreCache
      ensures LabelsInStep(name, overlaps, requireCompatible, trv0, s0, all, labels - {l})
    {
      ghost var s1 := Whole(name);
      LabelLists(scoreCache.table, overlaps, requireCompatible, addedByLabel, removedByLabel, s0.addedList, s0.removedList,
                 pairs, labels, l);
      ghost var more: Matches := [];
      if l in removedByLabel {
        more := MatchLabel(name, l, addedByLabel[l], removedByLabel[l], overlaps, requireCompatible);
      } else {
        TookNothing(s1);
      }
      all := pairs + more;
      JoinLabel(scoreCache.table, overlaps, requireCompatible, name, trv0, s0, pairs, s1, labels, l, more, Whole(name));
    }

    /** Passes 1 and 3: label by label. */
    method LabelPass(name: string, overlaps: Overlaps, requireCompatible: bool) returns (ghost pairs: Matches)
      requires Symmetric(overlaps) && WholeInStep(name)
      modifies this`trvList, addedDict[name], removedDict[name], scoreCache
      ensures DoneSoFar(name, old(trvList), old(Whole(name)), pairs)
      ensures LabelPassResult(scoreCache.table, overlaps, requireCompatible, old(addedDict[name].items),
                              old(removedDict[name].items), pairs)
    {
      ghost var s0 := Whole(name);
      var addedByLabel := GroupByLabel(addedDict[name].items);
      var removedByLabel := GroupByLabel(removedDict[name].items);
      var labels := addedByLabel.Keys;
      StartLabels(scoreCache.table, overlaps, requireCompatible, addedByLabel, s0.addedList, s0.removedList);
      pairs := [];
      while labels != {}
        invariant labels <= addedByLabel.Keys
        invariant LabelsInStep(name, overlaps, requireCompatible, old(trvList), s0, pairs, labels)
        decreases |labels|
      {
        var l :| l in labels;
        pairs := NextOnLabel(name, overlaps, requireCompatible, addedByLabel, removedByLabel, l, labels, old(trvList), s0,
                             pairs);
        labels := labels - {l};
      }
    }

    /** Passes 2 and 4: everything that is left, across labels. */
    method WholePass(name: string, overlaps: Overlaps, requireCompatible: bool) returns (error: bool, ghost pairs: Matches)
      requires Symmetric(overlaps) && WholeInStep(name)
      modifies this`trvList, addedDict[name], removedDict[name], scoreCache
      ensures scoreCache.Valid()
      ensures error ==> Stuck(scoreCache.table, overlaps, requireCompatible, old(addedDict[name].items),
                              old(removedDict[name].items))
      ensures !error ==>
                && DoneSoFar(name, old(trvList), old(Whole(name)), pairs)
                && PassResult(scoreCache.table, overlaps, requireCompatible, old(addedDict[name].items),
                              old(removedDict[name].items), pairs)
    {
      error, pairs := MatchList(name, addedDict[name], removedDict[name], overlaps, requireCompatible);
    }

    /** The four passes over one name. */
    method MatchName(name: string, overlaps: Overlaps) returns (error: bool, ghost pairs: Matches)
      requires WholeInStep(name) && Symmetric(overlaps)
      modifies this`trvList, addedDict[name], removedDict[name], scoreCache
      ensures scoreCache.Valid()
      ensures !error ==> DoneSoFar(name, old(trvList), old(Whole(name)), pairs)
      ensures NameOutcome(scoreCache.table, overlaps, old(addedDict[name].items), old(removedDict[name].items), error, pairs)
    {
      ghost var s0 := Whole(name);
      ghost var first := LabelPass(name, overlaps, true);
      ghost var s1 := Whole(name);
      ghost var second;
      error, second := WholePass(name, overlaps, true);
      if error {
        StuckWithin(scoreCache.table, overlaps, true, s1.added, s1.removed, s0.added, s0.removed);
        return true, [];
      }
      ghost var s2 := Whole(name);
      ghost var third := LabelPass(name, overlaps, false);
      ghost var s3 := Whole(name);
      ghost var fourth;
      error, fourth := WholePass(name, overlaps, false);
      if error {
        StuckWithin(scoreCache.table, overlaps, false, s3.added, s3.removed, s0.added, s0.removed);
        return true, [];
      }
      JoinFour(name, scoreCache.table, overlaps, old(trvList), s0, first, s1, second, s2, third, s3, fourth, Whole(name));
      pairs := first + second + third + fourth;
    }
  }
}
