/** The third result of `diff`: which old trove each new one is to be made from. */
module TroveJobs {
  import opened Text
  import opened TroveSets
  import opened TroveDiff
  import opened VersionMatch
  import opened FlavorMatch
  import opened PathHashes
  import opened Passes
  import opened DiffPackages

  ghost function AddedIn(l: seq<Change>): set<Info>
  {
    set c | c in l && c.Add? :: Info(c.version, c.flavor)
  }

  ghost function RemovedIn(l: seq<Change>): set<Info>
  {
    set c | c in l && c.Remove? :: Info(c.version, c.flavor)
  }

  /** `setdefault(name, set()).add(...)` */
  function WithMember(d: Troves, name: string, x: Info): Troves
  {
    d[name := TrovesOf(d, name) + {x}]
  }

  /** The names done so far are collected, the others not touched. */
  ghost predicate Collected(d: map<string, seq<Change>>, rest: set<string>, added: Troves, removed: Troves)
  {
    forall name :: CollectedAt(d, rest, added, removed, name)
  }

  ghost predicate CollectedAt(d: map<string, seq<Change>>, rest: set<string>, added: Troves, removed: Troves, name: string)
  {
    var l := if name in d && name !in rest then d[name] else [];
    TrovesOf(added, name) == AddedIn(l) && TrovesOf(removed, name) == RemovedIn(l)
  }

  /** One name: '+' and '-' changes are told apart, '~' changes are left out. */
  method CollectName(added0: Troves, removed0: Troves, name: string, l: seq<Change>) returns (added: Troves, removed: Troves)
    requires TrovesOf(added0, name) == {} && TrovesOf(removed0, name) == {}
    ensures TrovesOf(added, name) == AddedIn(l) && TrovesOf(removed, name) == RemovedIn(l)
    ensures forall n :: n != name ==> TrovesOf(added, n) == TrovesOf(added0, n) && TrovesOf(removed, n) == TrovesOf(removed0, n)
  {
    added, removed := added0, removed0;
    for i := 0 to |l|
      invariant TrovesOf(added, name) == AddedIn(l[..i]) && TrovesOf(removed, name) == RemovedIn(l[..i])
      invariant forall n :: n != name ==> TrovesOf(added, n) == TrovesOf(added0, n) && TrovesOf(removed, n) == TrovesOf(removed0, n)
    {
      assert l[..i + 1] == l[..i] + [l[i]];
      var c := l[i];
      if c.Add? {
        added := WithMember(added, name, Info(c.version, c.flavor));
      } else if c.Remove? {
        removed := WithMember(removed, name, Info(c.version, c.flavor));
      }
    }
    assert l[..|l|] == l;
  }

  method Collect(strong: map<string, seq<Change>>) returns (added: Troves, removed: Troves)
    ensures Collected(strong, {}, added, removed)
  {
    added, removed := map[], map[];
    var rest := strong.Keys;
    while rest != {}
      invariant rest <= strong.Keys && Collected(strong, rest, added, removed)
      decreases |rest|
    {
      var name :| name in rest;
      ghost var added0, removed0, rest0 := added, removed, rest;
      assert CollectedAt(strong, rest0, added0, removed0, name);
      added, removed := CollectName(added, removed, name, strong[name]);
      rest := rest - {name};
      forall n
        ensures CollectedAt(strong, rest, added, removed, n)
      {
        assert CollectedAt(strong, rest0, added0, removed0, n);
      }
    }
  }

  /** The '+' changes of a diff are the troves only on our side, the '-' changes those only on theirs. */
  lemma CollectedFromDiff(d: map<string, seq<Change>>, ours: TroveMap, theirs: TroveMap, added: Troves, removed: Troves,
                          name: string, x: Info)
    requires IsTroveDiff(d, ours, theirs) && Collected(d, {}, added, removed)
    ensures var key := Key(name, x.version, x.flavor);
            && (x in TrovesOf(added, name) <==> key in ours && key !in theirs)
            && (x in TrovesOf(removed, name) <==> key in theirs && key !in ours)
  {
    var key := Key(name, x.version, x.flavor);
    var l := if name in d then d[name] else [];
    assert CollectedAt(d, {}, added, removed, name);
    forall c
      ensures c in l <==> ChangeFor(ours, theirs, KeyOf(name, c)) == Some(c)
    {
      assert ListedRightly(d, ours, theirs, name, c);
      assert c in l <==> c in multiset(l);
    }
    if x in AddedIn(l) {
      var c :| c in l && c.Add? && Info(c.version, c.flavor) == x;
      assert KeyOf(name, c) == key;
    }
    if x in RemovedIn(l) {
      var c :| c in l && c.Remove? && Info(c.version, c.flavor) == x;
      assert KeyOf(name, c) == key;
    }
    if key in ours && key !in theirs {
      var c := Add(x.version, x.flavor, ours[key]);
      assert KeyOf(name, c) == key && c in l;
      assert Info(c.version, c.flavor) == x;
    }
    if key in theirs && key !in ours {
      var c := Remove(x.version, x.flavor);
      assert KeyOf(name, c) == key && c in l;
      assert Info(c.version, c.flavor) == x;
    }
  }

  /** Troves of one name on one side only. */
  ghost function Only(ours: TroveMap, theirs: TroveMap, name: string): set<Info>
  {
    set key | key in ours && key !in theirs && key.name == name :: Info(key.version, key.flavor)
  }

  lemma InOnly(ours: TroveMap, theirs: TroveMap, name: string, x: Info)
    ensures x in Only(ours, theirs, name) <==> Key(name, x.version, x.flavor) in ours && Key(name, x.version, x.flavor) !in theirs
  {
    if Key(name, x.version, x.flavor) in ours && Key(name, x.version, x.flavor) !in theirs {
      var key := Key(name, x.version, x.flavor);
      assert key in ours && key.name == name && Info(key.version, key.flavor) == x;
    }
  }

  /** The entries of `trv` are the troves that are only in `ours` and those only in `theirs`, each once. */
  ghost predicate EachOnce(trv: seq<Job>, ours: TroveMap, theirs: TroveMap)
  {
    && (forall j :: j in trv ==> HasASide(j))
    && (forall key :: OnceEach(trv, ours, theirs, key))
  }

  ghost predicate OnceEach(trv: seq<Job>, ours: TroveMap, theirs: TroveMap, key: Key)
  {
    var x := Info(key.version, key.flavor);
    && (NewOnce(trv, key.name, x) <==> key in ours && key !in theirs)
    && (OldOnce(trv, key.name, x) <==> key in theirs && key !in ours)
  }

  /** A name over which matching raises: among the troves on one side only are two that could be matched
      and that the closeness measure cannot tell apart, and they are not the only two. */
  ghost predicate DiffStuck(ours: TroveMap, theirs: TroveMap, table: MatchTable, overlaps: string -> Overlaps, name: string)
  {
    && !OneEach(Only(ours, theirs, name), Only(theirs, ours, name))
    && Stuck(table, overlaps(name), false, Only(ours, theirs, name), Only(theirs, ours, name))
  }

  /** The pairs of a name: none unless there are troves on both sides, the only two, or those of the passes. */
  ghost predicate PairedRightly(trv: seq<Job>, ours: TroveMap, theirs: TroveMap, table: MatchTable,
                                overlaps: string -> Overlaps, name: string)
  {
    var added, removed, pairs := Only(ours, theirs, name), Only(theirs, ours, name), PairsOf(trv, name);
    if added == {} || removed == {} then pairs == []
    else if OneEach(added, removed) then OnlyPair(added, removed, pairs)
    else WellMatched(table, overlaps(name), added, removed, pairs)
  }

  /** Pairs use troves of both sides. */
  lemma {:induction false} PairsHaveSides(trv: seq<Job>, name: string)
    requires PairsOf(trv, name) != []
    ensures exists x :: (name, x) in NewSides(trv)
    ensures exists x :: (name, x) in OldSides(trv)
  {
    var before, job := trv[..|trv| - 1], trv[|trv| - 1];
    if PairsOf(before, name) != [] {
      PairsHaveSides(before, name);
      var x :| (name, x) in NewSides(before);
      assert (name, x) in NewSides(trv);
      var y :| (name, y) in OldSides(before);
      assert (name, y) in OldSides(trv);
    } else {
      assert (name, job.newInfo.value) in NewSide(job) && (name, job.oldInfo.value) in OldSide(job);
      assert (name, job.newInfo.value) in NewSides(trv) && (name, job.oldInfo.value) in OldSides(trv);
    }
  }

  lemma NoPairsAlone(trv: seq<Job>, added: Troves, removed: Troves, name: string)
    requires NewSides(trv) == multiset(AllTroves(added)) && OldSides(trv) == multiset(AllTroves(removed))
    requires TrovesOf(added, name) == {} || TrovesOf(removed, name) == {}
    ensures PairsOf(trv, name) == []
  {
    if PairsOf(trv, name) != [] {
      PairsHaveSides(trv, name);
      var x :| (name, x) in NewSides(trv);
      var y :| (name, y) in OldSides(trv);
      InTroves(added, name, x);
      InTroves(removed, name, y);
    }
  }

  lemma RightlyPaired(trv: seq<Job>, d: map<string, seq<Change>>, ours: TroveMap, theirs: TroveMap, added: Troves,
                      removed: Troves, table: MatchTable, overlaps: string -> Overlaps, name: string)
    requires IsTroveDiff(d, ours, theirs) && Collected(d, {}, added, removed)
    requires NewSides(trv) == multiset(AllTroves(added)) && OldSides(trv) == multiset(AllTroves(removed))
    requires Settled(Given(added, removed, table, overlaps), name, PairsOf(trv, name))
    ensures PairedRightly(trv, ours, theirs, table, overlaps, name)
  {
    OnlyCollected(d, ours, theirs, added, removed, name);
    if TrovesOf(added, name) == {} || TrovesOf(removed, name) == {} {
      NoPairsAlone(trv, added, removed, name);
    }
  }

  /** The trove list of `diff`, when the change set is not absolute. */
  method TroveList(strong: map<string, seq<Change>>, ghost ours: TroveMap, ghost theirs: TroveMap,
                   table: MatchTable, overlaps: string -> Overlaps)
    returns (r: Result<seq<Job>>)
    requires IsTroveDiff(strong, ours, theirs)
    requires forall name :: Symmetric(overlaps(name))
    ensures r.Ok? ==> EachOnce(r.value, ours, theirs)
    ensures r.Ok? ==> forall name :: PairedRightly(r.value, ours, theirs, table, overlaps, name)
    ensures r.Err? ==> exists name :: DiffStuck(ours, theirs, table, overlaps, name)
  {
    var added, removed := Collect(strong);
    r := Ok([]);
    if added != map[] || removed != map[] {
      r := DiffPackages.DiffPackages(added, removed, table, overlaps);
    } else {
      assert AllTroves(added) == {} && AllTroves(removed) == {};
    }
    if r.Err? {
      ghost var name :| NameStuck(Given(added, removed, table, overlaps), name);
      OnlyCollected(strong, ours, theirs, added, removed, name);
      assert DiffStuck(ours, theirs, table, overlaps, name);
      return;
    }
    forall key
      ensures OnceEach(r.value, ours, theirs, key)
    {
      var x := Info(key.version, key.flavor);
      CollectedFromDiff(strong, ours, theirs, added, removed, key.name, x);
      NothingLost(r.value, added, removed, key.name, x);
    }
    forall name
      ensures PairedRightly(r.value, ours, theirs, table, overlaps, name)
    {
      assert Settled(Given(added, removed, table, overlaps), name, PairsOf(r.value, name));
      RightlyPaired(r.value, strong, ours, theirs, added, removed, table, overlaps, name);
    }
  }

  lemma OnlyCollected(d: map<string, seq<Change>>, ours: TroveMap, theirs: TroveMap, added: Troves, removed: Troves,
                      name: string)
    requires IsTroveDiff(d, ours, theirs) && Collected(d, {}, added, removed)
    ensures TrovesOf(added, name) == Only(ours, theirs, name) && TrovesOf(removed, name) == Only(theirs, ours, name)
  {
    forall x
      ensures x in TrovesOf(added, name) <==> x in Only(ours, theirs, name)
      ensures x in TrovesOf(removed, name) <==> x in Only(theirs, ours, name)
    {
      CollectedFromDiff(d, ours, theirs, added, removed, name, x);
      InOnly(ours, theirs, name, x);
      InOnly(theirs, ours, name, x);
    }
  }
}
