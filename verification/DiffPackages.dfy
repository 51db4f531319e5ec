/** The whole of `_diffPackages`: shortcuts for names that need no matching, the four passes for the
    others, and the left-overs. Every trove ends up in exactly one entry. */
module DiffPackages {
  import opened Text
  import opened Versions
  import opened Pairing
  import opened VersionMatch
  import opened FlavorMatch
  import opened PathHashes
  import opened Passes
  import opened PackageDiff

  type Troves = map<string, set<Info>>

  // ---------------------------------------------------------------- who is in the result

  /** The new sides of all entries, with repetitions. */
  ghost function NewSides(trv: seq<Job>): multiset<(string, Info)>
  {
    if trv == [] then multiset{}
    else NewSides(trv[..|trv| - 1]) + NewSide(trv[|trv| - 1])
  }

  ghost function NewSide(job: Job): multiset<(string, Info)>
  {
    if job.newInfo.Some? then multiset{(job.name, job.newInfo.value)} else multiset{}
  }

  ghost function OldSides(trv: seq<Job>): multiset<(string, Info)>
  {
    if trv == [] then multiset{}
    else OldSides(trv[..|trv| - 1]) + OldSide(trv[|trv| - 1])
  }

  ghost function OldSide(job: Job): multiset<(string, Info)>
  {
    if job.oldInfo.Some? then multiset{(job.name, job.oldInfo.value)} else multiset{}
  }

  /** The matches among the entries for a name. */
  ghost function PairsOf(trv: seq<Job>, name: string): Matches
  {
    if trv == [] then []
    else
      var job := trv[|trv| - 1];
      PairsOf(trv[..|trv| - 1], name)
      + if job.name == name && job.oldInfo.Some? && job.newInfo.Some? then [Pair(job.oldInfo.value, job.newInfo.value)]
        else []
  }

  ghost predicate HasASide(job: Job)
  {
    job.oldInfo.Some? || job.newInfo.Some?
  }

  lemma {:induction false} NewSidesConcat(p: seq<Job>, q: seq<Job>)
    ensures NewSides(p + q) == NewSides(p) + NewSides(q)
  {
    if q == [] {
      assert p + q == p;
    } else {
      var q0, job := q[..|q| - 1], q[|q| - 1];
      NewSidesConcat(p, q0);
      assert (p + q)[..|p + q| - 1] == p + q0 && (p + q)[|p + q| - 1] == job;
    }
  }

  lemma {:induction false} OldSidesConcat(p: seq<Job>, q: seq<Job>)
    ensures OldSides(p + q) == OldSides(p) + OldSides(q)
  {
    if q == [] {
      assert p + q == p;
    } else {
      var q0, job := q[..|q| - 1], q[|q| - 1];
      OldSidesConcat(p, q0);
      assert (p + q)[..|p + q| - 1] == p + q0 && (p + q)[|p + q| - 1] == job;
    }
  }

  lemma {:induction false} PairsOfConcat(p: seq<Job>, q: seq<Job>, name: string)
    ensures PairsOf(p + q, name) == PairsOf(p, name) + PairsOf(q, name)
  {
    if q == [] {
      assert p + q == p;
    } else {
      var q0, job := q[..|q| - 1], q[|q| - 1];
      PairsOfConcat(p, q0, name);
      assert (p + q)[..|p + q| - 1] == p + q0 && (p + q)[|p + q| - 1] == job;
      var last := PairsOf(q, name)[|PairsOf(q0, name)|..];
      assert PairsOf(p, name) + (PairsOf(q0, name) + last) == PairsOf(p, name) + PairsOf(q0, name) + last;
    }
  }

  ghost function Tagged(name: string, infos: set<Info>): set<(string, Info)>
  {
    set x | x in infos :: (name, x)
  }

  ghost function AllTroves(d: Troves): set<(string, Info)>
  {
    set name, x | name in d && x in d[name] :: (name, x)
  }

  lemma SidesOfOne(jobs: seq<Job>, job: Job)
    ensures NewSides(jobs + [job]) == NewSides(jobs) + NewSide(job)
    ensures OldSides(jobs + [job]) == OldSides(jobs) + OldSide(job)
  {
    assert (jobs + [job])[..|jobs|] == jobs;
  }

  lemma TagOne(name: string, infos: set<Info>, x: Info)
    requires x !in infos
    ensures multiset(Tagged(name, infos + {x})) == multiset(Tagged(name, infos)) + multiset{(name, x)}
  {
    assert Tagged(name, infos + {x}) == Tagged(name, infos) + {(name, x)};
  }

  /** The entries for matches of one name. */
  lemma {:induction false} JobsSides(name: string, pairs: Matches, olds: set<Info>, news: set<Info>)
    requires Pairs(pairs, olds, news)
    ensures NewSides(Jobs(name, pairs)) == multiset(Tagged(name, Rights(pairs)))
    ensures OldSides(Jobs(name, pairs)) == multiset(Tagged(name, Lefts(pairs)))
    ensures forall j :: j in Jobs(name, pairs) ==> HasASide(j)
  {
    if pairs != [] {
      var before, last := pairs[..|pairs| - 1], pairs[|pairs| - 1];
      JobsSides(name, before, olds, news);
      var job := Job(name, Some(last.left), Some(last.right));
      SidesOfOne(Jobs(name, before), job);
      TagOne(name, Rights(before), last.right);
      TagOne(name, Lefts(before), last.left);
    }
  }

  lemma {:induction false} JobsPairs(name: string, pairs: Matches, other: string)
    ensures PairsOf(Jobs(name, pairs), other) == if other == name then pairs else []
  {
    if pairs != [] {
      var before, last := pairs[..|pairs| - 1], pairs[|pairs| - 1];
      JobsPairs(name, before, other);
      var jobs := Jobs(name, pairs);
      assert jobs[..|jobs| - 1] == Jobs(name, before);
      assert pairs == before + [last];
    }
  }

  // ---------------------------------------------------------------- what is promised for a name

  /** What `_diffPackages` is given: the troves by name, how flavors score and which path hashes overlap. */
  datatype Given = Given(added: Troves, removed: Troves, table: MatchTable, overlaps: string -> Overlaps)

  ghost predicate OneEach(added: set<Info>, removed: set<Info>)
  {
    |added| == 1 && |removed| == 1
  }

  ghost predicate OnlyPair(added: set<Info>, removed: set<Info>, pairs: Matches)
  {
    exists o, n :: added == {n} && removed == {o} && pairs == [Pair(o, n)]
  }

  /** One trove on each side goes with the other, and more are well matched. */
  ghost predicate Settled(given: Given, name: string, pairs: Matches)
  {
    name in given.added && name in given.removed ==>
      var added, removed := given.added[name], given.removed[name];
      if OneEach(added, removed) then OnlyPair(added, removed, pairs)
      else WellMatched(given.table, given.overlaps(name), added, removed, pairs)
  }

  /** A name over which the run raises: it stands for more than one trove on some side, and for two troves
      that could be matched and that the closeness measure cannot tell apart. */
  ghost predicate NameStuck(given: Given, name: string)
  {
    && name in given.added && name in given.removed
    && !OneEach(given.added[name], given.removed[name])
    && Stuck(given.table, given.overlaps(name), false, given.added[name], given.removed[name])
  }

  lemma WellMatchedOne(table: MatchTable, overlaps: Overlaps, o: Info, n: Info, pairs: Matches)
    requires WellMatched(table, overlaps, {n}, {o}, pairs)
    ensures pairs == [Pair(o, n)]
  {
    assert n in {n} && o in {o};
    PairsCount(pairs, {o}, {n});
    PairAt(pairs, {o}, {n}, 0);
  }

  lemma SettledByPasses(given: Given, name: string, pairs: Matches)
    requires name in given.added && name in given.removed
    requires WellMatched(given.table, given.overlaps(name), given.added[name], given.removed[name], pairs)
    ensures Settled(given, name, pairs)
  {
    var added, removed := given.added[name], given.removed[name];
    if OneEach(added, removed) {
      var n :| n in added;
      var o :| o in removed;
      OnlyMember(added, n);
      OnlyMember(removed, o);
      WellMatchedOne(given.table, given.overlaps(name), o, n, pairs);
    }
  }

  lemma OnlyMember<T>(s: set<T>, x: T)
    requires |s| == 1 && x in s
    ensures s == {x}
  {
    assert |s - {x}| == 0;
    assert s - {x} == {};
  }

  // ---------------------------------------------------------------- conservation

  /** `after` is `before` with `x` taken from the entry of `name`, which may go if that empties it. */
  ghost predicate TakenFrom(before: Troves, name: string, x: set<Info>, after: Troves)
  {
    && TrovesOf(after, name) == TrovesOf(before, name) - x && x <= TrovesOf(before, name)
    && after - {name} == before - {name}
  }

  function TrovesOf(d: Troves, name: string): set<Info>
  {
    if name in d then d[name] else {}
  }

  lemma SameElsewhere(before: Troves, after: Troves, name: string, other: string)
    requires after - {name} == before - {name} && other != name
    ensures other in before <==> other in after
    ensures other in before ==> before[other] == after[other]
  {
    assert other in before <==> other in before - {name};
    assert other in after <==> other in after - {name};
    if other in before {
      assert (before - {name})[other] == before[other] && (after - {name})[other] == after[other];
    }
  }

  lemma TakeTroves(before: Troves, name: string, x: set<Info>, after: Troves)
    requires TakenFrom(before, name, x, after)
    ensures multiset(AllTroves(before)) == multiset(AllTroves(after)) + multiset(Tagged(name, x))
  {
    forall n, i
      ensures (n, i) in AllTroves(before) <==> (n, i) in AllTroves(after) || (n, i) in Tagged(name, x)
      ensures !((n, i) in AllTroves(after) && (n, i) in Tagged(name, x))
    {
      InTroves(before, n, i);
      InTroves(after, n, i);
      assert (n, i) in Tagged(name, x) <==> n == name && i in x;
      if n != name {
        SameElsewhere(before, after, name, n);
      }
    }
    assert AllTroves(before) == AllTroves(after) + Tagged(name, x);
  }

  lemma InTroves(d: Troves, name: string, x: Info)
    ensures (name, x) in AllTroves(d) <==> x in TrovesOf(d, name)
  {
  }

  /** What is left and what is in the result make up what there was. */
  ghost predicate Conserved(trv: seq<Job>, added: Troves, removed: Troves, given: Given)
  {
    && NewSides(trv) + multiset(AllTroves(added)) == multiset(AllTroves(given.added))
    && OldSides(trv) + multiset(AllTroves(removed)) == multiset(AllTroves(given.removed))
    && forall j :: j in trv ==> HasASide(j)
  }

  lemma StillThere(trv: seq<Job>, added: Troves, removed: Troves, given: Given, name: string)
    requires Conserved(trv, added, removed, given)
    ensures TrovesOf(added, name) <= TrovesOf(given.added, name) && TrovesOf(removed, name) <= TrovesOf(given.removed, name)
  {
    forall x | x in TrovesOf(added, name)
      ensures x in TrovesOf(given.added, name)
    {
      InTroves(added, name, x);
      InTroves(given.added, name, x);
      assert (name, x) in multiset(AllTroves(added));
      assert (name, x) in multiset(AllTroves(given.added));
    }
    forall x | x in TrovesOf(removed, name)
      ensures x in TrovesOf(given.removed, name)
    {
      InTroves(removed, name, x);
      InTroves(given.removed, name, x);
      assert (name, x) in multiset(AllTroves(removed));
      assert (name, x) in multiset(AllTroves(given.removed));
    }
  }

  /** A name still to do is untouched, and any other name is settled. */
  ghost predicate NameState(trv: seq<Job>, added: Troves, removed: Troves, given: Given,
                            todo: set<string>, name: string)
  {
    name in given.added && name in given.removed ==>
      if name in todo && name in added && name in removed
      then added[name] == given.added[name] && removed[name] == given.removed[name] && PairsOf(trv, name) == []
      else Settled(given, name, PairsOf(trv, name))
  }

  ghost predicate State(trv: seq<Job>, added: Troves, removed: Troves, given: Given, todo: set<string>)
  {
    && Conserved(trv, added, removed, given)
    && forall name :: NameState(trv, added, removed, given, todo, name)
  }

  /** The entries `jobs` are for one name: they hold `olds` and `news` once each, and the matches `pairs`. */
  ghost predicate ForName(jobs: seq<Job>, name: string, pairs: Matches, olds: set<Info>, news: set<Info>)
  {
    && (forall j :: j in jobs ==> HasASide(j))
    && NewSides(jobs) == multiset(Tagged(name, news)) && OldSides(jobs) == multiset(Tagged(name, olds))
    && (forall n :: PairsOf(jobs, n) == if n == name then pairs else [])
  }

  /** One step of any of the loops: new entries for one name, and their troves taken out. */
  lemma Step(trv: seq<Job>, added: Troves, removed: Troves, given: Given, todo: set<string>,
             name: string, jobs: seq<Job>, pairs: Matches, olds: set<Info>, news: set<Info>,
             added': Troves, removed': Troves, todo': set<string>)
    requires State(trv, added, removed, given, todo)
    requires ForName(jobs, name, pairs, olds, news)
    requires TakenFrom(added, name, news, added') && TakenFrom(removed, name, olds, removed')
    requires todo' == todo || todo' == todo - {name}
    requires NameState(trv + jobs, added', removed', given, todo', name)
    ensures State(trv + jobs, added', removed', given, todo')
  {
    StepConserves(trv, added, removed, given, name, jobs, pairs, olds, news, added', removed');
    forall n
      ensures NameState(trv + jobs, added', removed', given, todo', n)
    {
      if n != name {
        assert NameState(trv, added, removed, given, todo, n);
        assert PairsOf(jobs, n) == [];
        StepElsewhere(trv, added, removed, given, todo, name, jobs, added', removed', todo', n);
      }
    }
  }

  lemma StepElsewhere(trv: seq<Job>, added: Troves, removed: Troves, given: Given, todo: set<string>,
                      name: string, jobs: seq<Job>, added': Troves, removed': Troves, todo': set<string>, other: string)
    requires NameState(trv, added, removed, given, todo, other)
    requires added' - {name} == added - {name} && removed' - {name} == removed - {name}
    requires PairsOf(jobs, other) == [] && other != name && (other in todo <==> other in todo')
    ensures NameState(trv + jobs, added', removed', given, todo', other)
  {
    PairsOfConcat(trv, jobs, other);
    assert PairsOf(trv, other) + [] == PairsOf(trv, other);
    SameElsewhere(added, added', name, other);
    SameElsewhere(removed, removed', name, other);
  }

  lemma StepConserves(trv: seq<Job>, added: Troves, removed: Troves, given: Given,
                      name: string, jobs: seq<Job>, pairs: Matches, olds: set<Info>, news: set<Info>,
                      added': Troves, removed': Troves)
    requires Conserved(trv, added, removed, given)
    requires ForName(jobs, name, pairs, olds, news)
    requires TakenFrom(added, name, news, added') && TakenFrom(removed, name, olds, removed')
    ensures Conserved(trv + jobs, added', removed', given)
  {
    NewSidesConcat(trv, jobs);
    OldSidesConcat(trv, jobs);
    TakeTroves(added, name, news, added');
    TakeTroves(removed, name, olds, removed');
    Regroup(NewSides(trv), NewSides(jobs), multiset(AllTroves(added')));
    Regroup(OldSides(trv), OldSides(jobs), multiset(AllTroves(removed')));
  }

  lemma Regroup<T>(done: multiset<T>, moved: multiset<T>, left: multiset<T>)
    ensures done + moved + left == done + (left + moved)
  {
  }

  /** A step that matches nothing keeps the state of its name, unless it is still to do. */
  lemma StepAlone(trv: seq<Job>, added: Troves, removed: Troves, given: Given, todo: set<string>,
                  name: string, jobs: seq<Job>, olds: set<Info>, news: set<Info>, added': Troves, removed': Troves)
    requires State(trv, added, removed, given, todo)
    requires ForName(jobs, name, [], olds, news)
    requires TakenFrom(added, name, news, added') && TakenFrom(removed, name, olds, removed')
    requires !(name in todo && name in added && name in removed)
    requires !(name in todo && name in added' && name in removed')
    ensures State(trv + jobs, added', removed', given, todo)
  {
    assert NameState(trv, added, removed, given, todo, name);
    PairsOfConcat(trv, jobs, name);
    assert PairsOf(trv, name) + [] == PairsOf(trv, name);
    Step(trv, added, removed, given, todo, name, jobs, [], olds, news, added', removed', todo);
  }

  lemma {:induction false} NextNew(jobs: seq<Job>, name: string, news: set<Info>, x: Info)
    requires ForName(jobs, name, [], {}, news) && x !in news
    ensures ForName(jobs + [Job(name, None, Some(x))], name, [], {}, news + {x})
  {
    var job := Job(name, None, Some(x));
    SidesOfOne(jobs, job);
    TagOne(name, news, x);
    assert (jobs + [job])[..|jobs|] == jobs;
  }

  lemma {:induction false} NextOld(jobs: seq<Job>, name: string, olds: set<Info>, x: Info)
    requires ForName(jobs, name, [], olds, {}) && x !in olds
    ensures ForName(jobs + [Job(name, Some(x), None)], name, [], olds + {x}, {})
  {
    var job := Job(name, Some(x), None);
    SidesOfOne(jobs, job);
    TagOne(name, olds, x);
    assert (jobs + [job])[..|jobs|] == jobs;
  }

  method ListNew(name: string, news: set<Info>) returns (jobs: seq<Job>)
    ensures ForName(jobs, name, [], {}, news)
  {
    jobs := [];
    var rest := news;
    ghost var done: set<Info> := {};
    while rest != {}
      invariant rest + done == news && rest !! done
      invariant ForName(jobs, name, [], {}, done)
      decreases |rest|
    {
      var x :| x in rest;
      NextNew(jobs, name, done, x);
      jobs := jobs + [Job(name, None, Some(x))];
      rest, done := rest - {x}, done + {x};
    }
    assert done == news;
  }

  method ListOld(name: string, olds: set<Info>) returns (jobs: seq<Job>)
    ensures ForName(jobs, name, [], olds, {})
  {
    jobs := [];
    var rest := olds;
    ghost var done: set<Info> := {};
    while rest != {}
      invariant rest + done == olds && rest !! done
      invariant ForName(jobs, name, [], done, {})
      decreases |rest|
    {
      var x :| x in rest;
      NextOld(jobs, name, done, x);
      jobs := jobs + [Job(name, Some(x), None)];
      rest, done := rest - {x}, done + {x};
    }
    assert done == olds;
  }

  lemma {:induction false} MatchedJobs(name: string, pairs: Matches, olds: set<Info>, news: set<Info>)
    requires Pairs(pairs, olds, news)
    ensures ForName(Jobs(name, pairs), name, pairs, Lefts(pairs), Rights(pairs))
  {
    JobsSides(name, pairs, olds, news);
    forall n
      ensures PairsOf(Jobs(name, pairs), n) == if n == name then pairs else []
    {
      JobsPairs(name, pairs, n);
    }
  }

  // ---------------------------------------------------------------- the phases

  /** One name of the first loop. */
  method Shortcut(trv: seq<Job>, addedDict: Troves, removedDict: Troves, name: string, ghost given: Given)
    returns (trvList: seq<Job>, added: Troves, removed: Troves)
    requires State(trv, addedDict, removedDict, given, given.added.Keys) && name in addedDict
    ensures State(trvList, added, removed, given, given.added.Keys)
    ensures added - {name} == addedDict - {name} && removed - {name} == removedDict - {name}
    ensures Several(added, removed, name)
  {
    trvList, added, removed := trv, addedDict, removedDict;
    if name !in removed {
      var jobs := ListNew(name, added[name]);
      StepAlone(trv, added, removed, given, given.added.Keys, name, jobs, {}, added[name], added - {name}, removed);
      trvList, added := trvList + jobs, added - {name};
    } else if |added[name]| == 1 && |removed[name]| == 1 {
      var n :| n in added[name];
      var o :| o in removed[name];
      OnlyMember(added[name], n);
      OnlyMember(removed[name], o);
      OneToOne(trv, added, removed, given, name, o, n);
      trvList := trvList + [Job(name, Some(o), Some(n))];
      added, removed := added - {name}, removed - {name};
    }
  }

  /** A name left on both sides stands for more than one trove on some side. */
  ghost predicate Several(added: Troves, removed: Troves, name: string)
  {
    name in added && name in removed ==> !OneEach(added[name], removed[name])
  }

  lemma OneJob(name: string, o: Info, n: Info)
    ensures ForName([Job(name, Some(o), Some(n))], name, [Pair(o, n)], {o}, {n})
  {
    var pairs := [Pair(o, n)];
    PairsAppend([], o, n, {o}, {n});
    assert [] + pairs == pairs;
    JobsOne(name, [], o, n);
    MatchedJobs(name, pairs, {o}, {n});
  }

  lemma OneSettled(trv: seq<Job>, given: Given, name: string, o: Info, n: Info)
    requires name in given.added && name in given.removed && given.added[name] == {n} && given.removed[name] == {o}
    requires PairsOf(trv, name) == []
    ensures Settled(given, name, PairsOf(trv + [Job(name, Some(o), Some(n))], name))
  {
    OneJob(name, o, n);
    PairsOfConcat(trv, [Job(name, Some(o), Some(n))], name);
    assert OnlyPair({n}, {o}, [Pair(o, n)]);
  }

  lemma {:induction false} OneToOne(trv: seq<Job>, added: Troves, removed: Troves, given: Given,
                 name: string, o: Info, n: Info)
    requires State(trv, added, removed, given, given.added.Keys)
    requires name in added && name in removed && added[name] == {n} && removed[name] == {o}
    ensures State(trv + [Job(name, Some(o), Some(n))], added - {name}, removed - {name}, given, given.added.Keys)
  {
    var jobs, pairs := [Job(name, Some(o), Some(n))], [Pair(o, n)];
    StillThere(trv, added, removed, given, name);
    OneJob(name, o, n);
    assert NameState(trv, added, removed, given, given.added.Keys, name);
    OneSettled(trv, given, name, o, n);
    Step(trv, added, removed, given, given.added.Keys, name, jobs, pairs, {o}, {n},
         added - {name}, removed - {name}, given.added.Keys);
  }

  /** Names that are only added, or stand for one trove on each side, need no matching. */
  method Shortcuts(addedDict: Troves, removedDict: Troves, ghost given: Given)
    returns (trvList: seq<Job>, added: Troves, removed: Troves)
    requires given.added == addedDict && given.removed == removedDict
    ensures State(trvList, added, removed, given, given.added.Keys)
    ensures forall name :: Several(added, removed, name)
  {
    trvList, added, removed := [], addedDict, removedDict;
    var names := addedDict.Keys;
    while names != {}
      invariant names <= added.Keys
      invariant State(trvList, added, removed, given, given.added.Keys)
      invariant forall name :: name !in names ==> Several(added, removed, name)
      decreases |names|
    {
      var name :| name in names;
      ghost var before, removedBefore := added, removed;
      trvList, added, removed := Shortcut(trvList, added, removed, name, given);
      names := names - {name};
      assert forall n :: n in names ==> n in before - {name};
      SeveralElsewhere(before, removedBefore, added, removed, name, names);
    }
  }

  lemma SeveralElsewhere(added: Troves, removed: Troves, added': Troves, removed': Troves, name: string, names: set<string>)
    requires added' - {name} == added - {name} && removed' - {name} == removed - {name}
    requires forall n :: n !in names + {name} ==> Several(added, removed, n)
    requires Several(added', removed', name)
    ensures forall n :: n !in names ==> Several(added', removed', n)
  {
    forall n | n !in names
      ensures Several(added', removed', n)
    {
      if n != name {
        SameElsewhere(added, added', name, n);
        SameElsewhere(removed, removed', name, n);
        assert Several(added, removed, n);
      }
    }
  }

  /** Names that are only removed. */
  method RemovedOnly(trv: seq<Job>, added: Troves, removedDict: Troves, ghost given: Given)
    returns (trvList: seq<Job>, removed: Troves)
    requires State(trv, added, removedDict, given, given.added.Keys)
    ensures State(trvList, added, removed, given, given.added.Keys)
    ensures forall name :: name in removed ==> name in removedDict && removed[name] == removedDict[name]
  {
    trvList, removed := trv, removedDict;
    var names := removedDict.Keys;
    while names != {}
      invariant names <= removed.Keys
      invariant State(trvList, added, removed, given, given.added.Keys)
      invariant forall name :: name in removed ==> name in removedDict && removed[name] == removedDict[name]
      decreases |names|
    {
      var name :| name in names;
      if name !in added {
        var jobs := ListOld(name, removed[name]);
        StepAlone(trvList, added, removed, given, given.added.Keys, name, jobs, removed[name], {}, added,
                  removed - {name});
        trvList, removed := trvList + jobs, removed - {name};
      }
      names := names - {name};
    }
  }

  /** The four passes over the troves of one name, in sets of their own. */
  method MatchSets(matcher: PackageMatcher, name: string, added: set<Info>, removed: set<Info>, overlaps: Overlaps)
    returns (error: bool, addedLeft: set<Info>, removedLeft: set<Info>, ghost pairs: Matches)
    requires matcher.scoreCache.Valid() && Symmetric(overlaps)
    modifies matcher, matcher.scoreCache
    ensures matcher.scoreCache.Valid()
    ensures NameOutcome(matcher.scoreCache.table, overlaps, added, removed, error, pairs)
    ensures !error ==> matcher.trvList == old(matcher.trvList) + Jobs(name, pairs)
    ensures !error ==> addedLeft == added - Rights(pairs) && removedLeft == removed - Lefts(pairs)
  {
    var addedSet := new InfoSet(added);
    var removedSet := new InfoSet(removed);
    matcher.addedDict, matcher.removedDict := map[name := addedSet], map[name := removedSet];
    error, pairs := matcher.MatchName(name, overlaps);
    addedLeft, removedLeft := addedSet.items, removedSet.items;
  }

  /** After the passes over a name, whichever way they end. */
  lemma NamePassed(trv: seq<Job>, added: Troves, removed: Troves, given: Given, todo: set<string>, name: string,
                   error: bool, pairs: Matches)
    requires State(trv, added, removed, given, todo) && Several(added, removed, name)
    requires name in todo && name in added && name in removed && added[name] != {} && removed[name] != {}
    requires NameOutcome(given.table, given.overlaps(name), added[name], removed[name], error, pairs)
    ensures error ==> NameStuck(given, name)
    ensures !error ==>
              State(trv + Jobs(name, pairs), added[name := added[name] - Rights(pairs)],
                    removed[name := removed[name] - Lefts(pairs)], given, todo - {name})
  {
    StillThere(trv, added, removed, given, name);
    assert name in given.added && name in given.removed;
    assert NameState(trv, added, removed, given, todo, name);
    if !error {
      NameMatched(trv, added, removed, given, todo, name, pairs);
    }
  }

  /** After the passes over a name got through. */
  lemma NameMatched(trv: seq<Job>, added: Troves, removed: Troves, given: Given, todo: set<string>,
                    name: string, pairs: Matches)
    requires State(trv, added, removed, given, todo)
    requires name in todo && name in added && name in removed && name in given.added && name in given.removed
    requires WellMatched(given.table, given.overlaps(name), added[name], removed[name], pairs)
    ensures State(trv + Jobs(name, pairs), added[name := added[name] - Rights(pairs)],
                  removed[name := removed[name] - Lefts(pairs)], given, todo - {name})
  {
    var added', removed' := added[name := added[name] - Rights(pairs)], removed[name := removed[name] - Lefts(pairs)];
    MatchedJobs(name, pairs, removed[name], added[name]);
    PairsCount(pairs, removed[name], added[name]);
    Shrunk(added, name, Rights(pairs));
    Shrunk(removed, name, Lefts(pairs));
    NameDone(trv, added, removed, given, todo, name, pairs, added', removed');
    Step(trv, added, removed, given, todo, name, Jobs(name, pairs), pairs, Lefts(pairs), Rights(pairs),
         added', removed', todo - {name});
  }

  lemma Shrunk(d: Troves, name: string, x: set<Info>)
    requires name in d && x <= d[name]
    ensures TakenFrom(d, name, x, d[name := d[name] - x])
  {
    assert d[name := d[name] - x] - {name} == d - {name};
  }

  lemma NameDone(trv: seq<Job>, added: Troves, removed: Troves, given: Given, todo: set<string>,
                 name: string, pairs: Matches, added': Troves, removed': Troves)
    requires NameState(trv, added, removed, given, todo, name)
    requires name in todo && name in added && name in removed && name in given.added && name in given.removed
    requires WellMatched(given.table, given.overlaps(name), added[name], removed[name], pairs)
    ensures NameState(trv + Jobs(name, pairs), added', removed', given, todo - {name}, name)
  {
    PairsOfConcat(trv, Jobs(name, pairs), name);
    JobsPairs(name, pairs, name);
    assert [] + pairs == pairs;
    SettledByPasses(given, name, pairs);
  }

  lemma NameSkipped(trv: seq<Job>, added: Troves, removed: Troves, given: Given, todo: set<string>,
                    name: string)
    requires State(trv, added, removed, given, todo)
    requires name !in added || name !in removed || added[name] == {} || removed[name] == {}
    ensures State(trv, added, removed, given, todo - {name})
  {
    forall n
      ensures NameState(trv, added, removed, given, todo - {name}, n)
    {
      assert NameState(trv, added, removed, given, todo, n);
      if n == name && name in given.added && name in given.removed && name in todo && name in added && name in removed {
        NothingToMatch(given.table, given.overlaps(name), added[name], removed[name]);
      }
    }
  }

  /** Which names are to do matters only for those that are still there. */
  lemma ToDo(trv: seq<Job>, added: Troves, removed: Troves, given: Given,
             todo: set<string>, todo': set<string>)
    requires State(trv, added, removed, given, todo)
    requires forall n :: n in added && n in given.added ==> (n in todo <==> n in todo')
    ensures State(trv, added, removed, given, todo')
  {
    forall n
      ensures NameState(trv, added, removed, given, todo', n)
    {
      assert NameState(trv, added, removed, given, todo, n);
    }
  }

  lemma OnlyThisName(d: Troves, name: string, x: set<Info>)
    requires name in d
    ensures d[name := x] - {name} == d - {name} && d[name := x].Keys == d.Keys
  {
  }

  /** One name of the matching loop. */
  method MatchOne(matcher: PackageMatcher, addedDict: Troves, removedDict: Troves, name: string,
                  overlaps: Overlaps, ghost given: Given, ghost todo: set<string>)
    returns (error: bool, added: Troves, removed: Troves)
    requires matcher.scoreCache.Valid() && Symmetric(overlaps)
    requires given.overlaps(name) == overlaps && given.table == matcher.scoreCache.table
    requires name in addedDict && name in todo && Several(addedDict, removedDict, name)
    requires State(matcher.trvList, addedDict, removedDict, given, todo)
    modifies matcher, matcher.scoreCache
    ensures matcher.scoreCache.Valid()
    ensures error ==> NameStuck(given, name)
    ensures !error ==> State(matcher.trvList, added, removed, given, todo - {name})
    ensures added - {name} == addedDict - {name} && removed - {name} == removedDict - {name}
    ensures added.Keys == addedDict.Keys
  {
    error, added, removed := false, addedDict, removedDict;
    if name !in removed || added[name] == {} || removed[name] == {} {
      NameSkipped(matcher.trvList, added, removed, given, todo, name);
      return;
    }
    ghost var trv := matcher.trvList;
    var addedLeft, removedLeft;
    ghost var pairs;
    error, addedLeft, removedLeft, pairs := MatchSets(matcher, name, added[name], removed[name], overlaps);
    NamePassed(trv, added, removed, given, todo, name, error, pairs);
    if !error {
      OnlyThisName(added, name, addedLeft);
      OnlyThisName(removed, name, removedLeft);
      added, removed := added[name := addedLeft], removed[name := removedLeft];
    }
  }

  /** The four passes over every name that has troves on both sides. */
  method MatchAll(trv: seq<Job>, addedDict: Troves, removedDict: Troves, table: MatchTable,
                  overlaps: string -> Overlaps, ghost given: Given)
    returns (error: bool, trvList: seq<Job>, added: Troves, removed: Troves)
    requires State(trv, addedDict, removedDict, given, given.added.Keys)
    requires given.table == table && given.overlaps == overlaps
    requires forall name :: Symmetric(overlaps(name))
    requires forall name :: Several(addedDict, removedDict, name)
    ensures error ==> exists name :: NameStuck(given, name)
    ensures !error ==> State(trvList, added, removed, given, {})
  {
    error, added, removed := false, addedDict, removedDict;
    var matcher := new PackageMatcher(table);
    matcher.trvList := trv;
    var names := added.Keys;
    ToDo(trv, added, removed, given, given.added.Keys, names);
    while names != {}
      invariant matcher.scoreCache.Valid() && fresh(matcher) && fresh(matcher.scoreCache)
      invariant names <= added.Keys
      invariant State(matcher.trvList, added, removed, given, names)
      invariant forall name :: name in names ==> Several(added, removed, name)
      decreases |names|
    {
      var name :| name in names;
      ghost var before, removedBefore := added, removed;
      error, added, removed := MatchOne(matcher, added, removed, name, overlaps(name), given, names);
      if error {
        return true, [], added, removed;
      }
      names := names - {name};
      forall n | n in names
        ensures Several(added, removed, n)
      {
        SameElsewhere(before, added, name, n);
        SameElsewhere(removedBefore, removed, name, n);
        assert Several(before, removedBefore, n);
      }
    }
    trvList := matcher.trvList;
  }

  /** Removed troves no match was found for. */
  method RemovedLeft(trv: seq<Job>, added: Troves, removedDict: Troves, ghost given: Given)
    returns (trvList: seq<Job>)
    requires State(trv, added, removedDict, given, {})
    ensures State(trvList, added, map[], given, {})
  {
    trvList := trv;
    var removed := removedDict;
    while removed != map[]
      invariant State(trvList, added, removed, given, {})
      decreases |removed|
    {
      var name :| name in removed;
      var jobs := ListOld(name, removed[name]);
      StepAlone(trvList, added, removed, given, {}, name, jobs, removed[name], {}, added, removed - {name});
      trvList, removed := trvList + jobs, removed - {name};
    }
  }

  /** Added troves no match was found for. */
  method AddedLeft(trv: seq<Job>, addedDict: Troves, removed: Troves, ghost given: Given)
    returns (trvList: seq<Job>)
    requires State(trv, addedDict, removed, given, {})
    ensures State(trvList, map[], removed, given, {})
  {
    trvList := trv;
    var added := addedDict;
    while added != map[]
      invariant State(trvList, added, removed, given, {})
      decreases |added|
    {
      var name :| name in added;
      var jobs := ListNew(name, added[name]);
      StepAlone(trvList, added, removed, given, {}, name, jobs, {}, added[name], added - {name}, removed);
      trvList, added := trvList + jobs, added - {name};
    }
  }

  /** At the end nothing is left to do. */
  lemma AllSettled(trvList: seq<Job>, given: Given)
    requires State(trvList, map[], map[], given, {})
    ensures NewSides(trvList) == multiset(AllTroves(given.added)) && OldSides(trvList) == multiset(AllTroves(given.removed))
    ensures forall name :: Settled(given, name, PairsOf(trvList, name))
  {
    assert AllTroves(map[]) == {};
    forall name
      ensures Settled(given, name, PairsOf(trvList, name))
    {
      assert NameState(trvList, map[], map[], given, {}, name);
    }
  }

  lemma StillSeveral(added: Troves, removed: Troves, removed': Troves)
    requires forall name :: Several(added, removed, name)
    requires forall name :: name in removed' ==> name in removed && removed'[name] == removed[name]
    ensures forall name :: Several(added, removed', name)
  {
    forall name
      ensures Several(added, removed', name)
    {
      assert Several(added, removed, name);
    }
  }

  /** `_diffPackages`: every added trove is the new side and every removed trove the old side of
      exactly one entry, and the troves of each name are well matched. It can only raise over a name with two
      troves that the closeness measure cannot tell apart. */
  method DiffPackages(addedDict: Troves, removedDict: Troves, table: MatchTable,
                      overlaps: string -> Overlaps)
    returns (r: Result<seq<Job>>)
    requires forall name :: Symmetric(overlaps(name))
    ensures r.Ok? ==> NewSides(r.value) == multiset(AllTroves(addedDict))
    ensures r.Ok? ==> OldSides(r.value) == multiset(AllTroves(removedDict))
    ensures r.Ok? ==> forall j :: j in r.value ==> HasASide(j)
    ensures r.Ok? ==> forall name :: Settled(Given(addedDict, removedDict, table, overlaps), name, PairsOf(r.value, name))
    ensures r.Err? ==> exists name :: NameStuck(Given(addedDict, removedDict, table, overlaps), name)
  {
    ghost var given := Given(addedDict, removedDict, table, overlaps);
    var trvList, added, removed := Shortcuts(addedDict, removedDict, given);
    ghost var before := removed;
    trvList, removed := RemovedOnly(trvList, added, removed, given);
    if added != map[] || removed != map[] {
      StillSeveral(added, before, removed);
      var error;
      error, trvList, added, removed := MatchAll(trvList, added, removed, table, overlaps, given);
      if error {
        return Err("ZeroDivisionError");
      }
      trvList := RemovedLeft(trvList, added, removed, given);
      trvList := AddedLeft(trvList, added, map[], given);
    } else {
      ToDo(trvList, added, removed, given, given.added.Keys, {});
    }
    AllSettled(trvList, given);
    r := Ok(trvList);
  }

  // ---------------------------------------------------------------- what this means

  ghost predicate NewAt(trv: seq<Job>, name: string, x: Info, j: int)
  {
    0 <= j < |trv| && trv[j].name == name && trv[j].newInfo == Some(x)
  }

  /** Exactly one entry is for `(name, x)` on the new side. */
  ghost predicate NewOnce(trv: seq<Job>, name: string, x: Info)
  {
    exists k :: OnlyNew(trv, name, x, k)
  }

  ghost predicate OnlyNew(trv: seq<Job>, name: string, x: Info, k: int)
  {
    forall j :: NewAt(trv, name, x, j) <==> j == k
  }

  lemma {:induction false} NewAbsent(trv: seq<Job>, name: string, x: Info, j: int)
    requires (name, x) !in NewSides(trv)
    ensures !NewAt(trv, name, x, j)
  {
    if 0 <= j < |trv| - 1 {
      NewAbsent(trv[..|trv| - 1], name, x, j);
    }
  }

  lemma {:induction false} NewMultiplicity(trv: seq<Job>, name: string, x: Info)
    requires NewSides(trv)[(name, x)] == 1
    ensures NewOnce(trv, name, x)
  {
    var before, last := trv[..|trv| - 1], |trv| - 1;
    if NewAt(trv, name, x, last) {
      forall j
        ensures NewAt(trv, name, x, j) <==> j == last
      {
        NewAbsent(before, name, x, j);
        assert NewAt(before, name, x, j) <==> NewAt(trv, name, x, j) && j < last;
      }
      assert OnlyNew(trv, name, x, last);
    } else {
      NewMultiplicity(before, name, x);
      var k :| OnlyNew(before, name, x, k);
      forall j
        ensures NewAt(trv, name, x, j) <==> j == k
      {
        assert NewAt(before, name, x, j) <==> j == k;
        assert NewAt(before, name, x, j) <==> NewAt(trv, name, x, j) && j < last;
      }
      assert OnlyNew(trv, name, x, k);
    }
  }

  ghost predicate OldAt(trv: seq<Job>, name: string, x: Info, j: int)
  {
    0 <= j < |trv| && trv[j].name == name && trv[j].oldInfo == Some(x)
  }

  /** Exactly one entry is for `(name, x)` on the old side. */
  ghost predicate OldOnce(trv: seq<Job>, name: string, x: Info)
  {
    exists k :: OnlyOld(trv, name, x, k)
  }

  ghost predicate OnlyOld(trv: seq<Job>, name: string, x: Info, k: int)
  {
    forall j :: OldAt(trv, name, x, j) <==> j == k
  }

  lemma {:induction false} OldAbsent(trv: seq<Job>, name: string, x: Info, j: int)
    requires (name, x) !in OldSides(trv)
    ensures !OldAt(trv, name, x, j)
  {
    if 0 <= j < |trv| - 1 {
      OldAbsent(trv[..|trv| - 1], name, x, j);
    }
  }

  lemma {:induction false} OldMultiplicity(trv: seq<Job>, name: string, x: Info)
    requires OldSides(trv)[(name, x)] == 1
    ensures OldOnce(trv, name, x)
  {
    var before, last := trv[..|trv| - 1], |trv| - 1;
    if OldAt(trv, name, x, last) {
      forall j
        ensures OldAt(trv, name, x, j) <==> j == last
      {
        OldAbsent(before, name, x, j);
        assert OldAt(before, name, x, j) <==> OldAt(trv, name, x, j) && j < last;
      }
      assert OnlyOld(trv, name, x, last);
    } else {
      OldMultiplicity(before, name, x);
      var k :| OnlyOld(before, name, x, k);
      forall j
        ensures OldAt(trv, name, x, j) <==> j == k
      {
        assert OldAt(before, name, x, j) <==> j == k;
        assert OldAt(before, name, x, j) <==> OldAt(trv, name, x, j) && j < last;
      }
      assert OnlyOld(trv, name, x, k);
    }
  }

  /** No trove is lost or used twice: exactly the troves given are in the result, each in exactly
      one entry on its side. */
  lemma NothingLost(trv: seq<Job>, added: Troves, removed: Troves, name: string, x: Info)
    requires NewSides(trv) == multiset(AllTroves(added)) && OldSides(trv) == multiset(AllTroves(removed))
    ensures x in TrovesOf(added, name) <==> NewOnce(trv, name, x)
    ensures x in TrovesOf(removed, name) <==> OldOnce(trv, name, x)
  {
    InTroves(added, name, x);
    InTroves(removed, name, x);
    if x in TrovesOf(added, name) {
      NewMultiplicity(trv, name, x);
    } else {
      forall k
        ensures !OnlyNew(trv, name, x, k)
      {
        NewAbsent(trv, name, x, k);
      }
    }
    if x in TrovesOf(removed, name) {
      OldMultiplicity(trv, name, x);
    } else {
      forall k
        ensures !OnlyOld(trv, name, x, k)
      {
        OldAbsent(trv, name, x, k);
      }
    }
  }

  // ---------------------------------------------------------------- the shortcut for one trove on each side

  /** What the shortcut says about itself, that the passes would give the same pair, holds exactly if the
      two troves share a label, differ in what the closeness measure collects, or overlap. */
  lemma ShortcutIsWhatPassesDo(table: MatchTable, overlaps: Overlaps, o: Info, n: Info, error: bool, pairs: Matches)
    requires Symmetric(overlaps) && (o != n ==> RowsOnce(overlaps))
    requires NameOutcome(table, overlaps, {n}, {o}, error, pairs)
    ensures !error <==>
              || SameLabel(o, n)
              || ItemSet(o.version) != ItemSet(n.version)
              || (n in overlaps && o in overlaps[n])
    ensures !error ==> pairs == [Pair(o, n)]
  {
    if error {
      var o', n' :| StuckOn(table, overlaps, false, {n}, {o}, o', n');
      assert o' in {o} && n' in {n};
      assert o != n;
      if n in overlaps && o in overlaps[n] {
        OverlapIsPartner(table, overlaps, o, n);
      }
    } else {
      WellMatchedOne(table, overlaps, o, n, pairs);
      assert MatchSound(table, overlaps, false, pairs, 0);
    }
  }

  /** And here it does not: a package on the label it came from by way of another, and one the other way
      round. The shortcut returns the pair, and the passes divide by zero. */
  lemma ShortcutHidesAnError(table: MatchTable, x: Label, y: Label, r: Revision, flavor: Flavor, error: bool,
                             pairs: Matches)
    requires x != y
    requires var o := Info([L(x), R(r), L(y), R(r), L(x), R(r)], flavor);
             var n := Info([L(y), R(r), L(x), R(r), L(y), R(r)], flavor);
             NameOutcome(table, map[], {n}, {o}, error, pairs)
    ensures error
  {
    var o := Info([L(x), R(r), L(y), R(r), L(x), R(r)], flavor);
    var n := Info([L(y), R(r), L(x), R(r), L(y), R(r)], flavor);
    RepeatedLabelsAreNotTold(x, y, r);
    ClosenessDefined(o.version, n.version);
    ShortcutIsWhatPassesDo(table, map[], o, n, error, pairs);
  }

  // ---------------------------------------------------------------- a run that raises

  /** Where the measure tells nothing apart and path hashes say nothing, the passes cannot get through. */
  lemma NothingSound(table: MatchTable, overlaps: Overlaps, added: set<Info>, removed: set<Info>, pairs: Matches)
    requires added != {} && removed != {}
    requires forall o, n :: o in removed && n in added ==>
               !ToldApartPair(o, n) && !(n in overlaps && o in overlaps[n])
    ensures !WellMatched(table, overlaps, added, removed, pairs)
  {
    if Pairs(pairs, removed, added) && pairs != [] {
      PairAt(pairs, removed, added, 0);
      assert !MatchSound(table, overlaps, false, pairs, 0);
    }
  }

  /** Such troves can be made: one version that goes back and forth between two labels, in two flavors, and one
      that does so the other way round. No result keeps what `DiffPackages` promises, so it raises. */
  lemma RunRaises(table: MatchTable, name: string, x: Label, y: Label, r: Revision, f: Flavor, g: Flavor, pairs: Matches)
    requires x != y && f != g
    ensures var a, b := [L(x), R(r), L(y), R(r), L(x), R(r)], [L(y), R(r), L(x), R(r), L(y), R(r)];
            var given := Given(map[name := {Info(b, f)}], map[name := {Info(a, f), Info(a, g)}], table, (n: string) => map[]);
            !Settled(given, name, pairs)
  {
    var a, b := [L(x), R(r), L(y), R(r), L(x), R(r)], [L(y), R(r), L(x), R(r), L(y), R(r)];
    RepeatedLabelsAreNotTold(x, y, r);
    ClosenessDefined(a, b);
    var added, removed := {Info(b, f)}, {Info(a, f), Info(a, g)};
    assert |removed| == 2;
    NothingSound(table, map[], added, removed, pairs);
  }
}
