/** `Trove.diff` and its replay: the change set between two troves, applied to the old one, gives
    the new one, also after a trip through bytes. */
module TroveDiff {
  import opened Text
  import opened FileDiff
  import opened FileLists
  import opened TroveSets
  import Versions

  // ---------------------------------------------------------------- included troves

  datatype Key = Key(name: string, version: Versions.Version, flavor: Flavor)

  /** Included troves and whether they are installed by default. */
  type TroveMap = map<Key, bool>

  function KeyOf(name: string, c: Change): Key
  {
    Key(name, c.version, c.flavor)
  }

  /** The one change a trove set diff holds for a key, if any. */
  function ChangeFor(ours: TroveMap, theirs: TroveMap, key: Key): Option<Change>
  {
    if key in ours && key in theirs then
      if ours[key] != theirs[key] then Some(Update(key.version, key.flavor, ours[key])) else None
    else if key in ours then Some(Add(key.version, key.flavor, ours[key]))
    else if key in theirs then Some(Remove(key.version, key.flavor))
    else None
  }

  ghost function Times(d: map<string, seq<Change>>, name: string, c: Change): nat
  {
    if name in d then multiset(d[name])[c] else 0
  }

  /** `d` lists each change from `theirs` to `ours` once and nothing else, in any order. */
  ghost predicate IsTroveDiff(d: map<string, seq<Change>>, ours: TroveMap, theirs: TroveMap)
  {
    && (forall name :: name in d ==> d[name] != [])
    && (forall name, c :: ListedRightly(d, ours, theirs, name, c))
  }

  ghost predicate ListedRightly(d: map<string, seq<Change>>, ours: TroveMap, theirs: TroveMap, name: string, c: Change)
  {
    Times(d, name, c) == if ChangeFor(ours, theirs, KeyOf(name, c)) == Some(c) then 1 else 0
  }

  lemma OrderDoesNotMatter(a: map<string, seq<Change>>, b: map<string, seq<Change>>, ours: TroveMap, theirs: TroveMap)
    requires SameUpToOrder(a, b) && IsTroveDiff(b, ours, theirs)
    ensures IsTroveDiff(a, ours, theirs)
  {
    forall name, c
      ensures ListedRightly(a, ours, theirs, name, c)
    {
      assert ListedRightly(b, ours, theirs, name, c);
    }
    forall name | name in a
      ensures a[name] != []
    {
      assert |multiset(a[name])| == |multiset(b[name])|;
    }
  }

  /** The change `c` is what it takes to get from `theirs` to `ours` for its trove. */
  ghost predicate Needed(ours: TroveMap, theirs: TroveMap, name: string, c: Change)
  {
    var key := Key(name, c.version, c.flavor);
    match c
    case Add(_, _, byDefault) => key in ours && ours[key] == byDefault && key !in theirs
    case Remove(_, _) => key !in ours && key in theirs
    case Update(_, _, byDefault) => key in ours && ours[key] == byDefault && key in theirs && theirs[key] != byDefault
    case Unknown(_, _, _, _) => false
  }

  ghost predicate ListedIfNeeded(d: map<string, seq<Change>>, ours: TroveMap, theirs: TroveMap, name: string, c: Change)
  {
    Times(d, name, c) == if Needed(ours, theirs, name, c) then 1 else 0
  }

  ghost predicate ListsNeeded(d: map<string, seq<Change>>, ours: TroveMap, theirs: TroveMap)
  {
    forall name, c :: ListedIfNeeded(d, ours, theirs, name, c)
  }

  /** A diff lists what is needed, each change once, and nothing else. */
  lemma DiffListsNeeded(d: map<string, seq<Change>>, ours: TroveMap, theirs: TroveMap, name: string, c: Change)
    requires IsTroveDiff(d, ours, theirs)
    ensures ListedIfNeeded(d, ours, theirs, name, c)
  {
    assert ListedRightly(d, ours, theirs, name, c);
    assert KeyOf(name, c) == Key(name, c.version, c.flavor);
  }

  lemma ChangeListed(d: map<string, seq<Change>>, ours: TroveMap, theirs: TroveMap, key: Key)
    requires IsTroveDiff(d, ours, theirs) && ChangeFor(ours, theirs, key).Some?
    ensures key.name in d
  {
    var c := ChangeFor(ours, theirs, key).value;
    assert KeyOf(key.name, c) == key;
    assert ListedRightly(d, ours, theirs, key.name, c);
  }

  /** So it is empty exactly between equal sets of troves. */
  lemma {:induction false} NothingListed(d: map<string, seq<Change>>, ours: TroveMap, theirs: TroveMap)
    requires IsTroveDiff(d, ours, theirs)
    ensures d == map[] <==> ours == theirs
  {
    if d == map[] {
      forall key
        ensures SameAt(ours, theirs, key)
      {
        if ChangeFor(ours, theirs, key).Some? {
          ChangeListed(d, ours, theirs, key);
        }
      }
      SameMaps(ours, theirs);
    } else {
      var name :| name in d;
      assert d[name] != [];
      var c := d[name][0];
      assert c in multiset(d[name]);
      DiffListsNeeded(d, ours, theirs, name, c);
      assert Needed(ours, theirs, name, c);
    }
  }

  /** `setdefault(name, []).append(c)` */
  function Appended(d: map<string, seq<Change>>, name: string, c: Change): map<string, seq<Change>>
  {
    d[name := (if name in d then d[name] else []) + [c]]
  }

  lemma AppendedTimes(d: map<string, seq<Change>>, name: string, c: Change, n: string, x: Change)
    ensures Times(Appended(d, name, c), n, x) == Times(d, n, x) + if (n, x) == (name, c) then 1 else 0
  {
  }

  /** The changes of the keys in `done` are listed. */
  ghost predicate ListedSoFar(d: map<string, seq<Change>>, ours: TroveMap, theirs: TroveMap, done: set<Key>)
  {
    && (forall name :: name in d ==> d[name] != [])
    && (forall name, c :: ListedAmong(d, ours, theirs, done, name, c))
  }

  ghost predicate ListedAmong(d: map<string, seq<Change>>, ours: TroveMap, theirs: TroveMap, done: set<Key>,
                              name: string, c: Change)
  {
    var key := KeyOf(name, c);
    Times(d, name, c) == if key in done && ChangeFor(ours, theirs, key) == Some(c) then 1 else 0
  }

  lemma ListOne(d: map<string, seq<Change>>, ours: TroveMap, theirs: TroveMap, done: set<Key>, key: Key)
    requires ListedSoFar(d, ours, theirs, done) && key !in done
    ensures var change := ChangeFor(ours, theirs, key);
            ListedSoFar(if change.Some? then Appended(d, key.name, change.value) else d, ours, theirs, done + {key})
  {
    var change := ChangeFor(ours, theirs, key);
    var d' := if change.Some? then Appended(d, key.name, change.value) else d;
    forall name, c
      ensures ListedAmong(d', ours, theirs, done + {key}, name, c)
    {
      assert ListedAmong(d, ours, theirs, done, name, c);
      if change.Some? {
        AppendedTimes(d, key.name, change.value, name, c);
      }
    }
  }

  /** One of the three loops of `troveSetDiff`: the changes for some keys. */
  method ListChanges(d0: map<string, seq<Change>>, ours: TroveMap, theirs: TroveMap, keys: set<Key>, ghost done0: set<Key>)
    returns (d: map<string, seq<Change>>)
    requires ListedSoFar(d0, ours, theirs, done0) && keys !! done0 && keys <= ours.Keys + theirs.Keys
    ensures ListedSoFar(d, ours, theirs, done0 + keys)
  {
    d := d0;
    var rest := keys;
    ghost var done := done0;
    while rest != {}
      invariant done + rest == done0 + keys && rest !! done && rest <= keys
      invariant ListedSoFar(d, ours, theirs, done)
      decreases |rest|
    {
      var key :| key in rest;
      ListOne(d, ours, theirs, done, key);
      if key in ours && key in theirs {
        if ours[key] != theirs[key] {
          d := Appended(d, key.name, Update(key.version, key.flavor, ours[key]));
        }
      } else if key in ours {
        d := Appended(d, key.name, Add(key.version, key.flavor, ours[key]));
      } else {
        d := Appended(d, key.name, Remove(key.version, key.flavor));
      }
      rest, done := rest - {key}, done + {key};
    }
    assert done == done0 + keys;
  }

  /** `troveSetDiff` */
  method TroveSetDiff(ours: TroveMap, theirs: TroveMap) returns (d: map<string, seq<Change>>)
    ensures IsTroveDiff(d, ours, theirs)
    ensures ListsNeeded(d, ours, theirs)
  {
    var sameSet := ours.Keys * theirs.Keys;
    var addedSet := ours.Keys - sameSet;
    var removedSet := theirs.Keys - sameSet;
    d := map[];
    assert ListedSoFar(d, ours, theirs, {});
    d := ListChanges(d, ours, theirs, sameSet, {});
    assert {} + sameSet == sameSet;
    d := ListChanges(d, ours, theirs, addedSet, sameSet);
    d := ListChanges(d, ours, theirs, removedSet, sameSet + addedSet);
    forall name, c
      ensures ListedRightly(d, ours, theirs, name, c)
    {
      assert ListedAmong(d, ours, theirs, sameSet + addedSet + removedSet, name, c);
    }
    forall name, c
      ensures ListedIfNeeded(d, ours, theirs, name, c)
    {
      DiffListsNeeded(d, ours, theirs, name, c);
    }
  }

  // ---------------------------------------------------------------- merging trove changes

  /** `addTrove`, `delTrove`, the '~' branch and the assertion for other signs, on one dictionary. */
  function ApplyChange(m: TroveMap, name: string, c: Change, redundantOkay: bool): Result<TroveMap>
  {
    var key := KeyOf(name, c);
    match c
    case Add(_, _, byDefault) => if !redundantOkay && key in m then Err("TroveError") else Ok(m[key := byDefault])
    case Remove(_, _) => if key in m then Ok(m - {key}) else if redundantOkay then Ok(m) else Err("TroveError")
    case Update(_, _, byDefault) => Ok(m[key := byDefault])
    case Unknown(_, _, _, _) => Err("AssertionError")
  }

  type Order = seq<(string, Change)>

  /** Changes in the order in which they are met; the first error ends it. */
  function ApplyAll(m: TroveMap, order: Order, redundantOkay: bool): Result<TroveMap>
  {
    if order == [] then Ok(m)
    else
      var before := ApplyAll(m, order[..|order| - 1], redundantOkay);
      if before.Err? then before
      else ApplyChange(before.value, order[|order| - 1].0, order[|order| - 1].1, redundantOkay)
  }

  /** A change of a known sign can be made, unless redundant ones are errors and it is one. */
  ghost predicate Applies(m: TroveMap, name: string, c: Change, redundantOkay: bool)
  {
    && !c.Unknown?
    && (redundantOkay || ((c.Add? ==> KeyOf(name, c) !in m) && (c.Remove? ==> KeyOf(name, c) in m)))
  }

  ghost predicate MadeIn(m: TroveMap, name: string, c: Change)
  {
    var key := KeyOf(name, c);
    match c
    case Add(_, _, byDefault) => key in m && m[key] == byDefault
    case Remove(_, _) => key !in m
    case Update(_, _, byDefault) => key in m && m[key] == byDefault
    case Unknown(_, _, _, _) => false
  }

  ghost predicate KeysOnce(order: Order)
  {
    forall i, j :: 0 <= i < j < |order| ==> KeyOf(order[i].0, order[i].1) != KeyOf(order[j].0, order[j].1)
  }

  ghost predicate AppliesAt(m: TroveMap, order: Order, redundantOkay: bool, i: int)
  {
    0 <= i < |order| ==> Applies(m, order[i].0, order[i].1, redundantOkay)
  }

  ghost predicate MadeAt(m: TroveMap, order: Order, i: int)
  {
    0 <= i < |order| ==> MadeIn(m, order[i].0, order[i].1)
  }

  /** Changes to different troves go through, in any order, exactly if each can be made to the troves that were there
      at first. Then each is made, and all other troves stay. */
  lemma {:induction false} AppliesExactly(m: TroveMap, order: Order, redundantOkay: bool)
    requires KeysOnce(order)
    ensures ApplyAll(m, order, redundantOkay).Ok? <==> forall i :: AppliesAt(m, order, redundantOkay, i)
    ensures ApplyAll(m, order, redundantOkay).Ok? ==>
              var r := ApplyAll(m, order, redundantOkay).value;
              && (forall i :: MadeAt(r, order, i))
              && (forall key :: key !in KeysOf(order) ==> SameAt(r, m, key))
    ensures ApplyAll(m, order, redundantOkay).Err? ==>
              exists i :: FirstToFail(m, order, redundantOkay, i, ApplyAll(m, order, redundantOkay).error)
  {
    if order == [] {
      assert forall i :: AppliesAt(m, order, redundantOkay, i);
    } else {
      var before, last := order[..|order| - 1], order[|order| - 1];
      AppliesExactly(m, before, redundantOkay);
      if ApplyAll(m, before, redundantOkay).Ok? {
        OneMoreApplies(m, before, last, ApplyAll(m, before, redundantOkay).value, redundantOkay);
        assert before + [last] == order;
      } else {
        var i :| FirstToFail(m, before, redundantOkay, i, ApplyAll(m, before, redundantOkay).error);
        StillFirst(m, order, redundantOkay, i, ApplyAll(m, before, redundantOkay).error);
      }
    }
  }

  /** Change `i` is the first that cannot be made, with this error. */
  ghost predicate FirstToFail(m: TroveMap, order: Order, redundantOkay: bool, i: int, error: string)
  {
    && 0 <= i < |order| && !AppliesAt(m, order, redundantOkay, i)
    && (forall k :: k < i ==> AppliesAt(m, order, redundantOkay, k))
    && error == if order[i].1.Unknown? then "AssertionError" else "TroveError"
  }

  lemma StillFirst(m: TroveMap, order: Order, redundantOkay: bool, i: int, error: string)
    requires order != [] && FirstToFail(m, order[..|order| - 1], redundantOkay, i, error)
    ensures FirstToFail(m, order, redundantOkay, i, error)
  {
    var before := order[..|order| - 1];
    assert before[i] == order[i];
    forall k | k < i
      ensures AppliesAt(m, order, redundantOkay, k)
    {
      assert AppliesAt(m, before, redundantOkay, k);
    }
  }

  lemma KeysOfLast(before: Order, last: (string, Change))
    ensures KeysOf(before + [last]) == KeysOf(before) + {KeyOf(last.0, last.1)}
  {
    var order := before + [last];
    assert forall i :: 0 <= i < |before| ==> before[i] == order[i];
    assert KeyOf(order[|before|].0, order[|before|].1) == KeyOf(last.0, last.1);
  }

  lemma OneMoreApplies(m: TroveMap, before: Order, last: (string, Change), mid: TroveMap, redundantOkay: bool)
    requires KeysOnce(before + [last])
    requires forall i :: AppliesAt(m, before, redundantOkay, i)
    requires forall i :: MadeAt(mid, before, i)
    requires forall key :: key !in KeysOf(before) ==> SameAt(mid, m, key)
    ensures var r := ApplyChange(mid, last.0, last.1, redundantOkay);
            && (r.Ok? <==> forall i :: AppliesAt(m, before + [last], redundantOkay, i))
            && (r.Ok? ==> forall i :: MadeAt(r.value, before + [last], i))
            && (r.Ok? ==> forall key :: key !in KeysOf(before + [last]) ==> SameAt(r.value, m, key))
            && (r.Err? ==> FirstToFail(m, before + [last], redundantOkay, |before|, r.error))
  {
    var order, key := before + [last], KeyOf(last.0, last.1);
    KeysOfLast(before, last);
    assert order[|before|] == last;
    assert key !in KeysOf(before) by {
      assert forall i :: 0 <= i < |before| ==> before[i] == order[i];
    }
    assert SameAt(mid, m, key);
    var r := ApplyChange(mid, last.0, last.1, redundantOkay);
    assert r.Ok? <==> AppliesAt(m, order, redundantOkay, |before|);
    forall k | k < |before|
      ensures AppliesAt(m, order, redundantOkay, k)
    {
      assert AppliesAt(m, before, redundantOkay, k);
    }
    if r.Ok? {
      forall i
        ensures AppliesAt(m, order, redundantOkay, i) && MadeAt(r.value, order, i)
      {
        assert AppliesAt(m, before, redundantOkay, i) && MadeAt(mid, before, i);
      }
      forall other | other !in KeysOf(order)
        ensures SameAt(r.value, m, other)
      {
        assert SameAt(mid, m, other);
      }
    }
  }

  /** What is there when the keys in `done` are as in `ours` and the others as in `theirs`. */
  ghost function Mixed(ours: TroveMap, theirs: TroveMap, done: set<Key>): TroveMap
  {
    map key | key in ours.Keys + theirs.Keys && (if key in done then key in ours else key in theirs)
      :: if key in done then ours[key] else theirs[key]
  }

  ghost function KeysOf(order: Order): set<Key>
  {
    set i | 0 <= i < |order| :: KeyOf(order[i].0, order[i].1)
  }

  /** Only changes of the diff, none twice. */
  ghost predicate PartOfDiff(order: Order, ours: TroveMap, theirs: TroveMap)
  {
    && (forall i :: 0 <= i < |order| ==> ChangeFor(ours, theirs, KeyOf(order[i].0, order[i].1)) == Some(order[i].1))
    && (forall i, j :: 0 <= i < j < |order| ==> order[i] != order[j])
  }

  /** Any part of a diff, in any order, applies without an error. */
  lemma {:induction false} PartApplies(order: Order, ours: TroveMap, theirs: TroveMap)
    requires PartOfDiff(order, ours, theirs)
    ensures ApplyAll(theirs, order, false) == Ok(Mixed(ours, theirs, KeysOf(order)))
  {
    if order == [] {
      assert KeysOf(order) == {} && Mixed(ours, theirs, {}) == theirs;
    } else {
      var before, last := order[..|order| - 1], order[|order| - 1];
      PartApplies(before, ours, theirs);
      var key := KeyOf(last.0, last.1);
      assert KeysOf(order) == KeysOf(before) + {key} by {
        assert forall i :: 0 <= i < |before| ==> before[i] == order[i];
        assert KeyOf(order[|order| - 1].0, order[|order| - 1].1) == key;
      }
      forall i | 0 <= i < |before|
        ensures KeyOf(before[i].0, before[i].1) != key
      {
        assert order[i] != last && before[i] == order[i];
      }
      NextMixed(ours, theirs, KeysOf(before), last.0, last.1);
    }
  }

  lemma NextMixed(ours: TroveMap, theirs: TroveMap, done: set<Key>, name: string, c: Change)
    requires ChangeFor(ours, theirs, KeyOf(name, c)) == Some(c) && KeyOf(name, c) !in done
    ensures ApplyChange(Mixed(ours, theirs, done), name, c, false) == Ok(Mixed(ours, theirs, done + {KeyOf(name, c)}))
  {
    var key := KeyOf(name, c);
    var m, m' := Mixed(ours, theirs, done), Mixed(ours, theirs, done + {key});
    match c
    case Add(_, _, byDefault) => assert m' == m[key := byDefault];
    case Remove(_, _) => assert m' == m - {key};
    case Update(_, _, byDefault) => assert m' == m[key := byDefault];
  }

  /** The whole of a diff, in any order, leads from `theirs` to `ours`. */
  lemma DiffApplies(order: Order, ours: TroveMap, theirs: TroveMap)
    requires PartOfDiff(order, ours, theirs)
    requires forall name, c :: ChangeFor(ours, theirs, KeyOf(name, c)) == Some(c) ==> (name, c) in order
    ensures ApplyAll(theirs, order, false) == Ok(ours)
  {
    PartApplies(order, ours, theirs);
    var done := KeysOf(order);
    forall key
      ensures ChangeFor(ours, theirs, key).Some? ==> key in done
    {
      if ChangeFor(ours, theirs, key).Some? {
        assert KeyOf(key.name, ChangeFor(ours, theirs, key).value) == key;
        ChangedKeyDone(order, ours, theirs, key);
      }
    }
    AllMixed(ours, theirs, done);
  }

  lemma ChangedKeyDone(order: Order, ours: TroveMap, theirs: TroveMap, key: Key)
    requires ChangeFor(ours, theirs, key).Some? && (key.name, ChangeFor(ours, theirs, key).value) in order
    ensures key in KeysOf(order)
  {
    var change := ChangeFor(ours, theirs, key).value;
    assert KeyOf(key.name, change) == key;
    var i :| 0 <= i < |order| && order[i] == (key.name, change);
    assert KeyOf(order[i].0, order[i].1) in KeysOf(order);
  }

  lemma AllMixed(ours: TroveMap, theirs: TroveMap, done: set<Key>)
    requires forall key :: ChangeFor(ours, theirs, key).Some? ==> key in done
    ensures Mixed(ours, theirs, done) == ours
  {
    forall key | key !in done
      ensures key in ours <==> key in theirs
      ensures key in ours ==> ours[key] == theirs[key]
    {
      assert ChangeFor(ours, theirs, key).None?;
    }
  }

  /** `order` holds every change of `d` as often as `d` does; of the names in `rest` it holds none. */
  ghost predicate OrderOf(order: Order, d: map<string, seq<Change>>, rest: set<string>)
  {
    forall name, c :: OrderHolds(order, d, rest, name, c)
  }

  ghost predicate OrderHolds(order: Order, d: map<string, seq<Change>>, rest: set<string>, name: string, c: Change)
  {
    multiset(order)[(name, c)] == if name in rest then 0 else Times(d, name, c)
  }

  /** The same while the list of one name is worked through. */
  ghost predicate OrderWithin(order: Order, d: map<string, seq<Change>>, rest: set<string>, name: string, l: seq<Change>)
  {
    forall n, c :: OrderHoldsWithin(order, d, rest, name, l, n, c)
  }

  ghost predicate OrderHoldsWithin(order: Order, d: map<string, seq<Change>>, rest: set<string>,
                                   name: string, l: seq<Change>, n: string, c: Change)
  {
    multiset(order)[(n, c)] == if n == name then multiset(l)[c] else if n in rest then 0 else Times(d, n, c)
  }

  lemma StartName(order: Order, d: map<string, seq<Change>>, rest: set<string>, name: string)
    requires OrderOf(order, d, rest) && name in rest
    ensures OrderWithin(order, d, rest, name, [])
  {
    forall n, c
      ensures OrderHoldsWithin(order, d, rest, name, [], n, c)
    {
      assert OrderHolds(order, d, rest, n, c);
    }
  }

  lemma NextInName(order: Order, d: map<string, seq<Change>>, rest: set<string>, name: string, l: seq<Change>, x: Change)
    requires OrderWithin(order, d, rest, name, l)
    ensures OrderWithin(order + [(name, x)], d, rest, name, l + [x])
  {
    forall n, c
      ensures OrderHoldsWithin(order + [(name, x)], d, rest, name, l + [x], n, c)
    {
      assert OrderHoldsWithin(order, d, rest, name, l, n, c);
    }
  }

  lemma EndName(order: Order, d: map<string, seq<Change>>, rest: set<string>, name: string)
    requires name in d && OrderWithin(order, d, rest, name, d[name])
    ensures OrderOf(order, d, rest - {name})
  {
    forall n, c
      ensures OrderHolds(order, d, rest - {name}, n, c)
    {
      assert OrderHoldsWithin(order, d, rest, name, d[name], n, c);
    }
  }

  /** Where a merge got to: through all of `d`, or to a change that raises. */
  ghost predicate Merged(m: TroveMap, d: map<string, seq<Change>>, redundantOkay: bool, error: Option<string>,
                         order: Order, m': TroveMap)
  {
    if error.None? then OrderOf(order, d, {}) && ApplyAll(m, order, redundantOkay) == Ok(m')
    else
      && Within(order, d) && ApplyAll(m, order, redundantOkay) == Err(error.value)
      && order != [] && ApplyAll(m, order[..|order| - 1], redundantOkay) == Ok(m')
  }

  ghost predicate Within(order: Order, d: map<string, seq<Change>>)
  {
    forall name, c :: WithinAt(order, d, name, c)
  }

  ghost predicate WithinAt(order: Order, d: map<string, seq<Change>>, name: string, c: Change)
  {
    multiset(order)[(name, c)] <= Times(d, name, c)
  }

  lemma StoppedWithin(order: Order, d: map<string, seq<Change>>, rest: set<string>, name: string, i: nat)
    requires name in d && i < |d[name]| && OrderWithin(order, d, rest, name, d[name][..i + 1])
    ensures Within(order, d)
  {
    forall n, c
      ensures WithinAt(order, d, n, c)
    {
      assert OrderHoldsWithin(order, d, rest, name, d[name][..i + 1], n, c);
      assert d[name] == d[name][..i + 1] + d[name][i + 1..];
    }
  }

  lemma WithinDiff(order: Order, d: map<string, seq<Change>>, ours: TroveMap, theirs: TroveMap)
    requires IsTroveDiff(d, ours, theirs) && Within(order, d)
    ensures PartOfDiff(order, ours, theirs)
  {
    forall i | 0 <= i < |order|
      ensures ChangeFor(ours, theirs, KeyOf(order[i].0, order[i].1)) == Some(order[i].1)
    {
      var (name, c) := order[i];
      assert WithinAt(order, d, name, c) && ListedRightly(d, ours, theirs, name, c);
      assert order[i] in multiset(order);
    }
    forall i, j | 0 <= i < j < |order|
      ensures order[i] != order[j]
    {
      var (name, c) := order[i];
      assert WithinAt(order, d, name, c) && ListedRightly(d, ours, theirs, name, c);
      if order[i] == order[j] {
        RepeatCounts(order, i, j);
      }
    }
  }

  /** Merging a diff never raises and arrives at the troves it was made for. */
  lemma MergedDiff(theirs: TroveMap, d: map<string, seq<Change>>, error: Option<string>, order: Order, m': TroveMap,
                   ours: TroveMap)
    requires Merged(theirs, d, false, error, order, m') && IsTroveDiff(d, ours, theirs)
    ensures error.None? && m' == ours
  {
    if error.None? {
      forall name, c
        ensures WithinAt(order, d, name, c)
      {
        assert OrderHolds(order, d, {}, name, c);
      }
      forall name, c | ChangeFor(ours, theirs, KeyOf(name, c)) == Some(c)
        ensures (name, c) in order
      {
        assert OrderHolds(order, d, {}, name, c) && ListedRightly(d, ours, theirs, name, c);
        assert (name, c) in multiset(order);
      }
      WithinDiff(order, d, ours, theirs);
      DiffApplies(order, ours, theirs);
    } else {
      WithinDiff(order, d, ours, theirs);
      PartApplies(order, ours, theirs);
    }
  }

  class Trove {
    var idMap: FileMap
    var strongTroves: TroveMap
    var weakTroves: TroveMap

    constructor ()
      ensures idMap == map[] && strongTroves == map[] && weakTroves == map[]
    {
      idMap, strongTroves, weakTroves := map[], map[], map[];
    }

    function Group(weakRef: bool): TroveMap
      reads this
    {
      if weakRef then weakTroves else strongTroves
    }

    /** `addTrove`; false is the TroveError for a duplicate. */
    method AddTrove(name: string, version: Versions.Version, flavor: Flavor, presentOkay: bool, byDefault: bool, weakRef: bool)
      returns (ok: bool)
      modifies this`strongTroves, this`weakTroves
      ensures Group(!weakRef) == old(Group(!weakRef))
      ensures ok <==> presentOkay || Key(name, version, flavor) !in old(Group(weakRef))
      ensures Group(weakRef) == if ok then old(Group(weakRef))[Key(name, version, flavor) := byDefault] else old(Group(weakRef))
    {
      var troveGroup := if weakRef then weakTroves else strongTroves;
      var key := Key(name, version, flavor);
      if !presentOkay && key in troveGroup {
        return false;
      }
      troveGroup := troveGroup[key := byDefault];
      if weakRef {
        weakTroves := troveGroup;
      } else {
        strongTroves := troveGroup;
      }
      ok := true;
    }

    /** `delTrove`; false is the TroveError for a missing trove. */
    method DelTrove(name: string, version: Versions.Version, flavor: Flavor, missingOkay: bool, weakRef: bool)
      returns (ok: bool)
      modifies this`strongTroves, this`weakTroves
      ensures Group(!weakRef) == old(Group(!weakRef))
      ensures ok <==> missingOkay || Key(name, version, flavor) in old(Group(weakRef))
      ensures Group(weakRef) == old(Group(weakRef)) - {Key(name, version, flavor)}
    {
      var key := Key(name, version, flavor);
      if weakRef && key in weakTroves {
        weakTroves := weakTroves - {key};
        ok := true;
      } else if !weakRef && key in strongTroves {
        strongTroves := strongTroves - {key};
        ok := true;
      } else {
        ok := missingOkay;
      }
    }

    /** One tuple of `mergeTroveListChanges`; None is success. */
    method MergeChange(name: string, c: Change, redundantOkay: bool, weakRef: bool) returns (error: Option<string>)
      modifies this`strongTroves, this`weakTroves
      ensures Group(!weakRef) == old(Group(!weakRef))
      ensures var r := ApplyChange(old(Group(weakRef)), name, c, redundantOkay);
              if error.None? then r == Ok(Group(weakRef))
              else r == Err(error.value) && Group(weakRef) == old(Group(weakRef))
    {
      var ok := true;
      match c {
        case Add(version, flavor, byDefault) =>
          ok := AddTrove(name, version, flavor, redundantOkay, byDefault, weakRef);
        case Remove(version, flavor) =>
          ok := DelTrove(name, version, flavor, redundantOkay, weakRef);
          if Key(name, version, flavor) !in old(Group(weakRef)) {
            assert old(Group(weakRef)) - {Key(name, version, flavor)} == old(Group(weakRef));
          }
        case Update(version, flavor, byDefault) =>
          var key := Key(name, version, flavor);
          if weakRef {
            weakTroves := weakTroves[key := byDefault];
          } else {
            strongTroves := strongTroves[key := byDefault];
          }
        case Unknown(_, _, _, _) =>
          return Some("AssertionError");
      }
      error := if ok then None else Some("TroveError");
    }

    /** One of the two lists of `mergeTroveListChanges`. */
    method MergeList(changeList: map<string, seq<Change>>, redundantOkay: bool, weakRef: bool)
      returns (error: Option<string>, ghost order: Order)
      modifies this`strongTroves, this`weakTroves
      ensures Group(!weakRef) == old(Group(!weakRef))
      ensures Merged(old(Group(weakRef)), changeList, redundantOkay, error, order, Group(weakRef))
    {
      error, order := None, [];
      var names := changeList.Keys;
      ghost var m0 := Group(weakRef);
      while names != {}
        invariant names <= changeList.Keys && Group(!weakRef) == old(Group(!weakRef)) && error.None?
        invariant OrderOf(order, changeList, names) && ApplyAll(m0, order, redundantOkay) == Ok(Group(weakRef))
        decreases |names|
      {
        var name :| name in names;
        var l := changeList[name];
        StartName(order, changeList, names, name);
        for i := 0 to |l|
          invariant Group(!weakRef) == old(Group(!weakRef)) && error.None?
          invariant OrderWithin(order, changeList, names, name, l[..i])
          invariant ApplyAll(m0, order, redundantOkay) == Ok(Group(weakRef))
        {
          NextInName(order, changeList, names, name, l[..i], l[i]);
          assert l[..i + 1] == l[..i] + [l[i]];
          ghost var before := order;
          order := order + [(name, l[i])];
          assert order[..|order| - 1] == before;
          error := MergeChange(name, l[i], redundantOkay, weakRef);
          if error.Some? {
            StoppedWithin(order, changeList, names, name, i);
            assert order[..|order| - 1] == before;
            assert ApplyAll(m0, before, redundantOkay) == Ok(Group(weakRef));
            return;
          }
        }
        assert l[..|l|] == l;
        EndName(order, changeList, names, name);
        names := names - {name};
      }
    }

    /** `mergeTroveListChanges` */
    method MergeTroveListChanges(strongChangeList: map<string, seq<Change>>, weakChangeList: map<string, seq<Change>>,
                                 redundantOkay: bool)
      returns (error: Option<string>, ghost strongOrder: Order, ghost weakOrder: Order)
      modifies this`strongTroves, this`weakTroves
      ensures
        || (&& Merged(old(strongTroves), strongChangeList, redundantOkay, None, strongOrder, strongTroves)
            && Merged(old(weakTroves), weakChangeList, redundantOkay, error, weakOrder, weakTroves))
        || (&& error.Some? && weakTroves == old(weakTroves)
            && Merged(old(strongTroves), strongChangeList, redundantOkay, error, strongOrder, strongTroves))
    {
      weakOrder := [];
      error, strongOrder := MergeList(strongChangeList, redundantOkay, false);
      if error.None? {
        error, weakOrder := MergeList(weakChangeList, redundantOkay, true);
      }
    }

    /** The assertion of `diff` about a trove that has files. */
    predicate DiffAllowed()
      reads this
    {
      idMap == map[] || strongTroves == map[] || weakTroves == map[]
    }

    /** `diff`, as far as files and included troves go. */
    method Diff(them: Trove?) returns (cs: ChangeSet)
      requires FilesOk(idMap) && DiffAllowed() && (them != null ==> them.DiffAllowed())
      ensures IsDiff(cs, idMap, strongTroves, weakTroves,
                     if them == null then map[] else them.idMap,
                     if them == null then map[] else them.strongTroves,
                     if them == null then map[] else them.weakTroves)
      ensures ToldExactly(cs.files, idMap, if them == null then map[] else them.idMap)
      ensures ListsNeeded(cs.strong, strongTroves, if them == null then map[] else them.strongTroves)
      ensures ListsNeeded(cs.weak, weakTroves, if them == null then map[] else them.weakTroves)
    {
      var files, strong, weak;
      if them == null {
        files := DiffFiles(idMap, map[]);
        strong := TroveSetDiff(strongTroves, map[]);
        weak := TroveSetDiff(weakTroves, map[]);
      } else {
        files := DiffFiles(idMap, them.idMap);
        strong := TroveSetDiff(strongTroves, them.strongTroves);
        weak := TroveSetDiff(weakTroves, them.weakTroves);
      }
      cs := ChangeSet(files, strong, weak);
    }

    /** The file loops of `applyChangeSet`; None is success. */
    method ApplyFiles(lists: FileDelta) returns (error: Option<string>)
      modifies this`idMap
      ensures error == if ApplyLists(old(idMap), lists).Ok? then None else Some(ApplyLists(old(idMap), lists).error)
      ensures error.None? ==> ApplyLists(old(idMap), lists) == Ok(idMap)
    {
      error := AddFiles(lists.newFiles);
      if error.None? {
        error := UpdateFiles(lists.changedFiles);
      }
      if error.None? {
        error := RemoveFiles(lists.oldFiles);
      }
    }

    method AddFiles(l: seq<FileChange>) returns (error: Option<string>)
      modifies this`idMap
      ensures var r := AddAll(old(idMap), l); if error.None? then r == Ok(idMap) else r == Err(error.value)
    {
      for i := 0 to |l|
        invariant AddAll(old(idMap), l[..i]) == Ok(idMap)
      {
        assert l[..i + 1][..i] == l[..i];
        var next := AddRawFile(idMap, l[i]);
        if next.Err? {
          AddedErr(old(idMap), l, i + 1);
          return Some(next.error);
        }
        idMap := next.value;
      }
      assert l[..|l|] == l;
      error := None;
    }

    method UpdateFiles(l: seq<FileChange>) returns (error: Option<string>)
      modifies this`idMap
      ensures var r := UpdateAll(old(idMap), l); if error.None? then r == Ok(idMap) else r == Err(error.value)
    {
      for i := 0 to |l|
        invariant UpdateAll(old(idMap), l[..i]) == Ok(idMap)
      {
        assert l[..i + 1][..i] == l[..i];
        var next := UpdateRawFile(idMap, l[i]);
        if next.Err? {
          UpdatedErr(old(idMap), l, i + 1);
          return Some(next.error);
        }
        idMap := next.value;
      }
      assert l[..|l|] == l;
      error := None;
    }

    method RemoveFiles(l: seq<string>) returns (error: Option<string>)
      modifies this`idMap
      ensures var r := RemoveAll(old(idMap), l); if error.None? then r == Ok(idMap) else r == Err(error.value)
    {
      for i := 0 to |l|
        invariant RemoveAll(old(idMap), l[..i]) == Ok(idMap)
      {
        assert l[..i + 1][..i] == l[..i];
        var next := RemoveFile(idMap, l[i]);
        if next.Err? {
          RemovedErr(old(idMap), l, i + 1);
          return Some(next.error);
        }
        idMap := next.value;
      }
      assert l[..|l|] == l;
      error := None;
    }

    /** `applyChangeSet` for a normal trove: files, then included troves, then the assertion that a trove
        with files and strong references has weak ones. */
    method ApplyChangeSet(cs: ChangeSet) returns (error: Option<string>, ghost strongOrder: Order, ghost weakOrder: Order)
      modifies this
      ensures Applied(cs, error, strongOrder, weakOrder, old(idMap), old(strongTroves), old(weakTroves),
                      idMap, strongTroves, weakTroves)
    {
      strongOrder, weakOrder := [], [];
      error := ApplyFiles(cs.files);
      if error.Some? {
        return;
      }
      error, strongOrder, weakOrder := MergeTroveListChanges(cs.strong, cs.weak, false);
      if error.None? && idMap != map[] && strongTroves != map[] && weakTroves == map[] {
        error := Some("AssertionError");
      }
    }
  }

  // ---------------------------------------------------------------- change sets

  datatype ChangeSet = ChangeSet(files: FileDelta, strong: map<string, seq<Change>>, weak: map<string, seq<Change>>)

  ghost predicate IsDiff(cs: ChangeSet, files: FileMap, strong: TroveMap, weak: TroveMap,
                         files0: FileMap, strong0: TroveMap, weak0: TroveMap)
  {
    IsFileDiff(cs.files, files, files0) && IsTroveDiff(cs.strong, strong, strong0) && IsTroveDiff(cs.weak, weak, weak0)
  }

  /** Nothing is said exactly between troves with the same included troves and files, but for moves to an
      empty path. */
  lemma NothingSaid(cs: ChangeSet, files: FileMap, strong: TroveMap, weak: TroveMap,
                    files0: FileMap, strong0: TroveMap, weak0: TroveMap)
    requires FilesOk(files) && IsDiff(cs, files, strong, weak, files0, strong0, weak0)
    ensures cs == ChangeSet(FileDelta([], [], []), map[], map[]) <==>
              && strong == strong0 && weak == weak0 && files.Keys == files0.Keys
              && forall p :: p in files ==> !Moved(files[p], files0[p]) && !Revised(files[p], files0[p])
  {
    DiffTells(cs.files, files, files0);
    NothingTold(cs.files, files, files0);
    NothingListed(cs.strong, strong, strong0);
    NothingListed(cs.weak, weak, weak0);
  }

  /** How `applyChangeSet` can end. */
  ghost predicate Applied(cs: ChangeSet, error: Option<string>, strongOrder: Order, weakOrder: Order,
                          files0: FileMap, strong0: TroveMap, weak0: TroveMap,
                          files: FileMap, strong: TroveMap, weak: TroveMap)
  {
    if ApplyLists(files0, cs.files).Err? then
      error == Some(ApplyLists(files0, cs.files).error) && strong == strong0 && weak == weak0
    else
      && ApplyLists(files0, cs.files) == Ok(files)
      && (|| (error.Some? && Merged(strong0, cs.strong, false, error, strongOrder, strong) && weak == weak0)
          || (&& Merged(strong0, cs.strong, false, None, strongOrder, strong)
              && (|| (error.Some? && Merged(weak0, cs.weak, false, error, weakOrder, weak))
                  || (&& Merged(weak0, cs.weak, false, None, weakOrder, weak)
                      && error == if files != map[] && strong != map[] && weak == map[]
                                  then Some("AssertionError") else None))))
  }

  lemma {:induction false} AddedErr(m: FileMap, l: seq<FileChange>, i: nat)
    requires i <= |l| && AddAll(m, l[..i]).Err?
    ensures AddAll(m, l) == AddAll(m, l[..i])
    decreases |l| - i
  {
    if i == |l| {
      assert l[..i] == l;
    } else {
      assert l[..i + 1][..i] == l[..i];
      AddedErr(m, l, i + 1);
    }
  }

  lemma {:induction false} UpdatedErr(m: FileMap, l: seq<FileChange>, i: nat)
    requires i <= |l| && UpdateAll(m, l[..i]).Err?
    ensures UpdateAll(m, l) == UpdateAll(m, l[..i])
    decreases |l| - i
  {
    if i == |l| {
      assert l[..i] == l;
    } else {
      assert l[..i + 1][..i] == l[..i];
      UpdatedErr(m, l, i + 1);
    }
  }

  lemma {:induction false} RemovedErr(m: FileMap, l: seq<string>, i: nat)
    requires i <= |l| && RemoveAll(m, l[..i]).Err?
    ensures RemoveAll(m, l) == RemoveAll(m, l[..i])
    decreases |l| - i
  {
    if i == |l| {
      assert l[..i] == l;
    } else {
      assert l[..i + 1][..i] == l[..i];
      RemovedErr(m, l, i + 1);
    }
  }

  /** The entries as they come out of the bytes. */
  function SentFiles(files: FileDelta, asBytes: bool): FileDelta
  {
    FileDelta(SentAll(files.newFiles, asBytes), SentAll(files.changedFiles, asBytes), files.oldFiles)
  }

  /** A diff applied to a copy of the old trove never raises, gives the included troves of the new one, and
      gives its files if and only if each of them is told in full. Only the last assertion can fail, and it
      fails exactly if the new trove has files and strong references and no weak ones. */
  lemma DiffRebuilds(cs: ChangeSet, cs': ChangeSet, asBytes: bool, error: Option<string>,
                     strongOrder: Order, weakOrder: Order,
                     files: FileMap, strong: TroveMap, weak: TroveMap,
                     files0: FileMap, strong0: TroveMap, weak0: TroveMap,
                     files1: FileMap, strong1: TroveMap, weak1: TroveMap)
    requires FilesOk(files) && FilesOk(files0) && IsDiff(cs, files, strong, weak, files0, strong0, weak0)
    requires cs'.files == SentFiles(cs.files, asBytes)
    requires SameUpToOrder(cs'.strong, cs.strong) && SameUpToOrder(cs'.weak, cs.weak)
    requires Applied(cs', error, strongOrder, weakOrder, files0, strong0, weak0, files1, strong1, weak1)
    ensures strong1 == strong && weak1 == weak
    ensures files1 == files <==> AllKept(files, files0, asBytes)
    ensures files1.Keys == files.Keys
    ensures error == if files != map[] && strong != map[] && weak == map[] then Some("AssertionError") else None
  {
    FilesReplayed(files, files0, cs.files, asBytes);
    OrderDoesNotMatter(cs'.strong, cs.strong, strong, strong0);
    OrderDoesNotMatter(cs'.weak, cs.weak, weak, weak0);
    if Merged(strong0, cs'.strong, false, error, strongOrder, strong1) {
      MergedDiff(strong0, cs'.strong, error, strongOrder, strong1, strong);
    }
    if Merged(weak0, cs'.weak, false, error, weakOrder, weak1) {
      MergedDiff(weak0, cs'.weak, error, weakOrder, weak1, weak);
    }
    MergedDiff(strong0, cs'.strong, None, strongOrder, strong1, strong);
    MergedDiff(weak0, cs'.weak, None, weakOrder, weak1, weak);
  }
}
