/** The trove lists of a change set as bytes: `ReferencedTroveSet`, fields joined with NUL. */
module TroveSets {
  import opened Text
  import opened Versions
  import opened Sorting

  const NUL: char := '\0'

  /** The frozen form of a flavor; the empty flavor is "". */
  type Flavor = string

  /** Operations '+', '-' and '~', and those with any other sign, which are thawed but cannot be merged. The
      tuple of '-' has None for byDefault. */
  datatype Change =
    | Add(version: Version, flavor: Flavor, byDefault: bool)
    | Remove(version: Version, flavor: Flavor)
    | Update(version: Version, flavor: Flavor, byDefault: bool)
    | Unknown(sign: string, version: Version, flavor: Flavor, byDefault: bool)

  /** How the version in a change is written and how a version is read: `freeze()` and
      `ThawVersion()`. `StampedText` and `ThawedVersion` below are the ones the program uses. */
  type WriteVersion = Change -> string
  type ReadVersion = string -> Result<Version>

  datatype Entry = Entry(name: string, changes: seq<Change>)

  /** The dictionary with these entries; a repeated name starts over. */
  function DictOf(entries: seq<Entry>): map<string, seq<Change>>
  {
    if entries == [] then map[] else map[entries[0].name := entries[0].changes] + DictOf(entries[1..])
  }

  lemma {:induction false} DictOfAppend(entries: seq<Entry>, e: Entry)
    ensures DictOf(entries + [e]) == DictOf(entries)[e.name := e.changes]
  {
    if entries == [] {
      assert [e][1..] == [];
    } else {
      DictOfAppend(entries[1..], e);
      assert (entries + [e])[1..] == entries[1..] + [e];
    }
  }

  // ---------------------------------------------------------------- freezing

  predicate FlavorText(f: Flavor)
  {
    Free(f, NUL) && f != "-"
  }

  /** A change whose four fields can be read back. */
  predicate Wireable(write: WriteVersion, read: ReadVersion, c: Change)
  {
    read(write(c)) == Ok(c.version) && Free(write(c), NUL) && FlavorText(c.flavor) && SignOk(c)
  }

  predicate SignOk(c: Change)
  {
    c.Unknown? ==> c.sign !in {"", "+", "-", "~"} && Free(c.sign, NUL)
  }

  predicate AllWireable(write: WriteVersion, read: ReadVersion, changes: seq<Change>)
  {
    forall c :: c in changes ==> Wireable(write, read, c)
  }

  function Sign(c: Change): string
  {
    match c
    case Add(_, _, _) => "+"
    case Remove(_, _) => "-"
    case Update(_, _, _) => "~"
    case Unknown(sign, _, _, _) => sign
  }

  function Fields(write: WriteVersion, c: Change): seq<string>
  {
    [Sign(c), write(c), if c.flavor == "" then "-" else c.flavor,
     if !c.Remove? && c.byDefault then "1" else "0"]
  }

  function ChangeFields(write: WriteVersion, changes: seq<Change>): seq<string>
  {
    if changes == [] then [] else Fields(write, changes[0]) + ChangeFields(write, changes[1..])
  }

  /** Each change is four fields: its sign, its version, its flavor or a hyphen, and a digit that is 1 for troves that
      are installed by default. */
  lemma {:induction false} FourFields(write: WriteVersion, changes: seq<Change>, i: nat)
    requires i < |changes|
    ensures var l, c := ChangeFields(write, changes), changes[i];
            && |l| == 4 * |changes|
            && l[4 * i] == (match c case Add(_, _, _) => "+" case Remove(_, _) => "-" case Update(_, _, _) => "~"
                                    case Unknown(sign, _, _, _) => sign)
            && l[4 * i + 1] == write(c)
            && l[4 * i + 2] == (if c.flavor != "" then c.flavor else "-")
            && l[4 * i + 3] == (if c.Remove? || !c.byDefault then "0" else "1")
  {
    if i > 0 {
      FourFields(write, changes[1..], i - 1);
    } else if |changes| > 1 {
      FourFields(write, changes[1..], 0);
    } else {
      assert changes[1..] == [];
    }
  }

  function EntryFields(write: WriteVersion, e: Entry): seq<string>
  {
    [e.name] + ChangeFields(write, e.changes) + [""]
  }

  predicate EntriesOk(write: WriteVersion, read: ReadVersion, entries: seq<Entry>)
  {
    forall e :: e in entries ==> Free(e.name, NUL) && AllWireable(write, read, e.changes)
  }

  function SetFields(write: WriteVersion, entries: seq<Entry>): seq<string>
  {
    if entries == [] then [] else EntryFields(write, entries[0]) + SetFields(write, entries[1..])
  }

  lemma {:induction false} SetFieldsAppend(write: WriteVersion, entries: seq<Entry>, e: Entry)
    ensures SetFields(write, entries + [e]) == SetFields(write, entries) + EntryFields(write, e)
  {
    if entries == [] {
      assert [e][1..] == [];
    } else {
      assert (entries + [e])[1..] == entries[1..] + [e];
      SetFieldsAppend(write, entries[1..], e);
    }
  }

  /** Some order: `sorted`, by a comparison that is not part of this model. */
  method SortBy(l: seq<Change>, less: (Change, Change) -> bool) returns (s: seq<Change>)
    ensures multiset(s) == multiset(l)
  {
    s := [];
    for i := 0 to |l|
      invariant multiset(s) == multiset(l[..i])
    {
      var j := |s|;
      while j > 0 && less(l[i], s[j - 1])
        invariant 0 <= j <= |s|
      {
        j := j - 1;
      }
      InsertKeeps(s, j, l[i]);
      assert l[..i + 1] == l[..i] + [l[i]];
      s := s[..j] + [l[i]] + s[j..];
    }
    assert l[..|l|] == l;
  }

  lemma InsertKeeps<T>(s: seq<T>, j: nat, x: T)
    requires j <= |s|
    ensures multiset(s[..j] + [x] + s[j..]) == multiset(s) + multiset{x}
  {
    assert s == s[..j] + s[j..];
  }

  /** The same names with the same changes, in any order. */
  ghost predicate SameUpToOrder(a: map<string, seq<Change>>, b: map<string, seq<Change>>)
  {
    a.Keys == b.Keys && forall name :: name in a ==> multiset(a[name]) == multiset(b[name])
  }

  /** Each name once. */
  predicate NamesOnce(entries: seq<Entry>)
  {
    forall i, j :: 0 <= i < j < |entries| ==> entries[i].name != entries[j].name
  }

  ghost predicate NamesAscend(entries: seq<Entry>)
  {
    forall i, j :: 0 <= i < j < |entries| ==> TextLess(entries[i].name, entries[j].name)
  }

  /** The entries of the dictionary, ordered by name, with their changes in some order. */
  ghost predicate ListsSet(entries: seq<Entry>, d: map<string, seq<Change>>)
  {
    NamesOnce(entries) && NamesAscend(entries) && SameUpToOrder(DictOf(entries), d)
  }

  /** The dictionary as bytes. */
  ghost predicate IsFrozenSet(d: map<string, seq<Change>>, write: WriteVersion, data: string)
  {
    exists entries :: ListsSet(entries, d) && data == Join(SetFields(write, entries), NUL)
  }

  lemma {:induction false} DictOfNames(entries: seq<Entry>, name: string)
    ensures name in DictOf(entries) <==> exists i :: 0 <= i < |entries| && entries[i].name == name
  {
    if entries != [] {
      DictOfNames(entries[1..], name);
      assert forall i :: 0 <= i < |entries[1..]| ==> entries[1..][i] == entries[i + 1];
      if entries[0].name != name && exists i :: 0 <= i < |entries| && entries[i].name == name {
        var i :| 0 <= i < |entries| && entries[i].name == name;
        assert entries[1..][i - 1].name == name;
      }
    }
  }

  /** The names in `names` are still to be written. */
  ghost predicate WrittenBut(entries: seq<Entry>, d: map<string, seq<Change>>, names: set<string>)
  {
    && names <= d.Keys && DictOf(entries).Keys == d.Keys - names && NamesOnce(entries)
    && forall name :: name in DictOf(entries) ==> name in d && multiset(DictOf(entries)[name]) == multiset(d[name])
  }

  lemma WriteName(entries: seq<Entry>, d: map<string, seq<Change>>, names: set<string>, e: Entry)
    requires WrittenBut(entries, d, names) && e.name in names && multiset(e.changes) == multiset(d[e.name])
    ensures WrittenBut(entries + [e], d, names - {e.name})
  {
    DictOfNames(entries, e.name);
    DictOfAppend(entries, e);
    assert DictOf(entries + [e]).Keys == d.Keys - (names - {e.name});
  }

  /** The names still to be written are the last ones in order. */
  ghost predicate NamesLeft(entries: seq<Entry>, order: seq<string>, i: nat, names: set<string>)
    requires i <= |order|
  {
    && |entries| == i && (forall k :: 0 <= k < i ==> entries[k].name == order[k])
    && forall x :: x in names <==> x in order[i..]
  }

  lemma OneNameLess(entries: seq<Entry>, order: seq<string>, i: nat, names: set<string>, e: Entry)
    requires i < |order| && NamesLeft(entries, order, i, names) && Ascending(ByText(), order) && e.name == order[i]
    ensures e.name in names && NamesLeft(entries + [e], order, i + 1, names - {e.name})
  {
    ByTextIsTotal();
    assert order[i..][0] == order[i] && order[i..][1..] == order[i + 1..];
    forall x
      ensures x in order[i + 1..] <==> x in order[i..] && x != order[i]
    {
      TailOf(ByText(), order[i..], x);
    }
  }

  /** `ReferencedTroveSet.freeze` */
  method FreezeSet(d: map<string, seq<Change>>, write: WriteVersion, less: (Change, Change) -> bool) returns (data: string)
    ensures IsFrozenSet(d, write, data)
  {
    var l: seq<string> := [];
    ghost var entries: seq<Entry>, names := [], d.Keys;
    ByTextIsTotal();
    var order := Sort(d.Keys, ByText());
    for i := 0 to |order|
      invariant WrittenBut(entries, d, names) && l == SetFields(write, entries) && NamesLeft(entries, order, i, names)
    {
      var name := order[i];
      assert name in order[i..];
      var sorted := SortBy(d[name], less);
      var subL := FreezeChanges(write, sorted);
      ghost var e := Entry(name, sorted);
      OneNameLess(entries, order, i, names, e);
      WriteName(entries, d, names, e);
      SetFieldsAppend(write, entries, e);
      names, entries := names - {name}, entries + [e];
      l := l + ([name] + subL + [""]);
    }
    assert NamesAscend(entries);
    assert ListsSet(entries, d);
    data := Join(l, NUL);
  }

  method FreezeChanges(write: WriteVersion, changes: seq<Change>) returns (subL: seq<string>)
    ensures subL == ChangeFields(write, changes)
  {
    subL := [];
    for i := 0 to |changes|
      invariant subL + ChangeFields(write, changes[i..]) == ChangeFields(write, changes)
    {
      assert changes[i..][0] == changes[i] && changes[i..][1..] == changes[i + 1..];
      var fields := Fields(write, changes[i]);
      Regroup(subL, fields, ChangeFields(write, changes[i + 1..]));
      subL := subL + fields;
    }
    assert changes[|changes|..] == [];
    assert subL + [] == subL;
  }

  lemma Regroup<T>(a: seq<T>, b: seq<T>, c: seq<T>)
    ensures a + (b + c) == a + b + c
  {
  }

  // ---------------------------------------------------------------- thawing

  function ReadChange(read: ReadVersion, change: string, version: string, flavor: string, byDefFlag: string): Result<Change>
  {
    var v := read(version);
    var f := if flavor == "-" then "" else flavor;
    if v.Err? then Err(v.error)
    else if change == "-" then Ok(Remove(v.value, f))
    else if change == "+" then Ok(Add(v.value, f, byDefFlag != "0"))
    else if change == "~" then Ok(Update(v.value, f, byDefFlag != "0"))
    else Ok(Unknown(change, v.value, f, byDefFlag != "0"))
  }

  /** The changes of one name, and the fields after the empty one that ends them. */
  function ReadChanges(read: ReadVersion, l: seq<string>, before: seq<Change>): (r: Result<(seq<Change>, seq<string>)>)
    ensures r.Ok? ==> |r.value.1| < |l|
  {
    if l == [] then Err("IndexError")
    else if l[0] == "" then Ok((before, l[1..]))
    else if |l| < 4 then Err("ValueError")
    else
      var c := ReadChange(read, l[0], l[1], l[2], l[3]);
      if c.Err? then Err(c.error) else ReadChanges(read, l[4..], before + [c.value])
  }

  function ReadSet(read: ReadVersion, l: seq<string>, before: map<string, seq<Change>>): Result<map<string, seq<Change>>>
    decreases |l|
  {
    if l == [] then Ok(before)
    else
      var changes := ReadChanges(read, l[1..], []);
      if changes.Err? then Err(changes.error)
      else ReadSet(read, changes.value.1, before[l[0] := changes.value.0])
  }

  function ThawedSet(read: ReadVersion, data: string): Result<map<string, seq<Change>>>
  {
    if data == "" then Ok(map[]) else ReadSet(read, Split(data, NUL), map[])
  }

  lemma NextChange(read: ReadVersion, l: seq<string>, i: nat, before: seq<Change>, whole: Result<(seq<Change>, seq<string>)>)
    requires i + 4 <= |l| && l[i] != "" && whole == ReadChanges(read, l[i..], before)
    ensures var c := ReadChange(read, l[i], l[i + 1], l[i + 2], l[i + 3]);
            whole == if c.Err? then Err(c.error) else ReadChanges(read, l[i + 4..], before + [c.value])
  {
    var s := l[i..];
    assert s[0] == l[i] && s[1] == l[i + 1] && s[2] == l[i + 2] && s[3] == l[i + 3];
    assert s[4..] == l[i + 4..];
  }

  lemma LastChange(read: ReadVersion, l: seq<string>, i: nat, before: seq<Change>)
    requires i == |l| || (i < |l| && l[i] == "")
    ensures ReadChanges(read, l[i..], before) == if i == |l| then Err("IndexError") else Ok((before, l[i + 1..]))
  {
    if i < |l| {
      assert l[i..][0] == l[i] && l[i..][1..] == l[i + 1..];
    }
  }

  method ThawChanges(read: ReadVersion, l: seq<string>, i0: nat) returns (r: Result<(seq<Change>, nat)>)
    requires i0 <= |l|
    ensures r.Err? ==> ReadChanges(read, l[i0..], []) == Err(r.error)
    ensures r.Ok? ==> i0 <= r.value.1 < |l| && ReadChanges(read, l[i0..], []) == Ok((r.value.0, l[r.value.1 + 1..]))
  {
    var changes: seq<Change> := [];
    var i := i0;
    ghost var whole := ReadChanges(read, l[i0..], []);
    while i < |l| && l[i] != ""
      invariant i0 <= i <= |l|
      invariant whole == ReadChanges(read, l[i..], changes)
    {
      if i + 4 > |l| {
        return Err("ValueError");
      }
      var c := ReadChange(read, l[i], l[i + 1], l[i + 2], l[i + 3]);
      NextChange(read, l, i, changes, whole);
      if c.Err? {
        return Err(c.error);
      }
      changes := changes + [c.value];
      i := i + 4;
    }
    LastChange(read, l, i, changes);
    r := if i == |l| then Err("IndexError") else Ok((changes, i));
  }

  lemma NextName(read: ReadVersion, l: seq<string>, i: nat, before: map<string, seq<Change>>)
    requires i < |l|
    ensures var changes := ReadChanges(read, l[i + 1..], []);
            ReadSet(read, l[i..], before) == if changes.Err? then Err(changes.error)
                                       else ReadSet(read, changes.value.1, before[l[i] := changes.value.0])
  {
    assert l[i..][0] == l[i] && l[i..][1..] == l[i + 1..];
  }

  method ThawNames(read: ReadVersion, l: seq<string>) returns (r: Result<map<string, seq<Change>>>)
    ensures r == ReadSet(read, l, map[])
  {
    var d: map<string, seq<Change>> := map[];
    var i := 0;
    ghost var whole := ReadSet(read, l, map[]);
    assert l[0..] == l;
    while i < |l|
      invariant 0 <= i <= |l|
      invariant whole == ReadSet(read, l[i..], d)
    {
      var changes := ThawName(read, l, i, d, whole);
      if changes.Err? {
        return Err(changes.error);
      }
      d := d[l[i] := changes.value.0];
      i := changes.value.1 + 1;
    }
    r := Ok(d);
  }

  /** The changes of one name. */
  method ThawName(read: ReadVersion, l: seq<string>, i: nat, ghost d: map<string, seq<Change>>,
                  ghost whole: Result<map<string, seq<Change>>>)
    returns (changes: Result<(seq<Change>, nat)>)
    requires i < |l| && whole == ReadSet(read, l[i..], d)
    ensures changes.Err? ==> whole == Err(changes.error)
    ensures changes.Ok? ==>
              && i < changes.value.1 < |l|
              && whole == ReadSet(read, l[changes.value.1 + 1..], d[l[i] := changes.value.0])
  {
    NextName(read, l, i, d);
    changes := ThawChanges(read, l, i + 1);
  }

  /** `ReferencedTroveSet.thaw` */
  method ThawSet(read: ReadVersion, data: string) returns (r: Result<map<string, seq<Change>>>)
    ensures r == ThawedSet(read, data)
  {
    if data == "" {
      r := Ok(map[]);
    } else {
      r := ThawNames(read, Split(data, NUL));
    }
  }

  // ---------------------------------------------------------------- round trip

  lemma {:induction false} ChangesBack(write: WriteVersion, read: ReadVersion, changes: seq<Change>, rest: seq<string>, before: seq<Change>)
    requires AllWireable(write, read, changes)
    ensures ReadChanges(read, ChangeFields(write, changes) + [""] + rest, before) == Ok((before + changes, rest))
  {
    if changes == [] {
      assert ([] + [""] + rest)[1..] == rest && before + [] == before;
    } else {
      assert Wireable(write, read, changes[0]);
      var f, more := Fields(write, changes[0]), ChangeFields(write, changes[1..]);
      assert ChangeFields(write, changes) == f + more;
      FirstChange(read, f, more, rest, changes[0], before);
      ChangesBack(write, read, changes[1..], rest, before + [changes[0]]);
      assert before + [changes[0]] + changes[1..] == before + changes;
    }
  }

  lemma FirstChange(read: ReadVersion, f: seq<string>, more: seq<string>, rest: seq<string>, c: Change, before: seq<Change>)
    requires |f| == 4 && f[0] != "" && ReadChange(read, f[0], f[1], f[2], f[3]) == Ok(c)
    ensures ReadChanges(read, f + more + [""] + rest, before) == ReadChanges(read, more + [""] + rest, before + [c])
  {
    var l := f + more + [""] + rest;
    assert l[4..] == more + [""] + rest;
    assert l[0] == f[0] && l[1] == f[1] && l[2] == f[2] && l[3] == f[3];
  }

  lemma EntryBack(write: WriteVersion, read: ReadVersion, e: Entry, rest: seq<string>, before: map<string, seq<Change>>)
    requires AllWireable(write, read, e.changes)
    ensures ReadSet(read, EntryFields(write, e) + rest, before) == ReadSet(read, rest, before[e.name := e.changes])
  {
    var l := EntryFields(write, e) + rest;
    assert l[0] == e.name && l[1..] == ChangeFields(write, e.changes) + [""] + rest;
    ChangesBack(write, read, e.changes, rest, []);
    assert [] + e.changes == e.changes;
  }

  lemma {:induction false} EntriesBack(write: WriteVersion, read: ReadVersion, entries: seq<Entry>, before: map<string, seq<Change>>)
    requires EntriesOk(write, read, entries)
    ensures ReadSet(read, SetFields(write, entries), before) == Ok(before + DictOf(entries))
  {
    if entries == [] {
      assert before + map[] == before;
    } else {
      var e := entries[0];
      assert e in entries;
      assert forall x :: x in entries[1..] ==> x in entries;
      EntryBack(write, read, e, SetFields(write, entries[1..]), before);
      EntriesBack(write, read, entries[1..], before[e.name := e.changes]);
      MergeOne(before, e.name, e.changes, DictOf(entries[1..]));
    }
  }

  lemma MergeOne<K, V>(before: map<K, V>, k: K, v: V, rest: map<K, V>)
    ensures before[k := v] + rest == before + (map[k := v] + rest)
  {
  }

  lemma {:induction false} ChangeFieldsFree(write: WriteVersion, read: ReadVersion, changes: seq<Change>)
    requires AllWireable(write, read, changes)
    ensures AllFree(ChangeFields(write, changes), NUL)
  {
    if changes != [] {
      ChangeFieldsFree(write, read, changes[1..]);
      assert Wireable(write, read, changes[0]);
    }
  }

  lemma {:induction false} SetFieldsFree(write: WriteVersion, read: ReadVersion, entries: seq<Entry>)
    requires EntriesOk(write, read, entries)
    ensures AllFree(SetFields(write, entries), NUL)
    ensures entries != [] ==> |SetFields(write, entries)| >= 2
  {
    if entries != [] {
      assert entries[0] in entries;
      assert forall x :: x in entries[1..] ==> x in entries;
      var e, rest := entries[0], SetFields(write, entries[1..]);
      ChangeFieldsFree(write, read, e.changes);
      SetFieldsFree(write, read, entries[1..]);
      AllFreeEntry(e.name, ChangeFields(write, e.changes), rest);
    }
  }

  lemma AllFreeEntry(name: string, fields: seq<string>, rest: seq<string>)
    requires Free(name, NUL) && AllFree(fields, NUL) && AllFree(rest, NUL)
    ensures AllFree([name] + fields + [""] + rest, NUL)
  {
  }

  /** Thawing gives back what was frozen, whatever the order. */
  lemma ThawUndoesFreezeSet(write: WriteVersion, read: ReadVersion, entries: seq<Entry>)
    requires EntriesOk(write, read, entries)
    ensures ThawedSet(read, Join(SetFields(write, entries), NUL)) == Ok(DictOf(entries))
  {
    if entries != [] {
      var l := SetFields(write, entries);
      SetFieldsFree(write, read, entries);
      SplitJoin(l, NUL);
      assert Join(l, NUL) == l[0] + [NUL] + Join(l[1..], NUL);
      EntriesBack(write, read, entries, map[]);
      assert map[] + DictOf(entries) == DictOf(entries);
    }
  }

  ghost predicate ThawsTo(read: ReadVersion, data: string, d: map<string, seq<Change>>)
  {
    ThawedSet(read, data).Ok? && SameUpToOrder(ThawedSet(read, data).value, d)
  }

  /** Every name and change can be read back. */
  ghost predicate SetOk(d: map<string, seq<Change>>, write: WriteVersion, read: ReadVersion)
  {
    forall name :: name in d ==> Free(name, NUL) && AllWireable(write, read, d[name])
  }

  lemma {:induction false} DictOfEntry(entries: seq<Entry>, e: Entry)
    requires NamesOnce(entries) && e in entries
    ensures e.name in DictOf(entries) && DictOf(entries)[e.name] == e.changes
  {
    if e == entries[0] {
      forall i | 0 <= i < |entries[1..]|
        ensures entries[1..][i].name != e.name
      {
        assert entries[1..][i] == entries[i + 1];
      }
      DictOfNames(entries[1..], e.name);
    } else {
      assert entries == [entries[0]] + entries[1..];
      assert forall i :: 0 <= i < |entries[1..]| ==> entries[1..][i] == entries[i + 1];
      DictOfEntry(entries[1..], e);
    }
  }

  lemma ListedEntriesOk(d: map<string, seq<Change>>, write: WriteVersion, read: ReadVersion, entries: seq<Entry>)
    requires SetOk(d, write, read) && ListsSet(entries, d)
    ensures EntriesOk(write, read, entries)
  {
    forall e | e in entries
      ensures Free(e.name, NUL) && AllWireable(write, read, e.changes)
    {
      DictOfEntry(entries, e);
      OrderKeepsWireable(write, read, d[e.name], e.changes);
    }
  }

  lemma OrderKeepsWireable(write: WriteVersion, read: ReadVersion, l: seq<Change>, s: seq<Change>)
    requires AllWireable(write, read, l) && multiset(s) == multiset(l)
    ensures AllWireable(write, read, s)
  {
    forall c | c in s
      ensures Wireable(write, read, c)
    {
      assert c in multiset(s);
    }
  }

  lemma FrozenSetThaws(d: map<string, seq<Change>>, write: WriteVersion, read: ReadVersion, data: string)
    requires SetOk(d, write, read) && IsFrozenSet(d, write, data)
    ensures ThawsTo(read, data, d)
  {
    var entries :| ListsSet(entries, d) && data == Join(SetFields(write, entries), NUL);
    ListedEntriesOk(d, write, read, entries);
    ThawUndoesFreezeSet(write, read, entries);
  }

  // ---------------------------------------------------------------- frozen versions

  /** The frozen time stamps of the version in a change. */
  type StampsOf = Change -> seq<string>

  predicate Freezable(stamps: StampsOf, c: Change)
  {
    && Sequence(c.version) && PartsOk(c.version) && |stamps(c)| == RevisionCount(c.version)
  }

  function StampedText(stamps: StampsOf): WriteVersion
  {
    c => if Freezable(stamps, c) then Freeze(c.version, stamps(c)) else ""
  }

  function ThawedVersion(ver: string): Result<Version>
  {
    var v := Thaw(ver);
    if v.Err? then Err(v.error) else Ok(v.value.parts)
  }

  /** With versions written by `freeze()` and read by `ThawVersion()`, a change can be read back if
      its version can. */
  lemma FrozenVersionsAreWireable(stamps: StampsOf, c: Change)
    requires Freezable(stamps, c) && KindsAgree(c.version, None) && SerialsFit(c.version, true, 0)
    requires StampsOk(Some(stamps(c)))
    requires Free(Freeze(c.version, stamps(c)), NUL) && FlavorText(c.flavor) && SignOk(c)
    ensures Wireable(StampedText(stamps), ThawedVersion, c)
  {
    ThawUndoesFreeze(c.version, stamps(c));
  }
}
