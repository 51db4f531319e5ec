/** `TroveRefsTrovesStream.freeze`: the bytes that signatures of a trove's references are made from. */
module TroveRefs {
  import opened Text
  import opened Framing
  import opened Sorting
  import opened TroveDiff
  import Versions
  import FileLists

  ghost predicate Printable(refs: TroveMap)
  {
    forall key :: key in refs ==> FileLists.Printable(key.version)
  }

  /** What 16-bit lengths allow. */
  predicate Short(key: Key)
  {
    && FileLists.Printable(key.version)
    && |key.name| + |Versions.Print(key.version)| + |key.flavor| + 7 < 65536
  }

  ghost predicate AllShort(refs: TroveMap)
  {
    forall key :: key in refs ==> Short(key)
  }

  /** A reference whose version is known by its string form. */
  predicate Fits(key: Key)
  {
    Short(key) && FileLists.Readable(key.version)
  }

  ghost predicate AllFit(refs: TroveMap)
  {
    forall key :: key in refs ==> Fits(key)
  }

  function Flag(byDefault: bool): string
  {
    if byDefault then "\U{0001}" else "\0"
  }

  function Body(name: string, version: string, flavor: string, byDefault: bool): string
    requires |name| < 65536 && |version| < 65536 && |flavor| < 65536
  {
    HString(name) + HString(version) + HString(flavor) + Flag(byDefault)
  }

  /** The entry of a reference; one that is too long has none. */
  function EntryText(key: Key, byDefault: bool): string
  {
    if Short(key) then HString(Body(key.name, Versions.Print(key.version), key.flavor, byDefault)) else ""
  }

  /** An entry holds its own size, then name, version and flavor, each behind its length, and one byte which is 1 for
      troves that are installed by default. */
  ghost predicate EntryHolds(data: string, name: string, v: string, flavor: string, byDefault: bool)
  {
    && |data| == 9 + |name| + |v| + |flavor|
    && (data[0] as nat) * 0x100 + (data[1] as nat) == |data| - 2
    && HStringAt(data, 2, name) && HStringAt(data, 4 + |name|, v) && HStringAt(data, 6 + |name| + |v|, flavor)
    && data[|data| - 1] as nat == if byDefault then 1 else 0
  }

  lemma EntryBytes(key: Key, byDefault: bool)
    requires Short(key)
    ensures EntryHolds(EntryText(key, byDefault), key.name, Versions.Print(key.version), key.flavor, byDefault)
  {
    SizedBody(key.name, Versions.Print(key.version), key.flavor, byDefault);
  }

  lemma SizedBody(name: string, v: string, flavor: string, byDefault: bool)
    requires |name| + |v| + |flavor| + 7 < 65536
    ensures EntryHolds(HString(Body(name, v, flavor, byDefault)), name, v, flavor, byDefault)
  {
    var body := Body(name, v, flavor, byDefault);
    HStringBytes(body);
    var size := HString(body)[..2];
    assert HString(body) == size + body;
    BodyBytes(size, name, v, flavor, Flag(byDefault));
  }

  lemma BodyBytes(size: string, name: string, v: string, flavor: string, flag: string)
    requires |size| == 2 && |flag| == 1 && |name| < 65536 && |v| < 65536 && |flavor| < 65536
    ensures var data := size + (HString(name) + HString(v) + HString(flavor) + flag);
            && |data| == 9 + |name| + |v| + |flavor| && HStringAt(data, 2, name) && HStringAt(data, 4 + |name|, v)
            && HStringAt(data, 6 + |name| + |v|, flavor) && data[|data| - 1] == flag[0]
  {
    ThreeHStrings(size, name, v, flavor, flag);
    Sized(size, HString(name), HString(v), HString(flavor), flag);
  }

  lemma Sized(size: string, a: string, b: string, c: string, rest: string)
    ensures size + (a + b + c + rest) == size + a + b + c + rest
  {
    Regroup(size, a, b + c + rest);
    Regrouped(size, a, b, c, rest);
    assert a + (b + c + rest) == a + b + c + rest;
  }

  /** One entry; what does not fit 16 bits is a struct.error. */
  method FreezeEntry(key: Key, byDefault: bool) returns (r: Result<string>)
    requires FileLists.Printable(key.version)
    ensures r.Ok? <==> Short(key)
    ensures r.Ok? ==> r.value == EntryText(key, byDefault)
  {
    var v := Versions.AsString(key.version, None);
    if |key.name| >= 65536 || |v| >= 65536 || |key.flavor| >= 65536 {
      return Err("struct.error");
    }
    var body := HString(key.name) + HString(v) + HString(key.flavor) + Flag(byDefault);
    if |body| >= 65536 {
      return Err("struct.error");
    }
    r := Ok(HString(body));
  }

  ghost function EntryTexts(refs: TroveMap, keys: set<Key>): set<string>
    requires keys <= refs.Keys
  {
    set key | key in keys :: EntryText(key, refs[key])
  }

  /** The entries of all references that are not in `rest`. */
  ghost predicate CollectedBut(refs: TroveMap, rest: set<Key>, entries: set<string>)
  {
    rest <= refs.Keys && entries == EntryTexts(refs, refs.Keys - rest)
  }

  lemma OneMoreEntry(refs: TroveMap, rest: set<Key>, entries: set<string>, key: Key)
    requires CollectedBut(refs, rest, entries) && key in rest
    ensures CollectedBut(refs, rest - {key}, entries + {EntryText(key, refs[key])})
  {
    assert refs.Keys - (rest - {key}) == refs.Keys - rest + {key};
  }

  lemma AllCollected(refs: TroveMap, entries: set<string>)
    requires CollectedBut(refs, {}, entries)
    ensures entries == EntryTexts(refs, refs.Keys)
  {
    assert refs.Keys - {} == refs.Keys;
  }

  method CollectEntries(refs: TroveMap) returns (r: Result<set<string>>)
    requires Printable(refs)
    ensures r.Ok? <==> AllShort(refs)
    ensures r.Ok? ==> r.value == EntryTexts(refs, refs.Keys)
  {
    var entries: set<string> := {};
    var rest := refs.Keys;
    while rest != {}
      invariant CollectedBut(refs, rest, entries)
      invariant forall key :: key in refs && key !in rest ==> Short(key)
      decreases |rest|
    {
      var key :| key in rest;
      var s := FreezeEntry(key, refs[key]);
      if s.Err? {
        return Err(s.error);
      }
      OneMoreEntry(refs, rest, entries, key);
      entries, rest := entries + {s.value}, rest - {key};
    }
    AllCollected(refs, entries);
    r := Ok(entries);
  }

  /** The entries of all references, sorted by their bytes. */
  ghost predicate IsFrozen(refs: TroveMap, data: string)
  {
    exists l :: SortedOf(ByText(), l, EntryTexts(refs, refs.Keys)) && data == Concat(l)
  }

  /** `freeze` */
  method Freeze(refs: TroveMap) returns (r: Result<string>)
    requires Printable(refs)
    ensures r.Ok? <==> AllShort(refs)
    ensures r.Ok? ==> IsFrozen(refs, r.value)
  {
    var entries := CollectEntries(refs);
    if entries.Err? {
      return Err(entries.error);
    }
    ByTextIsTotal();
    var sorted := Sort(entries.value, ByText());
    var data := JoinAll(sorted);
    r := Ok(data);
  }

  // ---------------------------------------------------------------- only one map gives these bytes

  lemma Unprefixed(s: string, a: string, t: string, b: string)
    requires |s| < 65536 && |t| < 65536 && HString(s) + a == HString(t) + b
    ensures s == t && a == b
  {
    TakeHString(s, a);
    TakeHString(t, b);
  }

  lemma BodyDetermined(n: string, v: string, f: string, x: bool, n': string, v': string, f': string, y: bool)
    requires |n| < 65536 && |v| < 65536 && |f| < 65536 && |n'| < 65536 && |v'| < 65536 && |f'| < 65536
    requires Body(n, v, f, x) == Body(n', v', f', y)
    ensures n == n' && v == v' && f == f' && x == y
  {
    var a, b := HString(f) + Flag(x), HString(f') + Flag(y);
    assert Body(n, v, f, x) == HString(n) + (HString(v) + a) && Body(n', v', f', y) == HString(n') + (HString(v') + b);
    Unprefixed(n, HString(v) + a, n', HString(v') + b);
    Unprefixed(v, a, v', b);
    Unprefixed(f, Flag(x), f', Flag(y));
  }

  /** The parts of an entry can be told apart. */
  lemma EntryDetermined(a: Key, x: bool, b: Key, y: bool)
    requires Fits(a) && Fits(b) && EntryText(a, x) == EntryText(b, y)
    ensures a == b && x == y
  {
    var av, bv := Versions.Print(a.version), Versions.Print(b.version);
    var s, t := Body(a.name, av, a.flavor, x), Body(b.name, bv, b.flavor, y);
    assert HString(s) + "" == HString(s) && HString(t) + "" == HString(t);
    Unprefixed(s, "", t, "");
    BodyDetermined(a.name, av, a.flavor, x, b.name, bv, b.flavor, y);
    FileLists.PrintedIsRead(a.version);
    FileLists.PrintedIsRead(b.version);
  }

  lemma FirstDetermined(x: string, a: string, y: string, b: string)
    requires Prefixed(x) && Prefixed(y) && x + a == y + b
    ensures x == y && a == b
  {
    var s :| |s| < 65536 && x == HString(s);
    var t :| |t| < 65536 && y == HString(t);
    Unprefixed(s, a, t, b);
  }

  lemma PrefixedNotEmpty(l: seq<string>)
    requires AllPrefixed(l)
    ensures l != [] ==> Concat(l) != ""
  {
    assert l != [] ==> Prefixed(l[0]);
  }

  /** Lists of length-prefixed strings can be told apart. */
  lemma {:induction false} EntriesDetermined(a: seq<string>, b: seq<string>)
    requires Concat(a) == Concat(b) && AllPrefixed(a) && AllPrefixed(b)
    ensures a == b
  {
    PrefixedNotEmpty(a);
    PrefixedNotEmpty(b);
    if a != [] {
      assert Prefixed(a[0]) && Prefixed(b[0]);
      FirstDetermined(a[0], Concat(a[1..]), b[0], Concat(b[1..]));
      EntriesDetermined(a[1..], b[1..]);
      assert a == [a[0]] + a[1..] && b == [b[0]] + b[1..];
    }
  }

  ghost predicate Prefixed(e: string)
  {
    exists s :: |s| < 65536 && e == HString(s)
  }

  ghost predicate AllPrefixed(l: seq<string>)
  {
    forall i :: 0 <= i < |l| ==> Prefixed(l[i])
  }

  lemma {:induction false} EntryTextsPrefixed(refs: TroveMap, less: Less<string>, l: seq<string>)
    requires AllFit(refs) && SortedOf(less, l, EntryTexts(refs, refs.Keys))
    ensures AllPrefixed(l)
  {
    forall i | 0 <= i < |l|
      ensures Prefixed(l[i])
    {
      assert l[i] in l;
      var key :| key in refs && l[i] == EntryText(key, refs[key]);
      var body := Body(key.name, Versions.Print(key.version), key.flavor, refs[key]);
      assert |body| < 65536 && l[i] == HString(body);
    }
  }

  lemma EntryTextsDetermine(a: TroveMap, b: TroveMap)
    requires AllFit(a) && AllFit(b) && EntryTexts(a, a.Keys) == EntryTexts(b, b.Keys)
    ensures forall key :: key in a ==> key in b && a[key] == b[key]
  {
    forall key | key in a
      ensures key in b && a[key] == b[key]
    {
      assert EntryText(key, a[key]) in EntryTexts(a, a.Keys);
      var other :| other in b && EntryText(key, a[key]) == EntryText(other, b[other]);
      EntryDetermined(key, a[key], other, b[other]);
    }
  }

  lemma SortedEntriesDetermine(a: TroveMap, la: seq<string>, b: TroveMap, lb: seq<string>, less: Less<string>)
    requires TotalOrder(less) && AllFit(a) && AllFit(b)
    requires SortedOf(less, la, EntryTexts(a, a.Keys)) && SortedOf(less, lb, EntryTexts(b, b.Keys))
    ensures Concat(la) == Concat(lb) <==> a == b
  {
    if a == b {
      SortedIsUnique(less, la, lb, EntryTexts(a, a.Keys));
    }
    if Concat(la) == Concat(lb) {
      EntryTextsPrefixed(a, less, la);
      EntryTextsPrefixed(b, less, lb);
      EntriesDetermined(la, lb);
      assert EntryTexts(a, a.Keys) == EntryTexts(b, b.Keys);
      EntryTextsDetermine(a, b);
      EntryTextsDetermine(b, a);
      assert a.Keys == b.Keys;
    }
  }

  /** Two sets of references whose versions can be read freeze to the same bytes exactly when they are the
      same: the order in which the dictionary is walked does not show, and nothing is lost. */
  lemma FreezeDetermines(a: TroveMap, dataA: string, b: TroveMap, dataB: string)
    requires AllFit(a) && AllFit(b)
    requires IsFrozen(a, dataA) && IsFrozen(b, dataB)
    ensures dataA == dataB <==> a == b
  {
    var la :| SortedOf(ByText(), la, EntryTexts(a, a.Keys)) && dataA == Concat(la);
    var lb :| SortedOf(ByText(), lb, EntryTexts(b, b.Keys)) && dataB == Concat(lb);
    ByTextIsTotal();
    SortedEntriesDetermine(a, la, b, lb, ByText());
  }
}
