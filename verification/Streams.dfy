/** Lazy stream collections: frozen bytes or thawed items, a relative diff, and the merge that replays it. */
module Streams {
  import opened Text
  import opened Framing
  import opened Sorting

  /** A stream of a collection, known by its type id and its own frozen bytes. */
  datatype Item = Item(typeId: nat, text: string)

  /** `streamDict[typeId](bytes).freeze()`: the bytes that stand for what was read. */
  type Canon = (nat, string) -> string

  // ---------------------------------------------------------------- entries as bytes

  /** What "!BSH" and "!BH" hold: a type id below 256 and fewer than 65536 bytes. */
  predicate Packable(item: Item)
  {
    item.typeId < 256 && |item.text| < 65536
  }

  predicate AllPackable(l: seq<Item>)
  {
    forall i :: 0 <= i < |l| ==> Packable(l[i])
  }

  function PackItem(item: Item): string
    requires Packable(item)
  {
    [item.typeId as char] + HString(item.text)
  }

  function PackAll(l: seq<Item>): string
    requires AllPackable(l)
  {
    if l == [] then "" else PackItem(l[0]) + PackAll(l[1..])
  }

  /** An entry is the type, the length of the text with its high byte first, and the text. */
  lemma ItemBytes(item: Item)
    requires Packable(item)
    ensures var data := PackItem(item);
            && |data| == 3 + |item.text| && data[0] as nat == item.typeId
            && (data[1] as nat) * 0x100 + (data[2] as nat) == |item.text| && data[3..] == item.text
  {
    HStringBytes(item.text);
    assert PackItem(item)[1..] == HString(item.text);
    assert PackItem(item)[3..] == HString(item.text)[2..];
  }

  lemma {:induction false} PackAllConcat(a: seq<Item>, b: seq<Item>)
    requires AllPackable(a) && AllPackable(b)
    ensures PackAll(a + b) == PackAll(a) + PackAll(b)
  {
    if a == [] {
      assert a + b == b;
    } else {
      assert (a + b)[1..] == a[1..] + b;
      PackAllConcat(a[1..], b);
      assert PackItem(a[0]) + (PackAll(a[1..]) + PackAll(b)) == PackItem(a[0]) + PackAll(a[1..]) + PackAll(b);
    }
  }

  lemma PackAllOne(l: seq<Item>, item: Item)
    requires AllPackable(l) && Packable(item)
    ensures PackAll(l + [item]) == PackAll(l) + PackItem(item)
  {
    PackAllConcat(l, [item]);
    assert [item][1..] == [];
    assert PackItem(item) + "" == PackItem(item);
  }

  /** One entry and what follows it. A type that `streamDict` lacks is a KeyError. */
  function Unpack(types: set<nat>, canon: Canon, data: string): (r: Result<(Item, string)>)
    ensures r.Ok? ==> |r.value.1| < |data|
  {
    if data == "" then Err("struct.error")
    else
      var text := TakeH(data[1..]);
      var typeId := data[0] as nat;
      if text.Err? then Err(text.error)
      else if typeId !in types then Err("KeyError")
      else Ok((Item(typeId, canon(typeId, text.value.0)), text.value.1))
  }

  /** An item as one of its type's streams writes it. */
  predicate Fits(types: set<nat>, canon: Canon, item: Item)
  {
    item.typeId in types && canon(item.typeId, item.text) == item.text
  }

  lemma UnpackUndoesPack(types: set<nat>, canon: Canon, item: Item, rest: string)
    requires Packable(item) && Fits(types, canon, item)
    ensures Unpack(types, canon, PackItem(item) + rest) == Ok((item, rest))
  {
    var data := PackItem(item) + rest;
    assert data[0] == item.typeId as char;
    assert data[1..] == HString(item.text) + rest;
    TakeHString(item.text, rest);
  }

  // ---------------------------------------------------------------- the frozen form

  function ReadItems(types: set<nat>, canon: Canon, data: string, before: set<Item>): Result<set<Item>>
    decreases |data|
  {
    if data == "" then Ok(before)
    else
      var entry := Unpack(types, canon, data);
      if entry.Err? then Err(entry.error) else ReadItems(types, canon, entry.value.1, before + {entry.value.0})
  }

  lemma {:induction false} ReadUndoesPack(types: set<nat>, canon: Canon, l: seq<Item>, before: set<Item>)
    requires AllPackable(l) && forall i :: 0 <= i < |l| ==> Fits(types, canon, l[i])
    ensures ReadItems(types, canon, PackAll(l), before) == Ok(before + Members(l))
  {
    if l == [] {
      assert before + Members(l) == before;
    } else {
      UnpackUndoesPack(types, canon, l[0], PackAll(l[1..]));
      ReadUndoesPack(types, canon, l[1..], before + {l[0]});
      assert before + {l[0]} + Members(l[1..]) == before + Members(l);
    }
  }

  /** Type ids first, then the order of the streams of one type, which is their `__cmp__`. */
  function ItemOrder(less: Less<string>): Less<Item>
  {
    (a: Item, b: Item) => a.typeId < b.typeId || (a.typeId == b.typeId && less(a.text, b.text))
  }

  /** Types come in turn, and the streams of a type in their own order. */
  ghost predicate ByTypeAndText(less: Less<string>, l: seq<Item>)
  {
    forall i, j :: 0 <= i < j < |l| ==>
      l[i].typeId < l[j].typeId || (l[i].typeId == l[j].typeId && less(l[i].text, l[j].text))
  }

  lemma ItemOrderIs(less: Less<string>, l: seq<Item>)
    ensures Ascending(ItemOrder(less), l) <==> ByTypeAndText(less, l)
  {
  }

  lemma ItemOrderIsTotal(less: Less<string>)
    requires TotalOrder(less)
    ensures TotalOrder(ItemOrder(less))
  {
    var order := ItemOrder(less);
    forall a
      ensures !order(a, a)
    {
      assert !less(a.text, a.text);
    }
    forall a, b
      ensures a == b || order(a, b) || order(b, a)
    {
      assert a.text == b.text || less(a.text, b.text) || less(b.text, a.text);
    }
    forall a, b, c | order(a, b) && order(b, c)
      ensures order(a, c)
    {
      assert less(a.text, b.text) && less(b.text, c.text) ==> less(a.text, c.text);
    }
  }

  /** Two collections freeze to the same bytes exactly when they hold the same items. */
  lemma FreezeIsCanonical(types: set<nat>, canon: Canon, less: Less<Item>, a: seq<Item>, xs: set<Item>, b: seq<Item>, ys: set<Item>)
    requires TotalOrder(less) && SortedOf(less, a, xs) && SortedOf(less, b, ys)
    requires forall x :: x in xs || x in ys ==> Packable(x) && Fits(types, canon, x)
    ensures AllPackable(a) && AllPackable(b)
    ensures PackAll(a) == PackAll(b) <==> xs == ys
  {
    assert forall i :: 0 <= i < |a| ==> a[i] in xs;
    assert forall i :: 0 <= i < |b| ==> b[i] in ys;
    ReadUndoesPack(types, canon, a, {});
    ReadUndoesPack(types, canon, b, {});
    assert {} + Members(a) == xs && {} + Members(b) == ys;
    if xs == ys {
      SortedIsUnique(less, a, b, xs);
    }
  }

  // ---------------------------------------------------------------- the relative form

  /** How one entry and what follows it are read. */
  type Reader = string -> Result<(Item, string)>

  function ReaderFor(types: set<nat>, canon: Canon): Reader
  {
    data => Unpack(types, canon, data)
  }

  ghost predicate Reads(read: Reader, item: Item)
  {
    Packable(item) ==> forall rest :: read(PackItem(item) + rest) == Ok((item, rest))
  }

  lemma FittingItemsRead(types: set<nat>, canon: Canon, item: Item)
    requires Fits(types, canon, item)
    ensures Reads(ReaderFor(types, canon), item)
  {
    if Packable(item) {
      forall rest
        ensures ReaderFor(types, canon)(PackItem(item) + rest) == Ok((item, rest))
      {
        UnpackUndoesPack(types, canon, item, rest);
      }
    }
  }

  function Header(numRemoved: nat, numAdded: nat): string
    requires numRemoved < 65536 && numAdded < 65536
  {
    PackH(numRemoved) + PackH(numAdded)
  }

  /** One entry of `twm`: the first `numRemoved` are taken out, the others put in. */
  function Merge(items: set<Item>, item: Item, removing: bool): Result<set<Item>>
  {
    if !removing then Ok(items + {item})
    else if item in items then Ok(items - {item})
    else Err("KeyError")
  }

  /** The loop of `twm` from entry `x` on. */
  function MergeAll(read: Reader, items: set<Item>, data: string, x: nat, numRemoved: nat, total: nat)
    : Result<set<Item>>
    decreases total - x
  {
    if x >= total then Ok(items)
    else
      var entry := read(data);
      if entry.Err? then Err(entry.error)
      else
        var next := Merge(items, entry.value.0, x < numRemoved);
        if next.Err? then next else MergeAll(read, next.value, entry.value.1, x + 1, numRemoved, total)
  }

  function MergeDiff(read: Reader, items: set<Item>, diff: string): Result<set<Item>>
  {
    if |diff| < 4 then Err("struct.error")
    else
      var numRemoved, numAdded := UnpackH(diff), UnpackH(diff[2..]);
      MergeAll(read, items, diff[4..], 0, numRemoved, numRemoved + numAdded)
  }

  ghost predicate Lists(l: seq<Item>, items: set<Item>)
  {
    NoneTwice(l) && forall x :: x in l <==> x in items
  }

  /** The bytes of a diff: removals in some order, then additions in some order. */
  ghost predicate IsDiff(diff: string, us: set<Item>, them: set<Item>)
  {
    exists removed, added :: HasDiff(diff, us, them, removed, added)
  }

  ghost predicate HasDiff(diff: string, us: set<Item>, them: set<Item>, removed: seq<Item>, added: seq<Item>)
  {
    && Lists(removed, them - us) && Lists(added, us - them)
    && |removed| < 65536 && |added| < 65536 && AllPackable(removed) && AllPackable(added)
    && diff == Header(|removed|, |added|) + PackAll(removed + added)
  }

  /** One entry of the loop. */
  lemma MergeStep(read: Reader, items: set<Item>, item: Item, rest: string, x: nat,
                  numRemoved: nat, total: nat)
    requires Packable(item) && Reads(read, item) && x < total
    ensures var next := Merge(items, item, x < numRemoved);
            MergeAll(read, items, PackItem(item) + rest, x, numRemoved, total)
            == if next.Err? then next else MergeAll(read, next.value, rest, x + 1, numRemoved, total)
  {
    assert read(PackItem(item) + rest) == Ok((item, rest));
  }

  lemma {:induction false} RemovalsMerge(read: Reader, items: set<Item>, l: seq<Item>, rest: string, x: nat,
                                         numRemoved: nat, total: nat)
    requires AllPackable(l) && NoneTwice(l) && x + |l| == numRemoved <= total
    requires forall i :: 0 <= i < |l| ==> Reads(read, l[i]) && l[i] in items
    ensures MergeAll(read, items, PackAll(l) + rest, x, numRemoved, total)
         == MergeAll(read, items - Members(l), rest, numRemoved, numRemoved, total)
    decreases |l|
  {
    if l == [] {
      assert items - Members(l) == items && "" + rest == rest;
    } else {
      var next := PackAll(l[1..]) + rest;
      assert PackItem(l[0]) + PackAll(l[1..]) + rest == PackItem(l[0]) + next;
      MergeStep(read, items, l[0], next, x, numRemoved, total);
      assert forall i :: 0 <= i < |l[1..]| ==> l[1..][i] == l[i + 1];
      RemovalsMerge(read, items - {l[0]}, l[1..], rest, x + 1, numRemoved, total);
      MembersFirst(l);
      assert items - {l[0]} - Members(l[1..]) == items - Members(l);
    }
  }

  ghost function Members(l: seq<Item>): set<Item>
  {
    set y | y in l
  }

  lemma MembersFirst(l: seq<Item>)
    requires l != []
    ensures Members(l) == {l[0]} + Members(l[1..])
  {
    assert l == [l[0]] + l[1..];
  }

  lemma {:induction false} AdditionsMerge(read: Reader, items: set<Item>, l: seq<Item>, x: nat,
                                          numRemoved: nat, total: nat)
    requires AllPackable(l) && numRemoved <= x && x + |l| == total
    requires forall i :: 0 <= i < |l| ==> Reads(read, l[i])
    ensures MergeAll(read, items, PackAll(l), x, numRemoved, total) == Ok(items + Members(l))
    decreases |l|
  {
    if l == [] {
      assert items + Members(l) == items;
    } else {
      MergeStep(read, items, l[0], PackAll(l[1..]), x, numRemoved, total);
      AdditionsMerge(read, items + {l[0]}, l[1..], x + 1, numRemoved, total);
      MembersFirst(l);
      assert items + {l[0]} + Members(l[1..]) == items + Members(l);
    }
  }

  lemma {:induction false} RemovalsFail(read: Reader, items: set<Item>, l: seq<Item>, rest: string, x: nat,
                                        numRemoved: nat, total: nat)
    requires AllPackable(l) && NoneTwice(l) && x + |l| == numRemoved <= total && !(Members(l) <= items)
    requires forall i :: 0 <= i < |l| ==> Reads(read, l[i])
    ensures MergeAll(read, items, PackAll(l) + rest, x, numRemoved, total) == Err("KeyError")
    decreases |l|
  {
    var next := PackAll(l[1..]) + rest;
    assert PackItem(l[0]) + PackAll(l[1..]) + rest == PackItem(l[0]) + next;
    MergeStep(read, items, l[0], next, x, numRemoved, total);
    if l[0] in items {
      MembersFirst(l);
      assert forall i :: 0 <= i < |l[1..]| ==> l[1..][i] == l[i + 1];
      RemovalsFail(read, items - {l[0]}, l[1..], rest, x + 1, numRemoved, total);
    }
  }

  /** Any list of removals and additions can be merged exactly if all that is to be removed is there; then the one is
      taken out and the other put in. */
  lemma MergesExactly(read: Reader, items: set<Item>, removed: seq<Item>, added: seq<Item>)
    requires AllPackable(removed) && AllPackable(added) && |removed| < 65536 && |added| < 65536 && NoneTwice(removed)
    requires (forall x :: x in removed ==> Reads(read, x)) && (forall x :: x in added ==> Reads(read, x))
    ensures MergeDiff(read, items, Header(|removed|, |added|) + PackAll(removed + added))
         == if Members(removed) <= items then Ok(items - Members(removed) + Members(added)) else Err("KeyError")
  {
    var r, a := |removed|, |added|;
    PackAllConcat(removed, added);
    HeaderMerged(read, items, r, a, PackAll(removed + added));
    EntriesMergeExactly(read, items, removed, added);
  }

  lemma HeaderMerged(read: Reader, items: set<Item>, r: nat, a: nat, rest: string)
    requires r < 65536 && a < 65536
    ensures MergeDiff(read, items, Header(r, a) + rest) == MergeAll(read, items, rest, 0, r, r + a)
  {
    HeaderRead(r, a, rest);
  }

  lemma AllRead(read: Reader, l: seq<Item>)
    requires forall x :: x in l ==> Reads(read, x)
    ensures forall i :: 0 <= i < |l| ==> Reads(read, l[i])
  {
  }

  lemma EntriesMergeExactly(read: Reader, items: set<Item>, removed: seq<Item>, added: seq<Item>)
    requires AllPackable(removed) && AllPackable(added) && NoneTwice(removed)
    requires (forall x :: x in removed ==> Reads(read, x)) && (forall x :: x in added ==> Reads(read, x))
    ensures MergeAll(read, items, PackAll(removed) + PackAll(added), 0, |removed|, |removed| + |added|)
         == if Members(removed) <= items then Ok(items - Members(removed) + Members(added)) else Err("KeyError")
  {
    var r, n := |removed|, |removed| + |added|;
    AllRead(read, removed);
    AllRead(read, added);
    if Members(removed) <= items {
      EntriesMerge(read, items, removed, added);
    } else {
      RemovalsFail(read, items, removed, PackAll(added), 0, r, n);
    }
  }

  lemma EntriesMerge(read: Reader, items: set<Item>, removed: seq<Item>, added: seq<Item>)
    requires AllPackable(removed) && AllPackable(added) && NoneTwice(removed) && Members(removed) <= items
    requires forall i :: 0 <= i < |removed| ==> Reads(read, removed[i])
    requires forall i :: 0 <= i < |added| ==> Reads(read, added[i])
    ensures MergeAll(read, items, PackAll(removed) + PackAll(added), 0, |removed|, |removed| + |added|)
         == Ok(items - Members(removed) + Members(added))
  {
    var r, n := |removed|, |removed| + |added|;
    AllThere(removed, items);
    RemovalsMerge(read, items, removed, PackAll(added), 0, r, n);
    AdditionsMerge(read, items - Members(removed), added, r, r, n);
  }

  lemma AllThere(l: seq<Item>, items: set<Item>)
    requires Members(l) <= items
    ensures forall i :: 0 <= i < |l| ==> l[i] in items
  {
    assert forall i :: 0 <= i < |l| ==> l[i] in Members(l);
  }

  /** The header counts the removals first, each count with its high byte first. */
  lemma HeaderBytes(r: nat, a: nat)
    requires r < 65536 && a < 65536
    ensures var data := Header(r, a);
            && |data| == 4 && (data[0] as nat) * 0x100 + (data[1] as nat) == r
            && (data[2] as nat) * 0x100 + (data[3] as nat) == a
  {
  }

  lemma HeaderRead(r: nat, a: nat, rest: string)
    requires r < 65536 && a < 65536
    ensures var diff := Header(r, a) + rest;
            |diff| >= 4 && UnpackH(diff) == r && UnpackH(diff[2..]) == a && diff[4..] == rest
  {
    var diff := Header(r, a) + rest;
    assert diff == PackH(r) + (PackH(a) + rest);
    HRoundTrip(r, PackH(a) + rest);
    assert diff[2..] == PackH(a) + rest;
    HRoundTrip(a, rest);
  }

  /** Merging a diff into what it was made against gives what it was made from. */
  lemma MergeUndoesDiff(read: Reader, us: set<Item>, them: set<Item>, diff: string)
    requires IsDiff(diff, us, them)
    requires forall x :: x in us || x in them ==> Reads(read, x)
    ensures MergeDiff(read, them, diff) == Ok(us)
  {
    var removed, added :| HasDiff(diff, us, them, removed, added);
    MembersFit(read, us, them, removed, added);
    assert Members(removed) == them - us && Members(added) == us - them;
    MergesExactly(read, them, removed, added);
    assert them - Members(removed) + Members(added) == us;
  }

  lemma MembersFit(read: Reader, us: set<Item>, them: set<Item>, removed: seq<Item>, added: seq<Item>)
    requires Lists(removed, them - us) && Lists(added, us - them)
    requires forall x :: x in us || x in them ==> Reads(read, x)
    ensures (forall x :: x in removed ==> Reads(read, x)) && (forall x :: x in added ==> Reads(read, x))
  {
  }
}
