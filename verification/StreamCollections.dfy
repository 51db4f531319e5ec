/** `StreamCollection`: frozen or thawed, and never both. */
module StreamCollections {
  import opened Text
  import opened Framing
  import opened Sorting
  import opened Streams

  /** What the streams of a class bring with them. */
  ghost predicate ClassOk(types: set<nat>, canon: Canon, less: Less<string>)
  {
    && (forall t :: t in types ==> t < 256)
    && (forall t, s :: CanonSettles(canon, t, s))
    && TotalOrder(less)
  }

  ghost predicate CanonSettles(canon: Canon, t: nat, s: string)
  {
    canon(t, canon(t, s)) == canon(t, s)
  }

  ghost predicate AllFit(types: set<nat>, canon: Canon, items: set<Item>)
  {
    forall x :: x in items ==> Fits(types, canon, x)
  }

  lemma EntryFits(types: set<nat>, canon: Canon, less: Less<string>, data: string)
    requires ClassOk(types, canon, less) && Unpack(types, canon, data).Ok?
    ensures Fits(types, canon, Unpack(types, canon, data).value.0)
  {
    assert CanonSettles(canon, data[0] as nat, TakeH(data[1..]).value.0);
  }

  lemma {:induction false} ReadItemsFit(types: set<nat>, canon: Canon, less: Less<string>, data: string, before: set<Item>)
    requires ClassOk(types, canon, less) && AllFit(types, canon, before)
    ensures var r := ReadItems(types, canon, data, before); r.Ok? ==> AllFit(types, canon, r.value)
    decreases |data|
  {
    if data != "" {
      var entry := Unpack(types, canon, data);
      if entry.Ok? {
        EntryFits(types, canon, less, data);
        ReadItemsFit(types, canon, less, entry.value.1, before + {entry.value.0});
      }
    }
  }

  ghost predicate Overflows(items: set<Item>)
  {
    exists x :: x in items && !Packable(x)
  }

  ghost predicate DiffOverflows(us: set<Item>, them: set<Item>)
  {
    |them - us| >= 65536 || |us - them| >= 65536 || Overflows((them - us) + (us - them))
  }

  lemma RestOfEntry(types: set<nat>, canon: Canon, data: string)
    requires Unpack(types, canon, data).Ok?
    ensures var rest := Unpack(types, canon, data).value.1; |rest| < |data| && data[|data| - |rest|..] == rest
  {
  }

  /** The loops that write entries; a stream of 65536 bytes or more is an OverflowError. */
  method PackItems(l: seq<Item>) returns (r: Result<string>)
    requires forall i :: 0 <= i < |l| ==> l[i].typeId < 256
    ensures r.Ok? <==> AllPackable(l)
    ensures r.Ok? ==> r.value == PackAll(l)
  {
    var bytes := "";
    for i := 0 to |l|
      invariant AllPackable(l[..i]) && bytes == PackAll(l[..i])
    {
      if |l[i].text| >= 65536 {
        return Err("OverflowError");
      }
      assert Packable(l[i]);
      PackAllOne(l[..i], l[i]);
      assert l[..i + 1] == l[..i] + [l[i]];
      bytes := bytes + PackItem(l[i]);
    }
    assert l[..|l|] == l;
    r := Ok(bytes);
  }

  /** Iterating over a set. */
  method ListItems(items: set<Item>) returns (l: seq<Item>)
    ensures Lists(l, items) && |l| == |items|
  {
    l := [];
    var rest := items;
    while rest != {}
      invariant rest <= items && NoneTwice(l) && |l| + |rest| == |items|
      invariant forall x :: x in l <==> x in items && x !in rest
      decreases |rest|
    {
      var x :| x in rest;
      l, rest := l + [x], rest - {x};
    }
  }

  lemma WhichOverflow(l: seq<Item>, items: set<Item>)
    requires forall x :: x in l <==> x in items
    ensures AllPackable(l) <==> !Overflows(items)
  {
    if AllPackable(l) {
      forall x | x in items
        ensures Packable(x)
      {
        assert x in l;
      }
    } else {
      var i :| 0 <= i < |l| && !Packable(l[i]);
      assert l[i] in l;
    }
  }

  lemma AllPackableParts(a: seq<Item>, b: seq<Item>)
    requires AllPackable(a + b)
    ensures AllPackable(a) && AllPackable(b)
  {
    assert forall i :: 0 <= i < |a| ==> a[i] == (a + b)[i];
    assert forall i :: 0 <= i < |b| ==> b[i] == (a + b)[|a| + i];
  }

  /** None says that there is no difference, and the error that the difference is too big. */
  ghost predicate DiffResult(r: Result<Option<string>>, us: set<Item>, them: set<Item>)
  {
    match r
    case Ok(None) => us == them
    case Ok(Some(diff)) => us != them && IsDiff(diff, us, them)
    case Err(_) => us != them && DiffOverflows(us, them)
  }

  method DiffItems(us: set<Item>, them: set<Item>) returns (r: Result<Option<string>>)
    requires forall x :: x in us || x in them ==> x.typeId < 256
    ensures DiffResult(r, us, them)
  {
    var addedItems, removedItems := us - them, them - us;
    if addedItems == {} && removedItems == {} {
      assert us == them;
      return Ok(None);
    }
    assert us != them;
    if |removedItems| >= 65536 || |addedItems| >= 65536 {
      return Err("OverflowError");
    }
    var removed := ListItems(removedItems);
    var added := ListItems(addedItems);
    assert forall i :: 0 <= i < |removed| ==> removed[i] in removed;
    assert forall i :: 0 <= i < |added| ==> added[i] in added;
    var entries := PackItems(removed + added);
    WhichOverflow(removed + added, removedItems + addedItems);
    if entries.Err? {
      return Err(entries.error);
    }
    AllPackableParts(removed, added);
    var diff := Header(|removed|, |added|) + entries.value;
    assert HasDiff(diff, us, them, removed, added);
    r := Ok(Some(diff));
  }

  class StreamCollection {
    const types: set<nat>
    const canon: Canon
    const less: Less<string>
    const ignoreSkipSet: bool
    var data: Option<string>
    var thawedItems: set<Item>

    constructor (types: set<nat>, canon: Canon, less: Less<string>, ignoreSkipSet: bool, data: string)
      requires ClassOk(types, canon, less)
      ensures this.types == types && this.canon == canon && this.less == less && this.ignoreSkipSet == ignoreSkipSet
      ensures Valid() && this.data == Some(data)
    {
      this.types, this.canon, this.less, this.ignoreSkipSet := types, canon, less, ignoreSkipSet;
      this.data, thawedItems := Some(data), {};
    }

    ghost predicate Valid()
      reads this
    {
      ClassOk(types, canon, less) && (data.None? ==> AllFit(types, canon, thawedItems))
    }

    /** The items: those in the bytes while there are bytes, whatever `thawedItems` still holds. */
    ghost function Items(): Result<set<Item>>
      reads this
    {
      if data.Some? then ReadItems(types, canon, data.value, {}) else Ok(thawedItems)
    }

    lemma ItemsFit()
      requires Valid() && Items().Ok?
      ensures AllFit(types, canon, Items().value)
    {
      if data.Some? {
        ReadItemsFit(types, canon, less, data.value, {});
      }
    }

    /** `_thaw` */
    method Thaw() returns (error: Option<string>)
      requires Valid() && data.Some?
      modifies this`data, this`thawedItems
      ensures Valid() && Items() == old(Items())
      ensures error == if old(Items()).Ok? then None else Some(old(Items()).error)
      ensures if error.None? then data.None? else data == old(data)
    {
      ghost var whole := Items();
      var bytes := data.value;
      var i := 0;
      thawedItems := {};
      assert bytes[0..] == bytes;
      while i < |bytes|
        invariant 0 <= i <= |bytes| && data == Some(bytes)
        invariant whole == ReadItems(types, canon, bytes[i..], thawedItems)
      {
        var entry := Unpack(types, canon, bytes[i..]);
        if entry.Err? {
          return Some(entry.error);
        }
        RestOfEntry(types, canon, bytes[i..]);
        var rest := entry.value.1;
        i := |bytes| - |rest|;
        assert bytes[i..] == rest;
        thawedItems := thawedItems + {entry.value.0};
      }
      ReadItemsFit(types, canon, less, bytes, {});
      data := None;
      error := None;
    }

    /** `getItems`: thaws first if need be. */
    method GetItems() returns (r: Result<set<Item>>)
      requires Valid()
      modifies this`data, this`thawedItems
      ensures Valid() && Items() == old(Items()) && r == Items()
      ensures if r.Ok? then data.None? && thawedItems == r.value else data == old(data)
    {
      if data.Some? {
        var error := Thaw();
        if error.Some? {
          return Err(error.value);
        }
      }
      r := Ok(thawedItems);
    }

    /** `freeze` */
    method Freeze(skipSet: bool) returns (r: Result<string>, ghost l: seq<Item>)
      requires Valid()
      modifies this`data, this`thawedItems
      ensures Valid() && Items() == old(Items())
      ensures old(data).Some? && (ignoreSkipSet || !skipSet) ==> r == Ok(old(data).value) && data == old(data)
      ensures !(old(data).Some? && (ignoreSkipSet || !skipSet)) ==>
                && (r.Ok? <==> Items().Ok? && !Overflows(Items().value))
                && (r.Ok? ==> FreezesAs(less, l, Items().value, r.value))
    {
      l := [];
      if data.Some? && (ignoreSkipSet || !skipSet) {
        return Ok(data.value), l;
      }
      var items := GetItems();
      if items.Err? {
        return Err(items.error), l;
      }
      ItemOrderIsTotal(less);
      var sorted := Sort(items.value, ItemOrder(less));
      ItemOrderIs(less, sorted);
      l := sorted;
      assert forall i :: 0 <= i < |sorted| ==> sorted[i] in sorted;
      ItemsFit();
      WhichOverflow(sorted, items.value);
      r := PackItems(sorted);
    }

    /** `addStream` */
    method AddStream(typeId: nat, text: string) returns (error: Option<string>)
      requires Valid() && Fits(types, canon, Item(typeId, text))
      modifies this`data, this`thawedItems
      ensures Valid()
      ensures if error.None? then old(Items()).Ok? && Items() == Ok(old(Items()).value + {Item(typeId, text)}) && data.None?
              else old(Items()).Err? && Items() == old(Items())
    {
      var items := GetItems();
      if items.Err? {
        return Some(items.error);
      }
      thawedItems := thawedItems + {Item(typeId, text)};
      error := None;
    }

    /** `delStream`: a missing stream is a KeyError. */
    method DelStream(typeId: nat, text: string) returns (error: Option<string>)
      requires Valid()
      modifies this`data, this`thawedItems
      ensures Valid()
      ensures error.None? <==> old(Items()).Ok? && Item(typeId, text) in old(Items()).value
      ensures if error.None? then Items() == Ok(old(Items()).value - {Item(typeId, text)}) && data.None?
              else Items() == old(Items())
    {
      var items := GetItems();
      if items.Err? {
        return Some(items.error);
      }
      if Item(typeId, text) !in thawedItems {
        return Some("KeyError");
      }
      thawedItems := thawedItems - {Item(typeId, text)};
      error := None;
    }

    ghost predicate SameClass(other: StreamCollection)
    {
      other.types == types && other.canon == canon && other.less == less
    }

    /** What `__eq__` finds: bytes are compared with bytes, and items otherwise. */
    ghost function Compared(other: StreamCollection): Result<bool>
      reads this, other
    {
      if data.Some? && other.data.Some? then Ok(data == other.data)
      else if Items().Err? then Err(Items().error)
      else if other.Items().Err? then Err(other.Items().error)
      else Ok(Items() == other.Items())
    }

    /** The bytes are those that `freeze` makes of the items in them. */
    ghost predicate HoldsFrozenForm()
      reads this
    {
      data.Some? && Items().Ok? && FrozenForm(less, Items().value, data.value)
    }

    /** `__eq__`: items that differ are never found equal, and equal ones only if both collections hold bytes, not all
        of which `freeze` would make. It cannot tell exactly if items are needed that cannot be read. */
    method Equals(other: StreamCollection) returns (r: Result<bool>)
      requires Valid() && other.Valid() && SameClass(other)
      modifies this`data, this`thawedItems, other`data, other`thawedItems
      ensures Valid() && other.Valid() && Items() == old(Items()) && other.Items() == old(other.Items())
      ensures r == old(Compared(other))
      ensures r.Err? <==> !old(data.Some? && other.data.Some?) && (Items().Err? || other.Items().Err?)
      ensures r == Ok(true) && Items().Ok? ==> other.Items() == Items()
      ensures r == Ok(false) && old(data.Some? && other.data.Some? ==> HoldsFrozenForm() && other.HoldsFrozenForm()) ==>
                other.Items() != Items()
    {
      if data.Some? && other.data.Some? {
        if HoldsFrozenForm() && other.HoldsFrozenForm() {
          ItemsFit();
          other.ItemsFit();
          FrozenFormsDiffer(types, canon, less, Items().value, data.value, other.Items().value, other.data.value);
        }
        return Ok(data == other.data);
      }
      var ours := GetItems();
      if ours.Err? {
        return Err(ours.error);
      }
      var theirs := other.GetItems();
      r := if theirs.Err? then Err(theirs.error) else Ok(ours.value == theirs.value);
    }

    /** `diff`; None if there is nothing to say. Equal bytes are never read. */
    method Diff(other: StreamCollection) returns (r: Result<Option<string>>)
      requires Valid() && other.Valid() && SameClass(other)
      modifies this`data, this`thawedItems, other`data, other`thawedItems
      ensures Valid() && other.Valid() && Items() == old(Items()) && other.Items() == old(other.Items())
      ensures if Items().Ok? && other.Items().Ok? then DiffResult(r, Items().value, other.Items().value)
              else if old(data).Some? && old(data) == old(other.data) then r == Ok(None)
              else r.Err?
    {
      if data.Some? && data == other.data {
        return Ok(None);
      }
      var ours := GetItems();
      if ours.Err? {
        return Err(ours.error);
      }
      var theirs := other.GetItems();
      if theirs.Err? {
        return Err(theirs.error);
      }
      ItemsFit();
      other.ItemsFit();
      r := DiffItems(ours.value, theirs.value);
    }

    /** One entry of `twm`, which thaws the collection if it still is frozen. */
    method MergeEntry(item: Item, removing: bool) returns (error: Option<string>)
      requires Valid() && Fits(types, canon, item)
      modifies this`data, this`thawedItems
      ensures Valid() && (old(Items()).Err? ==> error.Some? && Items() == old(Items()))
      ensures old(Items()).Ok? ==>
                var m := Merge(old(Items()).value, item, removing);
                if error.None? then m.Ok? && Items() == m else m == Err(error.value)
    {
      var items := GetItems();
      if items.Err? {
        return Some(items.error);
      }
      if !removing {
        thawedItems := thawedItems + {item};
      } else if item in thawedItems {
        thawedItems := thawedItems - {item};
      } else {
        return Some("KeyError");
      }
      error := None;
    }

    /** Entry `x` of a diff: it is read at `i0` and merged. */
    method MergeNext(diff: string, i0: nat, x: nat, numRemoved: nat, ghost total: nat) returns (error: Option<string>, i: nat)
      requires Valid() && i0 <= |diff| && x < total
      modifies this`data, this`thawedItems
      ensures Valid() && i <= |diff|
      ensures old(Items()).Err? ==> error.Some? && Items() == old(Items())
      ensures old(Items()).Ok? ==>
                var read := ReaderFor(types, canon);
                var m := MergeAll(read, old(Items()).value, diff[i0..], x, numRemoved, total);
                if error.Some? then m == Err(error.value)
                else Items().Ok? && m == MergeAll(read, Items().value, diff[i..], x + 1, numRemoved, total)
    {
      i := i0;
      var entry := Unpack(types, canon, diff[i..]);
      if entry.Err? {
        return Some(entry.error), i;
      }
      EntryFits(types, canon, less, diff[i..]);
      RestOfEntry(types, canon, diff[i..]);
      var rest := entry.value.1;
      i := |diff| - |rest|;
      assert diff[i..] == rest;
      error := MergeEntry(entry.value.0, x < numRemoved);
    }

    /** The loop of `twm`: removals are decoded before additions. Bytes that cannot be read are found out at
        the first entry. */
    method MergeEntries(diff: string, numRemoved: nat, total: nat) returns (error: Option<string>)
      requires Valid() && |diff| >= 4
      modifies this`data, this`thawedItems
      ensures Valid()
      ensures old(Items()).Err? ==> Items() == old(Items()) && (error.None? <==> total == 0)
      ensures old(Items()).Ok? ==>
                var m := MergeAll(ReaderFor(types, canon), old(Items()).value, diff[4..], 0, numRemoved, total);
                if error.None? then m.Ok? && Items() == m else m == Err(error.value)
    {
      ghost var read, items0 := ReaderFor(types, canon), Items();
      ghost var whole := if items0.Ok? then MergeAll(read, items0.value, diff[4..], 0, numRemoved, total) else items0;
      error := None;
      var i := 4;
      for x := 0 to total
        invariant Valid() && 0 <= i <= |diff| && error.None?
        invariant items0.Err? ==> x == 0 && Items() == items0
        invariant items0.Ok? ==> Items().Ok? && whole == MergeAll(read, Items().value, diff[i..], x, numRemoved, total)
      {
        error, i := MergeNext(diff, i, x, numRemoved, total);
        if error.Some? {
          return;
        }
      }
    }

    /** `twm`: `self` must be equal to the base, and then takes on the diff. A diff of nothing does not look
        at the bytes. */
    method Twm(diff: string, base: StreamCollection) returns (error: Option<string>)
      requires Valid() && base.Valid() && SameClass(base)
      modifies this`data, this`thawedItems, base`data, base`thawedItems
      ensures Valid() && (base != this ==> base.Valid() && base.Items() == old(base.Items()))
      ensures old(Compared(base)).Err? ==> error == Some(old(Compared(base)).error) && Items() == old(Items())
      ensures old(Compared(base)) == Ok(false) ==> error == Some("AssertionError") && Items() == old(Items())
      ensures old(Compared(base)) == Ok(true) && old(Items()).Err? ==>
                && Items() == old(Items())
                && (error.None? <==> |diff| >= 4 && UnpackH(diff) + UnpackH(diff[2..]) == 0)
      ensures old(Compared(base)) == Ok(true) && old(Items()).Ok? ==>
                var m := MergeDiff(ReaderFor(types, canon), old(Items()).value, diff);
                if error.None? then m.Ok? && Items() == m else m == Err(error.value)
    {
      var same := Equals(base);
      if same.Err? {
        return Some(same.error);
      }
      if !same.value {
        return Some("AssertionError");
      }
      if |diff| < 4 {
        return Some("struct.error");
      }
      var numRemoved, numAdded := UnpackH(diff), UnpackH(diff[2..]);
      error := MergeEntries(diff, numRemoved, numRemoved + numAdded);
    }
  }

  /** `other.twm(self.diff(other), other)`: afterwards `other` holds what `self` holds, unless one of them
      cannot be read or the difference is too big for the format. */
  method Replay(self: StreamCollection, other: StreamCollection) returns (error: Option<string>)
    requires self.Valid() && other.Valid() && self.SameClass(other)
    modifies self`data, self`thawedItems, other`data, other`thawedItems
    ensures self.Valid() && other.Valid() && self.Items() == old(self.Items())
    ensures if error.None? then other.Items() == self.Items()
            else self.Items().Ok? && old(other.Items()).Ok? ==> DiffOverflows(self.Items().value, old(other.Items()).value)
  {
    var diff := self.Diff(other);
    error := None;
    if diff.Err? {
      error := Some(diff.error);
    } else if diff.value.Some? {
      self.ItemsFit();
      other.ItemsFit();
      assert forall x :: x in self.Items().value || x in other.Items().value ==> Fits(self.types, self.canon, x);
      forall x | x in self.Items().value || x in other.Items().value
        ensures Reads(ReaderFor(self.types, self.canon), x)
      {
        FittingItemsRead(self.types, self.canon, x);
      }
      MergeUndoesDiff(ReaderFor(self.types, self.canon), self.Items().value, other.Items().value, diff.value.value);
      error := other.Twm(diff.value.value, other);
    }
  }

  /** Bytes that `freeze` would not have made can hold the same items: two collections with such bytes
      are told apart by `__eq__`, which compares bytes. */
  lemma {:induction false} BytesToldApart()
    ensures var types, canon, a, b := {1}, (t: nat, s: string) => s, Item(1, "a"), Item(1, "b");
            && PackAll([a, b]) != PackAll([b, a])
            && ReadItems(types, canon, PackAll([a, b]), {}) == ReadItems(types, canon, PackAll([b, a]), {}) == Ok({a, b})
  {
    var types, canon, a, b := {1}, (t: nat, s: string) => s, Item(1, "a"), Item(1, "b");
    ReadUndoesPack(types, canon, [a, b], {});
    ReadUndoesPack(types, canon, [b, a], {});
    assert {} + Members([a, b]) == {a, b} && {} + Members([b, a]) == {a, b};
    assert [a, b][0] == a && [b, a][0] == b;
    assert PackItem(a)[3] == 'a' && PackItem(b)[3] == 'b';
    assert PackAll([a, b])[3] == 'a' && PackAll([b, a])[3] == 'b';
  }

  /** `freeze` packs these items in this order. */
  ghost predicate FreezesAs(less: Less<string>, l: seq<Item>, items: set<Item>, bytes: string)
  {
    && ByTypeAndText(less, l) && (forall x :: x in l <==> x in items)
    && AllPackable(l) && bytes == PackAll(l)
  }

  /** What `freeze` makes of these items. */
  ghost predicate FrozenForm(less: Less<string>, items: set<Item>, bytes: string)
  {
    exists l :: FreezesAs(less, l, items, bytes)
  }

  /** Comparing with these bytes says what comparing with `items` says, whatever `freeze` made they are compared with. */
  ghost predicate SpeaksFor(types: set<nat>, canon: Canon, less: Less<string>, bytes: string, items: set<Item>)
  {
    forall others: set<Item>, frozen: string | AllFit(types, canon, others) && FrozenForm(less, others, frozen) ::
      bytes == frozen <==> items == others
  }

  /** So comparing bytes is right for exactly those bytes that `freeze` makes of what they hold. */
  lemma BytesSpeakIfFrozen(types: set<nat>, canon: Canon, less: Less<string>, bytes: string, items: set<Item>)
    requires ClassOk(types, canon, less) && ReadItems(types, canon, bytes, {}) == Ok(items) && !Overflows(items)
    ensures SpeaksFor(types, canon, less, bytes, items) <==> FrozenForm(less, items, bytes)
  {
    ReadItemsFit(types, canon, less, bytes, {});
    if FrozenForm(less, items, bytes) {
      forall others: set<Item>, frozen: string | AllFit(types, canon, others) && FrozenForm(less, others, frozen)
        ensures bytes == frozen <==> items == others
      {
        FrozenFormsDiffer(types, canon, less, items, bytes, others, frozen);
      }
    } else {
      ItemOrderIsTotal(less);
      var l := SortedExists(items, ItemOrder(less));
      ItemOrderIs(less, l);
      WhichOverflow(l, items);
      assert FreezesAs(less, l, items, PackAll(l));
      assert FrozenForm(less, items, PackAll(l));
    }
  }

  lemma FrozenFormsDiffer(types: set<nat>, canon: Canon, less: Less<string>, xs: set<Item>, a: string, ys: set<Item>, b: string)
    requires ClassOk(types, canon, less) && AllFit(types, canon, xs) && AllFit(types, canon, ys)
    requires FrozenForm(less, xs, a) && FrozenForm(less, ys, b)
    ensures a == b <==> xs == ys
  {
    var l :| FreezesAs(less, l, xs, a);
    var m :| FreezesAs(less, m, ys, b);
    ItemOrderIsTotal(less);
    ItemOrderIs(less, l);
    ItemOrderIs(less, m);
    WhichOverflow(l, xs);
    WhichOverflow(m, ys);
    FreezeIsCanonical(types, canon, ItemOrder(less), l, xs, m, ys);
  }
}
