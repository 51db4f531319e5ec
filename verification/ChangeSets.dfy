/** A trove change set as bytes, and the whole trip: `diff`, freeze, thaw, `applyChangeSet`. */
module ChangeSets {
  import opened Text
  import opened FileLists
  import opened FileDiff
  import opened TroveSets
  import opened TroveDiff

  /** The frozen file and trove streams of a change set. The `StreamSet` around them is not modelled. */
  datatype Frozen = Frozen(newFiles: string, changedFiles: string, oldFiles: string, strong: string, weak: string)

  /** Every change between the two maps can be written and read back. */
  ghost predicate TrovesSendable(ours: TroveMap, theirs: TroveMap, write: WriteVersion, read: ReadVersion)
  {
    forall key :: ChangeSendable(ours, theirs, write, read, key)
  }

  ghost predicate ChangeSendable(ours: TroveMap, theirs: TroveMap, write: WriteVersion, read: ReadVersion, key: Key)
  {
    var c := ChangeFor(ours, theirs, key);
    c.Some? ==> Free(key.name, NUL) && Wireable(write, read, c.value)
  }

  lemma DiffIsWireable(d: map<string, seq<Change>>, ours: TroveMap, theirs: TroveMap, write: WriteVersion, read: ReadVersion,
                       name: string)
    requires IsTroveDiff(d, ours, theirs) && TrovesSendable(ours, theirs, write, read) && name in d
    ensures Free(name, NUL) && AllWireable(write, read, d[name])
  {
    forall c | c in d[name]
      ensures Wireable(write, read, c) && Free(name, NUL)
    {
      assert ListedRightly(d, ours, theirs, name, c);
      assert c in multiset(d[name]);
      assert ChangeSendable(ours, theirs, write, read, KeyOf(name, c));
    }
    assert d[name][0] in d[name];
  }

  lemma DiffSetOk(d: map<string, seq<Change>>, ours: TroveMap, theirs: TroveMap, write: WriteVersion, read: ReadVersion)
    requires IsTroveDiff(d, ours, theirs) && TrovesSendable(ours, theirs, write, read)
    ensures SetOk(d, write, read)
  {
    forall name | name in d
      ensures Free(name, NUL) && AllWireable(write, read, d[name])
    {
      DiffIsWireable(d, ours, theirs, write, read, name);
    }
  }

  /** What a frozen change set stands for, whatever order its trove lists were written in. */
  ghost predicate FreezesTo(cs: ChangeSet, write: WriteVersion, frozen: Frozen)
  {
    && AllFit(cs.files.newFiles) && frozen.newFiles == FrozenFiles(cs.files.newFiles)
    && AllFit(cs.files.changedFiles) && frozen.changedFiles == FrozenFiles(cs.files.changedFiles)
    && frozen.oldFiles == Concat(cs.files.oldFiles)
    && IsFrozenSet(cs.strong, write, frozen.strong) && IsFrozenSet(cs.weak, write, frozen.weak)
  }

  method Freeze(cs: ChangeSet, write: WriteVersion, less: (Change, Change) -> bool) returns (frozen: Frozen)
    requires AllFit(cs.files.newFiles) && AllFit(cs.files.changedFiles)
    ensures FreezesTo(cs, write, frozen)
  {
    var newFiles := FreezeFiles(cs.files.newFiles);
    var changedFiles := FreezeFiles(cs.files.changedFiles);
    assert newFiles.Ok? && changedFiles.Ok?;
    var oldFiles := JoinAll(cs.files.oldFiles);
    var strong := FreezeSet(cs.strong, write, less);
    var weak := FreezeSet(cs.weak, write, less);
    frozen := Frozen(newFiles.value, changedFiles.value, oldFiles, strong, weak);
  }

  method Thaw(frozen: Frozen, read: ReadVersion) returns (r: Result<ChangeSet>)
    ensures r.Ok? ==>
              && ReadFiles(frozen.newFiles, []) == Ok(r.value.files.newFiles)
              && ReadFiles(frozen.changedFiles, []) == Ok(r.value.files.changedFiles)
              && IsIds(r.value.files.oldFiles, frozen.oldFiles)
              && ThawedSet(read, frozen.strong) == Ok(r.value.strong) && ThawedSet(read, frozen.weak) == Ok(r.value.weak)
    ensures r.Err? ==>
              || ReadFiles(frozen.newFiles, []).Err? || ReadFiles(frozen.changedFiles, []).Err?
              || |frozen.oldFiles| % 16 != 0
              || ThawedSet(read, frozen.strong).Err? || ThawedSet(read, frozen.weak).Err?
  {
    var newFiles := ThawFiles(frozen.newFiles);
    if newFiles.Err? { return Err(newFiles.error); }
    var changedFiles := ThawFiles(frozen.changedFiles);
    if changedFiles.Err? { return Err(changedFiles.error); }
    var oldFiles := ThawOldFiles(frozen.oldFiles);
    if oldFiles.Err? { return Err(oldFiles.error); }
    var strong := ThawSet(read, frozen.strong);
    if strong.Err? { return Err(strong.error); }
    var weak := ThawSet(read, frozen.weak);
    if weak.Err? { return Err(weak.error); }
    r := Ok(ChangeSet(FileDelta(newFiles.value, changedFiles.value, oldFiles.value), strong.value, weak.value));
  }

  predicate IsIds(ids: seq<string>, data: string)
  {
    Concat(ids) == data && forall i :: 0 <= i < |ids| ==> |ids[i]| == 16
  }

  lemma {:induction false} FileListThawed(l: seq<FileChange>)
    requires AllFit(l)
    ensures ReadFiles(FrozenFiles(l), []) == Ok(NormalisedAll(l))
  {
    ReadUndoesFreeze(l, []);
    assert [] + NormalisedAll(l) == NormalisedAll(l);
  }

  lemma IdsThawed(l: seq<string>)
    requires forall i :: 0 <= i < |l| ==> |l[i]| == 16
    ensures |Concat(l)| % 16 == 0 && forall ids :: IsIds(ids, Concat(l)) ==> ids == l
  {
    ConcatLength(l);
    forall ids | IsIds(ids, Concat(l))
      ensures ids == l
    {
      PathIdsDetermined(ids, l);
    }
  }

  /** What comes out of the bytes is what went in, with the entries of the file lists normalised and the
      trove changes in some order. */
  lemma {:induction false} ThawUndoesFreeze(cs: ChangeSet, write: WriteVersion, read: ReadVersion, frozen: Frozen)
    requires FreezesTo(cs, write, frozen)
    requires SetOk(cs.strong, write, read) && SetOk(cs.weak, write, read)
    requires forall i :: 0 <= i < |cs.files.oldFiles| ==> |cs.files.oldFiles[i]| == 16
    ensures ReadFiles(frozen.newFiles, []) == Ok(NormalisedAll(cs.files.newFiles))
    ensures ReadFiles(frozen.changedFiles, []) == Ok(NormalisedAll(cs.files.changedFiles))
    ensures |frozen.oldFiles| % 16 == 0 && forall ids :: IsIds(ids, frozen.oldFiles) ==> ids == cs.files.oldFiles
    ensures ThawsTo(read, frozen.strong, cs.strong) && ThawsTo(read, frozen.weak, cs.weak)
  {
    FileListThawed(cs.files.newFiles);
    FileListThawed(cs.files.changedFiles);
    IdsThawed(cs.files.oldFiles);
    FrozenSetThaws(cs.strong, write, read, frozen.strong);
    FrozenSetThaws(cs.weak, write, read, frozen.weak);
  }

  /** The diff between two troves, sent as bytes and applied to a copy of the old one. */
  method SendAndApply(self: Trove, them: Trove, copy: Trove, write: WriteVersion, read: ReadVersion,
                      less: (Change, Change) -> bool)
    returns (error: Option<string>)
    requires copy != self && copy.idMap == them.idMap
    requires copy.strongTroves == them.strongTroves && copy.weakTroves == them.weakTroves
    requires self.DiffAllowed() && them.DiffAllowed() && Sendable(self.idMap, them.idMap) && FilesOk(them.idMap)
    requires TrovesSendable(self.strongTroves, them.strongTroves, write, read)
    requires TrovesSendable(self.weakTroves, them.weakTroves, write, read)
    modifies copy
    ensures copy.strongTroves == self.strongTroves && copy.weakTroves == self.weakTroves
    ensures copy.idMap == self.idMap <==> AllKept(self.idMap, old(them.idMap), true)
    ensures copy.idMap.Keys == self.idMap.Keys
    ensures error == if self.idMap != map[] && self.strongTroves != map[] && self.weakTroves == map[]
                     then Some("AssertionError") else None
  {
    assert FilesOk(self.idMap);
    var cs := self.Diff(them);
    EntriesFit(self.idMap, them.idMap, cs.files);
    var frozen := Freeze(cs, write, less);
    DiffSetOk(cs.strong, self.strongTroves, them.strongTroves, write, read);
    DiffSetOk(cs.weak, self.weakTroves, them.weakTroves, write, read);
    OldIdsOk(cs.files, self.idMap, them.idMap);
    ThawUndoesFreeze(cs, write, read, frozen);
    var thawed := Thaw(frozen, read);
    var cs' := thawed.value;
    assert cs'.files == SentFiles(cs.files, true);
    ghost var strongOrder, weakOrder;
    ghost var files0, strong0, weak0 := copy.idMap, copy.strongTroves, copy.weakTroves;
    error, strongOrder, weakOrder := copy.ApplyChangeSet(cs');
    DiffRebuilds(cs, cs', true, error, strongOrder, weakOrder, self.idMap, self.strongTroves, self.weakTroves,
                 files0, strong0, weak0, copy.idMap, copy.strongTroves, copy.weakTroves);
  }

  lemma OldIdsOk(files: FileDelta, ours: FileMap, theirs: FileMap)
    requires IsFileDiff(files, ours, theirs) && FilesOk(theirs)
    ensures forall i :: 0 <= i < |files.oldFiles| ==> |files.oldFiles[i]| == 16
  {
    forall i | 0 <= i < |files.oldFiles|
      ensures |files.oldFiles[i]| == 16
    {
      assert files.oldFiles[i] in files.oldFiles;
      assert FileOk(files.oldFiles[i], theirs[files.oldFiles[i]]);
    }
  }
}
