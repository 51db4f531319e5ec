/** The files of a trove: what `diff` lists about them, and what `applyChangeSet` does with the lists. */
module FileDiff {
  import opened Text
  import opened Paths
  import opened FileLists
  import Versions

  datatype File = File(place: Option<Place>, fileId: Option<string>, version: Option<Versions.Version>)

  /** Files by path id. */
  type FileMap = map<string, File>

  /** As `addFile` leaves an entry. */
  predicate FileOk(pathId: string, f: File)
  {
    && |pathId| == 16 && f.place.Some? && Normal(f.place.value)
    && (f.fileId.Some? ==> |f.fileId.value| == 20) && f.version.Some?
  }

  predicate FilesOk(files: FileMap)
  {
    forall pathId :: pathId in files ==> FileOk(pathId, files[pathId])
  }

  function PathAt(f: File): string
  {
    if f.place.None? then "" else PathOf(f.place.value)
  }

  /** `newFile` splits the path again. */
  function NewFor(pathId: string, f: File): FileChange
  {
    FileChange(pathId, Some(SplitPath(PathAt(f))), f.fileId, f.version)
  }

  /** What `diff` says about a file on both sides: the path if it is not the same, the version if it or
      the file id is not, and the file id in any case; nothing if neither path nor version is said. */
  function ChangedFor(pathId: string, ours: File, theirs: File): Option<FileChange>
  {
    var newPath := if ours.place != theirs.place then PathAt(ours) else "";
    var newVersion := if ours.version != theirs.version || theirs.fileId != ours.fileId then ours.version else None;
    if newPath != "" || newVersion.Some? then
      Some(FileChange(pathId, if newPath != "" then Some(SplitPath(newPath)) else None, ours.fileId, newVersion))
    else None
  }

  function NewFiles(ours: FileMap, theirs: FileMap): map<string, FileChange>
  {
    map pathId | pathId in ours && pathId !in theirs :: NewFor(pathId, ours[pathId])
  }

  function ChangedFiles(ours: FileMap, theirs: FileMap): map<string, FileChange>
  {
    map pathId | pathId in ours && pathId in theirs && ChangedFor(pathId, ours[pathId], theirs[pathId]).Some?
      :: ChangedFor(pathId, ours[pathId], theirs[pathId]).value
  }

  ghost predicate IdsOnce(l: seq<FileChange>)
  {
    forall i, j :: 0 <= i < j < |l| ==> l[i].pathId != l[j].pathId
  }

  /** `l` lists the entries of `g`, each once, and no others. */
  ghost predicate Lists(l: seq<FileChange>, g: map<string, FileChange>)
  {
    && IdsOnce(l)
    && (forall i :: 0 <= i < |l| ==> l[i].pathId in g && g[l[i].pathId] == l[i])
    && (forall pathId :: pathId in g ==> g[pathId] in l)
  }

  datatype FileDelta = FileDelta(newFiles: seq<FileChange>, changedFiles: seq<FileChange>, oldFiles: seq<string>)

  ghost predicate IsFileDiff(lists: FileDelta, ours: FileMap, theirs: FileMap)
  {
    && Lists(lists.newFiles, NewFiles(ours, theirs)) && Lists(lists.changedFiles, ChangedFiles(ours, theirs))
    && NoneTwice(lists.oldFiles) && (forall pathId :: pathId in lists.oldFiles <==> pathId in theirs && pathId !in ours)
  }

  /** The file has another path, which can be told. */
  predicate Moved(ours: File, theirs: File)
  {
    ours.place != theirs.place && PathAt(ours) != ""
  }

  predicate Revised(ours: File, theirs: File)
  {
    ours.version != theirs.version || ours.fileId != theirs.fileId
  }

  /** The entry of a changed file says where it is exactly if it has moved, and which version it has exactly if
      that or the file id is another one. */
  ghost predicate TellsChange(c: FileChange, pathId: string, ours: File, theirs: File)
  {
    && c.pathId == pathId && c.fileId == ours.fileId
    && c.place == (if Moved(ours, theirs) then ours.place else None)
    && c.version == (if Revised(ours, theirs) then ours.version else None)
  }

  /** The entry of a new file says everything. */
  ghost predicate TellsAll(c: FileChange, pathId: string, ours: File)
  {
    c == FileChange(pathId, ours.place, ours.fileId, ours.version)
  }

  /** The lists hold an entry for each file that is new, has moved or was revised, and no others. */
  ghost predicate ToldExactly(lists: FileDelta, ours: FileMap, theirs: FileMap)
  {
    && IdsOnce(lists.newFiles) && IdsOnce(lists.changedFiles) && NoneTwice(lists.oldFiles)
    && (forall p :: p in Ids(lists.newFiles) <==> p in ours && p !in theirs)
    && (forall p :: p in Ids(lists.changedFiles) <==>
          p in ours && p in theirs && (Moved(ours[p], theirs[p]) || Revised(ours[p], theirs[p])))
    && (forall p :: p in lists.oldFiles <==> p in theirs && p !in ours)
    && (forall c :: c in lists.newFiles ==> c.pathId in ours && TellsAll(c, c.pathId, ours[c.pathId]))
    && (forall c :: c in lists.changedFiles ==>
          c.pathId in ours && c.pathId in theirs && TellsChange(c, c.pathId, ours[c.pathId], theirs[c.pathId]))
  }

  lemma ChangeTold(pathId: string, ours: File, theirs: File)
    requires FileOk(pathId, ours)
    ensures ChangedFor(pathId, ours, theirs).Some? <==> Moved(ours, theirs) || Revised(ours, theirs)
    ensures ChangedFor(pathId, ours, theirs).Some? ==>
              TellsChange(ChangedFor(pathId, ours, theirs).value, pathId, ours, theirs)
  {
    SplitUndoesJoin(ours.place.value);
  }

  lemma NewTold(pathId: string, ours: File)
    requires FileOk(pathId, ours)
    ensures TellsAll(NewFor(pathId, ours), pathId, ours)
  {
    SplitUndoesJoin(ours.place.value);
  }

  lemma {:induction false} DiffTells(lists: FileDelta, ours: FileMap, theirs: FileMap)
    requires FilesOk(ours) && IsFileDiff(lists, ours, theirs)
    ensures ToldExactly(lists, ours, theirs)
  {
    forall p
      ensures p in ours && p in theirs ==>
                (p in ChangedFiles(ours, theirs) <==> Moved(ours[p], theirs[p]) || Revised(ours[p], theirs[p]))
    {
      if p in ours && p in theirs {
        ChangeTold(p, ours[p], theirs[p]);
      }
    }
    NewsTell(lists.newFiles, ours, theirs);
    ChangesTell(lists.changedFiles, ours, theirs);
    IdsOfLists(lists.newFiles, NewFiles(ours, theirs));
    IdsOfLists(lists.changedFiles, ChangedFiles(ours, theirs));
  }

  lemma NewsTell(l: seq<FileChange>, ours: FileMap, theirs: FileMap)
    requires FilesOk(ours) && Lists(l, NewFiles(ours, theirs))
    ensures forall c :: c in l ==> c.pathId in ours && TellsAll(c, c.pathId, ours[c.pathId])
  {
    forall c | c in l
      ensures c.pathId in ours && TellsAll(c, c.pathId, ours[c.pathId])
    {
      NewTold(c.pathId, ours[c.pathId]);
    }
  }

  lemma ChangesTell(l: seq<FileChange>, ours: FileMap, theirs: FileMap)
    requires FilesOk(ours) && Lists(l, ChangedFiles(ours, theirs))
    ensures forall c :: c in l ==>
              c.pathId in ours && c.pathId in theirs && TellsChange(c, c.pathId, ours[c.pathId], theirs[c.pathId])
  {
    forall c | c in l
      ensures c.pathId in ours && c.pathId in theirs && TellsChange(c, c.pathId, ours[c.pathId], theirs[c.pathId])
    {
      ChangeTold(c.pathId, ours[c.pathId], theirs[c.pathId]);
    }
  }

  /** So the lists are empty exactly if both sides have the same files, but for moves to an empty path. */
  lemma NothingTold(lists: FileDelta, ours: FileMap, theirs: FileMap)
    requires ToldExactly(lists, ours, theirs)
    ensures lists == FileDelta([], [], []) <==>
              && ours.Keys == theirs.Keys
              && forall p :: p in ours ==> !Moved(ours[p], theirs[p]) && !Revised(ours[p], theirs[p])
  {
    NoIds(lists.newFiles);
    NoIds(lists.changedFiles);
    if lists.oldFiles != [] {
      assert lists.oldFiles[0] in lists.oldFiles;
    }
    if lists == FileDelta([], [], []) {
      assert forall p :: p !in Ids(lists.newFiles) && p !in Ids(lists.changedFiles) && p !in lists.oldFiles;
    }
  }

  lemma NoIds(l: seq<FileChange>)
    ensures l == [] <==> forall p :: p !in Ids(l)
  {
    if l != [] {
      assert l[0].pathId in Ids(l);
    }
  }

  /** The file part of `diff`. */
  method DiffFiles(ours: FileMap, theirs: FileMap) returns (lists: FileDelta)
    requires FilesOk(ours)
    ensures IsFileDiff(lists, ours, theirs) && ToldExactly(lists, ours, theirs)
  {
    var removedIds := ListIds(theirs.Keys - ours.Keys);
    var newFiles := DiffNew(ours, theirs);
    var changedFiles := DiffCommon(ours, theirs);
    lists := FileDelta(newFiles, changedFiles, removedIds);
    DiffTells(lists, ours, theirs);
  }

  /** The entries of `g` are listed, but for those of the path ids in `rest`. */
  ghost predicate ListsBut(l: seq<FileChange>, g: map<string, FileChange>, rest: set<string>)
  {
    Lists(l, g - rest)
  }

  lemma ListsNone(g: map<string, FileChange>, rest: set<string>)
    requires g.Keys <= rest
    ensures ListsBut([], g, rest)
  {
    assert g - rest == map[];
  }

  lemma ListsAll(l: seq<FileChange>, g: map<string, FileChange>)
    requires ListsBut(l, g, {})
    ensures Lists(l, g)
  {
    assert g - {} == g;
  }

  method DiffNew(ours: FileMap, theirs: FileMap) returns (newFiles: seq<FileChange>)
    requires FilesOk(ours)
    ensures Lists(newFiles, NewFiles(ours, theirs))
  {
    newFiles := [];
    var rest := ours.Keys - theirs.Keys;
    ListsNone(NewFiles(ours, theirs), rest);
    while rest != {}
      invariant rest <= ours.Keys - theirs.Keys
      invariant ListsBut(newFiles, NewFiles(ours, theirs), rest)
      decreases |rest|
    {
      var pathId :| pathId in rest;
      var f := ours[pathId];
      var c := FileChange(pathId, Some(SplitPath(JoinPath(f.place.value.dir, f.place.value.base))), f.fileId, f.version);
      ListsMore(newFiles, NewFiles(ours, theirs), rest, c);
      newFiles := newFiles + [c];
      rest := rest - {pathId};
    }
    ListsAll(newFiles, NewFiles(ours, theirs));
  }

  /** A file on both sides. */
  method Compare(pathId: string, self: File, them: File) returns (c: Option<FileChange>)
    requires self.place.Some?
    ensures c == ChangedFor(pathId, self, them)
  {
    var newPath := "";
    var newVersion := None;
    if self.place != them.place {
      newPath := JoinPath(self.place.value.dir, self.place.value.base);
    }
    if self.version != them.version || them.fileId != self.fileId {
      newVersion := self.version;
    }
    if newPath != "" || newVersion.Some? {
      c := Some(FileChange(pathId, if newPath != "" then Some(SplitPath(newPath)) else None, self.fileId, newVersion));
    } else {
      c := None;
    }
  }

  lemma NotListed(g: map<string, FileChange>, rest: set<string>, pathId: string)
    requires pathId !in g
    ensures g - (rest - {pathId}) == g - rest
  {
  }

  lemma ListChange(l: seq<FileChange>, ours: FileMap, theirs: FileMap, rest: set<string>, pathId: string)
    requires FilesOk(ours) && pathId in rest && rest <= ours.Keys * theirs.Keys
    requires ListsBut(l, ChangedFiles(ours, theirs), rest)
    ensures var c := ChangedFor(pathId, ours[pathId], theirs[pathId]);
            ListsBut(if c.Some? then l + [c.value] else l, ChangedFiles(ours, theirs), rest - {pathId})
  {
    var g := ChangedFiles(ours, theirs);
    var c := ChangedFor(pathId, ours[pathId], theirs[pathId]);
    if c.Some? {
      ListsMore(l, g, rest, c.value);
    } else {
      NotListed(g, rest, pathId);
    }
  }

  method DiffCommon(ours: FileMap, theirs: FileMap) returns (changedFiles: seq<FileChange>)
    requires FilesOk(ours)
    ensures Lists(changedFiles, ChangedFiles(ours, theirs))
  {
    changedFiles := [];
    var rest := ours.Keys * theirs.Keys;
    ListsNone(ChangedFiles(ours, theirs), rest);
    while rest != {}
      invariant rest <= ours.Keys * theirs.Keys
      invariant ListsBut(changedFiles, ChangedFiles(ours, theirs), rest)
      decreases |rest|
    {
      var pathId :| pathId in rest;
      var c := Compare(pathId, ours[pathId], theirs[pathId]);
      ListChange(changedFiles, ours, theirs, rest, pathId);
      if c.Some? {
        changedFiles := changedFiles + [c.value];
      }
      rest := rest - {pathId};
    }
    ListsAll(changedFiles, ChangedFiles(ours, theirs));
  }

  method ListIds(ids: set<string>) returns (l: seq<string>)
    ensures NoneTwice(l) && forall pathId :: pathId in l <==> pathId in ids
  {
    l := [];
    var rest := ids;
    while rest != {}
      invariant rest <= ids && NoneTwice(l)
      invariant forall pathId :: pathId in l <==> pathId in ids && pathId !in rest
      decreases |rest|
    {
      var pathId :| pathId in rest;
      l := l + [pathId];
      rest := rest - {pathId};
    }
  }

  lemma ListsMore(l: seq<FileChange>, g: map<string, FileChange>, rest: set<string>, c: FileChange)
    requires ListsBut(l, g, rest) && c.pathId in rest && c.pathId in g && g[c.pathId] == c
    ensures ListsBut(l + [c], g, rest - {c.pathId})
  {
    var g' := g - (rest - {c.pathId});
    assert g' == (g - rest)[c.pathId := c];
    forall pathId | pathId in g'
      ensures g'[pathId] in l + [c]
    {
      if pathId != c.pathId {
        assert (g - rest)[pathId] in l;
      }
    }
  }

  // ---------------------------------------------------------------- replaying file lists

  /** `addRawFile` */
  function AddRawFile(m: FileMap, c: FileChange): Result<FileMap>
  {
    if |c.pathId| != 16 || (c.fileId.Some? && |c.fileId.value| != 20) then Err("AssertionError")
    else Ok(m[c.pathId := File(c.place, c.fileId, c.version)])
  }

  /** What `updateRawFile` makes of an entry: what the change does not say stays. */
  function Updated(f: File, c: FileChange): File
  {
    File(if c.place.None? then f.place else c.place,
         if c.fileId.None? || c.fileId.value == "" then f.fileId else c.fileId,
         if c.version.None? then f.version else c.version)
  }

  function UpdateRawFile(m: FileMap, c: FileChange): Result<FileMap>
  {
    if c.pathId !in m then Err("KeyError") else Ok(m[c.pathId := Updated(m[c.pathId], c)])
  }

  function AddAll(m: FileMap, l: seq<FileChange>): Result<FileMap>
    decreases |l|
  {
    if l == [] then Ok(m)
    else
      var before := AddAll(m, l[..|l| - 1]);
      if before.Err? then before else AddRawFile(before.value, l[|l| - 1])
  }

  function UpdateAll(m: FileMap, l: seq<FileChange>): Result<FileMap>
    decreases |l|
  {
    if l == [] then Ok(m)
    else
      var before := UpdateAll(m, l[..|l| - 1]);
      if before.Err? then before else UpdateRawFile(before.value, l[|l| - 1])
  }

  function RemoveFile(m: FileMap, pathId: string): Result<FileMap>
  {
    if pathId !in m then Err("KeyError") else Ok(m - {pathId})
  }

  function RemoveAll(m: FileMap, l: seq<string>): Result<FileMap>
    decreases |l|
  {
    if l == [] then Ok(m)
    else
      var before := RemoveAll(m, l[..|l| - 1]);
      if before.Err? then before else RemoveFile(before.value, l[|l| - 1])
  }

  /** The file part of `applyChangeSet`. */
  function ApplyLists(m: FileMap, lists: FileDelta): Result<FileMap>
  {
    var added := AddAll(m, lists.newFiles);
    if added.Err? then added
    else
      var updated := UpdateAll(added.value, lists.changedFiles);
      if updated.Err? then updated else RemoveAll(updated.value, lists.oldFiles)
  }

  function FileOf(c: FileChange): File
  {
    File(c.place, c.fileId, c.version)
  }

  ghost function Ids(l: seq<FileChange>): set<string>
  {
    set i | 0 <= i < |l| :: l[i].pathId
  }

  lemma IdsOfLast(l: seq<FileChange>)
    requires l != []
    ensures Ids(l) == Ids(l[..|l| - 1]) + {l[|l| - 1].pathId}
  {
    var before := l[..|l| - 1];
    assert forall i :: 0 <= i < |before| ==> before[i] == l[i];
    assert l[|l| - 1].pathId in Ids(l);
  }

  ghost function Added(m: FileMap, ids: set<string>, g: map<string, FileChange>): FileMap
    requires ids <= g.Keys
  {
    map p | p in m.Keys + ids :: if p in ids then FileOf(g[p]) else m[p]
  }

  ghost function Changed(m: FileMap, ids: set<string>, g: map<string, FileChange>): FileMap
    requires ids <= g.Keys
  {
    map p | p in m :: if p in ids then Updated(m[p], g[p]) else m[p]
  }

  /** Entries of `g`, possibly not all and possibly twice. */
  ghost predicate From(l: seq<FileChange>, g: map<string, FileChange>)
  {
    forall i :: 0 <= i < |l| ==> l[i].pathId in g && g[l[i].pathId] == l[i]
  }

  lemma {:induction false} AddedAll(m: FileMap, l: seq<FileChange>, g: map<string, FileChange>)
    requires From(l, g)
    requires forall i :: 0 <= i < |l| ==> AddRawFile(map[], l[i]).Ok?
    ensures Ids(l) <= g.Keys && AddAll(m, l) == Ok(Added(m, Ids(l), g))
  {
    if l == [] {
      assert Ids(l) == {} && Added(m, {}, g) == m;
    } else {
      var before, c := l[..|l| - 1], l[|l| - 1];
      AddedAll(m, before, g);
      IdsOfLast(l);
      assert AddRawFile(map[], c).Ok?;
      assert Added(m, Ids(l), g) == Added(m, Ids(before), g)[c.pathId := FileOf(c)];
    }
  }

  lemma {:induction false} UpdatedAll(m: FileMap, l: seq<FileChange>, g: map<string, FileChange>)
    requires From(l, g)
    requires forall i :: 0 <= i < |l| ==> l[i].pathId in m
    ensures Ids(l) <= g.Keys && UpdateAll(m, l) == Ok(Changed(m, Ids(l), g))
  {
    if l == [] {
      assert Ids(l) == {} && Changed(m, {}, g) == m;
    } else {
      var before, c := l[..|l| - 1], l[|l| - 1];
      UpdatedAll(m, before, g);
      IdsOfLast(l);
      assert c.pathId in m;
      var mid := Changed(m, Ids(before), g);
      assert Changed(m, Ids(l), g) == mid[c.pathId := Updated(mid[c.pathId], c)];
    }
  }

  lemma RemoveLast(m: FileMap, before: seq<string>, last: string)
    ensures (map p | p in m && p !in before + [last] :: m[p]) == (map p | p in m && p !in before :: m[p]) - {last}
  {
  }

  lemma {:induction false} RemovedAll(m: FileMap, l: seq<string>)
    requires NoneTwice(l) && forall i :: 0 <= i < |l| ==> l[i] in m
    ensures RemoveAll(m, l) == Ok(map p | p in m && p !in l :: m[p])
  {
    if l == [] {
      assert (map p | p in m && p !in l :: m[p]) == m;
    } else {
      var before, last := l[..|l| - 1], l[|l| - 1];
      RemovedAll(m, before);
      assert l == before + [last];
      assert last !in before;
      RemoveLast(m, before, last);
    }
  }

  // When lists can be replayed at all.

  lemma {:induction false} AddsExactly(m: FileMap, l: seq<FileChange>)
    ensures AddAll(m, l).Ok? <==>
              forall c :: c in l ==> |c.pathId| == 16 && (c.fileId.Some? ==> |c.fileId.value| == 20)
    ensures if AddAll(m, l).Ok? then AddAll(m, l).value.Keys == m.Keys + Ids(l) else AddAll(m, l).error == "AssertionError"
  {
    if l != [] {
      var before, c := l[..|l| - 1], l[|l| - 1];
      AddsExactly(m, before);
      IdsOfLast(l);
      assert l == before + [c];
    }
  }

  lemma {:induction false} UpdatesExactly(m: FileMap, l: seq<FileChange>)
    ensures UpdateAll(m, l).Ok? <==> Ids(l) <= m.Keys
    ensures if UpdateAll(m, l).Ok? then UpdateAll(m, l).value.Keys == m.Keys else UpdateAll(m, l).error == "KeyError"
  {
    if l != [] {
      UpdatesExactly(m, l[..|l| - 1]);
      IdsOfLast(l);
    }
  }

  lemma {:induction false} RemovesExactly(m: FileMap, l: seq<string>)
    ensures RemoveAll(m, l).Ok? <==> NoneTwice(l) && forall p :: p in l ==> p in m
    ensures if RemoveAll(m, l).Ok? then forall p :: p in RemoveAll(m, l).value <==> p in m && p !in l
            else RemoveAll(m, l).error == "KeyError"
  {
    if l != [] {
      var before, last := l[..|l| - 1], l[|l| - 1];
      RemovesExactly(m, before);
      assert l == before + [last];
      if NoneTwice(before) && last !in before {
        assert NoneTwice(l);
      }
    }
  }

  /** The file loops get through exactly if new entries have ids of the right length, changed files are there or
      new, and so are the old ones, each once. */
  lemma ListsApplyExactly(m: FileMap, lists: FileDelta)
    ensures ApplyLists(m, lists).Ok? <==>
              && (forall c :: c in lists.newFiles ==>
                    |c.pathId| == 16 && (c.fileId.Some? ==> |c.fileId.value| == 20))
              && Ids(lists.changedFiles) <= m.Keys + Ids(lists.newFiles)
              && NoneTwice(lists.oldFiles) && (forall p :: p in lists.oldFiles ==> p in m || p in Ids(lists.newFiles))
    ensures ApplyLists(m, lists).Err? ==>
              ApplyLists(m, lists).error ==
                if exists c :: c in lists.newFiles && (|c.pathId| != 16 || (c.fileId.Some? && |c.fileId.value| != 20))
                then "AssertionError" else "KeyError"
  {
    AddsExactly(m, lists.newFiles);
    var added := AddAll(m, lists.newFiles);
    if added.Ok? {
      UpdatesExactly(added.value, lists.changedFiles);
      var updated := UpdateAll(added.value, lists.changedFiles);
      if updated.Ok? {
        RemovesExactly(updated.value, lists.oldFiles);
      }
    }
  }

  // ---------------------------------------------------------------- a diff replayed

  /** Entries that came as bytes, or were handed over as they are. */
  function Sent(c: FileChange, asBytes: bool): FileChange
  {
    if asBytes then Normalised(c) else c
  }

  function SentAll(l: seq<FileChange>, asBytes: bool): seq<FileChange>
  {
    if asBytes then NormalisedAll(l) else l
  }

  ghost function SentMap(g: map<string, FileChange>, asBytes: bool): map<string, FileChange>
  {
    map p | p in g :: Sent(g[p], asBytes)
  }

  lemma {:induction false} SentAt(l: seq<FileChange>, asBytes: bool, i: nat)
    requires i < |l|
    ensures |SentAll(l, asBytes)| == |l| && SentAll(l, asBytes)[i] == Sent(l[i], asBytes)
  {
    if asBytes {
      if i > 0 {
        SentAt(l[1..], true, i - 1);
      } else if |l| > 1 {
        SentAt(l[1..], true, 0);
      } else {
        assert NormalisedAll(l[1..]) == [] && NormalisedAll(l) == [Normalised(l[0])];
      }
    }
  }

  lemma SentLists(l: seq<FileChange>, g: map<string, FileChange>, asBytes: bool)
    requires Lists(l, g)
    ensures Lists(SentAll(l, asBytes), SentMap(g, asBytes))
  {
    var s := SentAll(l, asBytes);
    if l == [] {
      assert s == [];
    } else {
      SentAt(l, asBytes, 0);
    }
    forall i | 0 <= i < |s|
      ensures s[i].pathId in SentMap(g, asBytes) && SentMap(g, asBytes)[s[i].pathId] == s[i]
      ensures s[i].pathId == l[i].pathId
    {
      SentAt(l, asBytes, i);
    }
    forall p | p in SentMap(g, asBytes)
      ensures SentMap(g, asBytes)[p] in s
    {
      assert g[p] in l;
      var i :| 0 <= i < |l| && l[i] == g[p];
      SentAt(l, asBytes, i);
    }
  }

  lemma IdsOfLists(l: seq<FileChange>, g: map<string, FileChange>)
    requires Lists(l, g) && forall p :: p in g ==> g[p].pathId == p
    ensures From(l, g) && Ids(l) == g.Keys
  {
    forall p | p in g
      ensures p in Ids(l)
    {
      assert g[p] in l;
      var i :| 0 <= i < |l| && l[i] == g[p];
      assert l[i].pathId in Ids(l);
    }
  }

  /** The file map after a replay: new entries as they came, changed ones updated, old ones gone. */
  ghost function Replay(theirs: FileMap, news: map<string, FileChange>, changes: map<string, FileChange>, olds: seq<string>)
    : FileMap
  {
    map p | p in theirs.Keys + news.Keys && p !in olds ::
      if p in news then FileOf(news[p]) else if p in changes then Updated(theirs[p], changes[p]) else theirs[p]
  }

  lemma Replayed(theirs: FileMap, lists: FileDelta, news: map<string, FileChange>, changes: map<string, FileChange>)
    requires From(lists.newFiles, news) && Ids(lists.newFiles) == news.Keys
    requires From(lists.changedFiles, changes) && Ids(lists.changedFiles) == changes.Keys
    requires forall i :: 0 <= i < |lists.newFiles| ==> AddRawFile(map[], lists.newFiles[i]).Ok?
    requires news.Keys !! theirs.Keys && changes.Keys <= theirs.Keys
    requires NoneTwice(lists.oldFiles) && forall i :: 0 <= i < |lists.oldFiles| ==> lists.oldFiles[i] in theirs
    ensures ApplyLists(theirs, lists) == Ok(Replay(theirs, news, changes, lists.oldFiles))
  {
    AddedAll(theirs, lists.newFiles, news);
    var added := Added(theirs, news.Keys, news);
    forall i | 0 <= i < |lists.changedFiles|
      ensures lists.changedFiles[i].pathId in added
    {
      assert lists.changedFiles[i].pathId in changes.Keys;
    }
    UpdatedAll(added, lists.changedFiles, changes);
    var changed := Changed(added, changes.Keys, changes);
    RemovedAll(changed, lists.oldFiles);
    assert (map p | p in changed && p !in lists.oldFiles :: changed[p]) == Replay(theirs, news, changes, lists.oldFiles);
  }

  /** What a file must be for its entry to say all there is to say: its path is not empty where it
      has to be told, and it has a file id if its predecessor had one. */
  predicate Kept(f: File, their: Option<File>, asBytes: bool)
  {
    if their.None? then asBytes ==> PathAt(f) != ""
    else
      && (f.place == their.value.place || PathAt(f) != "")
      && (f.fileId.Some? || their.value.fileId.None?)
  }

  function Find(files: FileMap, pathId: string): Option<File>
  {
    if pathId in files then Some(files[pathId]) else None
  }

  predicate AllKept(ours: FileMap, theirs: FileMap, asBytes: bool)
  {
    forall p :: p in ours ==> Kept(ours[p], Find(theirs, p), asBytes)
  }

  lemma NewKept(pathId: string, f: File, asBytes: bool)
    requires FileOk(pathId, f)
    ensures FileOf(Sent(NewFor(pathId, f), asBytes)) == f <==> Kept(f, None, asBytes)
    ensures AddRawFile(map[], Sent(NewFor(pathId, f), asBytes)).Ok?
  {
    SplitUndoesJoin(f.place.value);
    SplitUndoesJoin(SplitPath(PathAt(f)));
  }

  lemma ChangeKept(pathId: string, f: File, their: File, asBytes: bool)
    requires FileOk(pathId, f) && FileOk(pathId, their)
    ensures var c := ChangedFor(pathId, f, their);
            (if c.Some? then Updated(their, Sent(c.value, asBytes)) else their) == f <==> Kept(f, Some(their), asBytes)
  {
    SplitUndoesJoin(f.place.value);
    EmptyPath(f.place.value);
  }

  /** A file diff, its lists in any order, never raises when replayed. It gives files with the path ids of the
      new ones, and the new files themselves if and only if each of them is told in full. */
  lemma FilesReplayed(ours: FileMap, theirs: FileMap, lists: FileDelta, asBytes: bool)
    requires FilesOk(ours) && FilesOk(theirs) && IsFileDiff(lists, ours, theirs)
    ensures var sent := FileDelta(SentAll(lists.newFiles, asBytes), SentAll(lists.changedFiles, asBytes), lists.oldFiles);
            && ApplyLists(theirs, sent).Ok? && ApplyLists(theirs, sent).value.Keys == ours.Keys
            && (ApplyLists(theirs, sent) == Ok(ours) <==> AllKept(ours, theirs, asBytes))
  {
    SentReplayed(ours, theirs, lists, asBytes);
    ReplayIsExact(ours, theirs, lists.oldFiles, asBytes);
    ReplayKeys(ours, theirs, lists.oldFiles, asBytes);
  }

  lemma SentReplayed(ours: FileMap, theirs: FileMap, lists: FileDelta, asBytes: bool)
    requires FilesOk(ours) && FilesOk(theirs) && IsFileDiff(lists, ours, theirs)
    ensures var sent := FileDelta(SentAll(lists.newFiles, asBytes), SentAll(lists.changedFiles, asBytes), lists.oldFiles);
            var news, changes := SentMap(NewFiles(ours, theirs), asBytes), SentMap(ChangedFiles(ours, theirs), asBytes);
            ApplyLists(theirs, sent) == Ok(Replay(theirs, news, changes, lists.oldFiles))
  {
    var sent := FileDelta(SentAll(lists.newFiles, asBytes), SentAll(lists.changedFiles, asBytes), lists.oldFiles);
    var news, changes := SentMap(NewFiles(ours, theirs), asBytes), SentMap(ChangedFiles(ours, theirs), asBytes);
    SentLists(lists.newFiles, NewFiles(ours, theirs), asBytes);
    SentLists(lists.changedFiles, ChangedFiles(ours, theirs), asBytes);
    IdsOfLists(sent.newFiles, news);
    IdsOfLists(sent.changedFiles, changes);
    NewFilesAdded(ours, theirs, sent.newFiles, asBytes);
    assert forall i :: 0 <= i < |sent.oldFiles| ==> sent.oldFiles[i] in sent.oldFiles;
    Replayed(theirs, sent, news, changes);
  }

  lemma NewFilesAdded(ours: FileMap, theirs: FileMap, l: seq<FileChange>, asBytes: bool)
    requires FilesOk(ours) && From(l, SentMap(NewFiles(ours, theirs), asBytes))
    ensures forall i :: 0 <= i < |l| ==> AddRawFile(map[], l[i]).Ok?
  {
    forall i | 0 <= i < |l|
      ensures AddRawFile(map[], l[i]).Ok?
    {
      NewKept(l[i].pathId, ours[l[i].pathId], asBytes);
    }
  }

  lemma {:induction false} ReplayKeys(ours: FileMap, theirs: FileMap, olds: seq<string>, asBytes: bool)
    requires FilesOk(ours) && FilesOk(theirs)
    requires forall p :: p in olds <==> p in theirs && p !in ours
    ensures var news, changes := SentMap(NewFiles(ours, theirs), asBytes), SentMap(ChangedFiles(ours, theirs), asBytes);
            Replay(theirs, news, changes, olds).Keys == ours.Keys
  {
    var news, changes := SentMap(NewFiles(ours, theirs), asBytes), SentMap(ChangedFiles(ours, theirs), asBytes);
    forall p
      ensures p in Replay(theirs, news, changes, olds) <==> p in ours
    {
      if p in ours {
        FileReplayed(ours, theirs, asBytes, p);
      }
    }
  }

  lemma {:induction false} ReplayIsExact(ours: FileMap, theirs: FileMap, olds: seq<string>, asBytes: bool)
    requires FilesOk(ours) && FilesOk(theirs)
    requires forall p :: p in olds <==> p in theirs && p !in ours
    ensures var news, changes := SentMap(NewFiles(ours, theirs), asBytes), SentMap(ChangedFiles(ours, theirs), asBytes);
            Replay(theirs, news, changes, olds) == ours <==> AllKept(ours, theirs, asBytes)
  {
    var news, changes := SentMap(NewFiles(ours, theirs), asBytes), SentMap(ChangedFiles(ours, theirs), asBytes);
    var r := Replay(theirs, news, changes, olds);
    forall p
      ensures SameAt(r, ours, p) <==> (p in ours ==> Kept(ours[p], Find(theirs, p), asBytes))
    {
      if p in ours {
        FileReplayed(ours, theirs, asBytes, p);
      }
    }
    if AllKept(ours, theirs, asBytes) {
      SameMaps(r, ours);
    } else {
      assert r == ours ==> forall p :: SameAt(r, ours, p);
    }
  }

  lemma {:induction false} FileReplayed(ours: FileMap, theirs: FileMap, asBytes: bool, p: string)
    requires FilesOk(ours) && FilesOk(theirs) && p in ours
    ensures var news, changes := SentMap(NewFiles(ours, theirs), asBytes), SentMap(ChangedFiles(ours, theirs), asBytes);
            && (p in news <==> p !in theirs)
            && var f := if p in news then FileOf(news[p])
                        else if p in changes then Updated(theirs[p], changes[p]) else theirs[p];
               (f == ours[p] <==> Kept(ours[p], Find(theirs, p), asBytes))
  {
    if p in theirs {
      ChangeKept(p, ours[p], theirs[p], asBytes);
    } else {
      NewKept(p, ours[p], asBytes);
    }
  }

  // ---------------------------------------------------------------- what can be sent

  /** Files that are new or have changed fit the frozen form with what is said about them; the others are not sent. */
  predicate Sendable(ours: FileMap, theirs: FileMap)
  {
    forall p :: p in ours ==> SendableFile(p, ours[p], Find(theirs, p))
  }

  predicate SendableFile(p: string, f: File, their: Option<File>)
  {
    && FileOk(p, f)
    && match their
       case None => Fits(NewFor(p, f))
       case Some(before) => ChangedFor(p, f, before).Some? ==> Fits(ChangedFor(p, f, before).value)
  }

  lemma {:induction false} EntriesFit(ours: FileMap, theirs: FileMap, lists: FileDelta)
    requires Sendable(ours, theirs) && IsFileDiff(lists, ours, theirs)
    ensures FilesOk(ours) && AllFit(lists.newFiles) && AllFit(lists.changedFiles)
  {
    forall i | 0 <= i < |lists.newFiles|
      ensures Fits(lists.newFiles[i])
    {
      var p := lists.newFiles[i].pathId;
      assert SendableFile(p, ours[p], None);
    }
    forall i | 0 <= i < |lists.changedFiles|
      ensures Fits(lists.changedFiles[i])
    {
      var p := lists.changedFiles[i].pathId;
      assert SendableFile(p, ours[p], Some(theirs[p]));
    }
  }
}
