/** The file lists of a change set as bytes: `ReferencedFileList` and `OldFileStream`. */
module FileLists {
  import opened Text
  import opened Framing
  import opened Paths
  import opened Versions

  /** One tuple of a `ReferencedFileList`; what has not changed is None. */
  datatype FileChange = FileChange(pathId: string, place: Option<Place>, fileId: Option<string>, version: Option<Version>)

  /** A version that has a string form. */
  predicate Printable(v: Version)
  {
    Sequence(v) && PartsOk(v)
  }

  /** A version whose string form can be read back. */
  predicate Readable(v: Version)
  {
    Printable(v) && KindsAgree(v, None) && SerialsFit(v, true, 0)
  }

  // ---------------------------------------------------------------- freezing

  function PathText(c: FileChange): string
  {
    if c.place.None? then "" else PathOf(c.place.value)
  }

  function FileIdText(c: FileChange): string
  {
    if c.fileId.None? then "" else c.fileId.value
  }

  predicate VersionOk(c: FileChange)
  {
    c.version.Some? ==> Printable(c.version.value)
  }

  function VersionText(c: FileChange): string
    requires VersionOk(c)
  {
    if c.version.None? then "" else Print(c.version.value)
  }

  /** What 16-bit lengths allow. */
  predicate Short(c: FileChange)
  {
    VersionOk(c) && |PathText(c)| < 65536 && |FileIdText(c)| < 65536 && |VersionText(c)| < 65536
  }

  predicate AllShort(l: seq<FileChange>)
  {
    forall i :: 0 <= i < |l| ==> Short(l[i])
  }

  /** What can be read back: a 16-byte path id, 16-bit lengths and a version that can be parsed. */
  predicate Fits(c: FileChange)
  {
    |c.pathId| == 16 && Short(c) && (c.version.Some? ==> Readable(c.version.value))
  }

  predicate AllFit(l: seq<FileChange>)
  {
    forall i :: 0 <= i < |l| ==> Fits(l[i])
  }

  function FreezeOne(c: FileChange): string
    requires Short(c)
  {
    c.pathId + HString(PathText(c)) + HString(FileIdText(c)) + HString(VersionText(c))
  }

  /** An entry is the path id and three strings, each behind its length; what is missing is empty. */
  lemma FreezeOneBytes(c: FileChange)
    requires Fits(c)
    ensures var data, p, f := FreezeOne(c), |PathText(c)|, |FileIdText(c)|;
            && |data| == 22 + p + f + |VersionText(c)| && data[..16] == c.pathId
            && HStringAt(data, 16, PathText(c)) && HStringAt(data, 18 + p, FileIdText(c))
            && HStringAt(data, 20 + p + f, VersionText(c))
    ensures c.place.None? ==> PathText(c) == ""
    ensures c.fileId.None? ==> FileIdText(c) == ""
    ensures c.version.None? ==> VersionText(c) == ""
  {
    ThreeHStrings(c.pathId, PathText(c), FileIdText(c), VersionText(c), "");
    assert FreezeOne(c) + "" == FreezeOne(c);
  }

  function FrozenFiles(l: seq<FileChange>): string
    requires AllShort(l)
  {
    if l == [] then "" else FreezeOne(l[0]) + FrozenFiles(l[1..])
  }

  /** `ReferencedFileList.freeze`; what does not fit 16 bits is a struct.error. */
  method FreezeFiles(l: seq<FileChange>) returns (r: Result<string>)
    requires forall i :: 0 <= i < |l| ==> VersionOk(l[i])
    ensures r.Ok? <==> AllShort(l)
    ensures r.Ok? ==> r.value == FrozenFiles(l)
  {
    var data := "";
    for i := 0 to |l|
      invariant FrozenUpTo(l, i, data)
    {
      var piece := FreezeFile(l[i]);
      if piece.Err? {
        return Err(piece.error);
      }
      FrozenOneMore(l, i, data);
      data := data + piece.value;
    }
    assert l[..|l|] == l;
    r := Ok(data);
  }

  ghost predicate FrozenUpTo(l: seq<FileChange>, i: nat, data: string)
    requires i <= |l|
  {
    AllShort(l[..i]) && data == FrozenFiles(l[..i])
  }

  lemma FrozenOneMore(l: seq<FileChange>, i: nat, data: string)
    requires i < |l| && FrozenUpTo(l, i, data) && Short(l[i])
    ensures FrozenUpTo(l, i + 1, data + FreezeOne(l[i]))
  {
    FreezeNext(l[..i], l[i]);
    assert l[..i + 1] == l[..i] + [l[i]];
  }

  lemma JoinThree(a: string, b: string, c: string)
    ensures a + (b + c) == a + b + c
  {
  }

  lemma {:induction false} FreezeNext(l: seq<FileChange>, c: FileChange)
    requires AllShort(l) && Short(c)
    ensures AllShort(l + [c]) && FrozenFiles(l + [c]) == FrozenFiles(l) + FreezeOne(c)
  {
    if l == [] {
      assert [c][1..] == [] && FreezeOne(c) + "" == FreezeOne(c);
    } else {
      FreezeNext(l[1..], c);
      assert (l + [c])[1..] == l[1..] + [c];
      JoinThree(FreezeOne(l[0]), FrozenFiles(l[1..]), FreezeOne(c));
    }
  }

  method FreezeFile(c: FileChange) returns (r: Result<string>)
    requires VersionOk(c)
    ensures r.Ok? <==> Short(c)
    ensures r.Ok? ==> r.value == FreezeOne(c)
  {
    var path := if c.place.None? then "" else JoinPath(c.place.value.dir, c.place.value.base);
    var fileId := if c.fileId.None? then "" else c.fileId.value;
    var version := "";
    if c.version.Some? {
      version := AsString(c.version.value, None);
    }
    if |path| >= 65536 || |fileId| >= 65536 || |version| >= 65536 {
      return Err("struct.error");
    }
    r := Ok(c.pathId + HString(path) + HString(fileId) + HString(version));
  }

  // ---------------------------------------------------------------- thawing

  datatype Raw = Raw(pathId: string, path: string, fileId: string, verStr: string)

  /** `pack.unpack("!S16SHSHSH", i, data)`, with what is left of the data. */
  function Unpack(data: string): (r: Result<(Raw, string)>)
    ensures r.Ok? && data != "" ==> |r.value.1| < |data|
  {
    var (pathId, d0) := Cut(data, 16);
    var path := TakeH(d0);
    if path.Err? then Err(path.error)
    else
      var fileId := TakeH(path.value.1);
      if fileId.Err? then Err(fileId.error)
      else
        var verStr := TakeH(fileId.value.1);
        if verStr.Err? then Err(verStr.error)
        else Ok((Raw(pathId, path.value.0, fileId.value.0, verStr.value.0), verStr.value.1))
  }

  function PlaceOf(path: string): Option<Place>
  {
    if path == "" then None else Some(SplitPath(path))
  }

  function Interpret(raw: Raw): Result<FileChange>
  {
    var fileId := if raw.fileId == "" then None else Some(raw.fileId);
    if raw.verStr == "" then Ok(FileChange(raw.pathId, PlaceOf(raw.path), fileId, None))
    else
      var version := Parse(raw.verStr);
      if version.Err? then Err(version.error)
      else Ok(FileChange(raw.pathId, PlaceOf(raw.path), fileId, Some(version.value)))
  }

  function ReadFiles(data: string, before: seq<FileChange>): Result<seq<FileChange>>
    decreases |data|
  {
    if data == "" then Ok(before)
    else
      var entry := Unpack(data);
      if entry.Err? then Err(entry.error)
      else
        var c := Interpret(entry.value.0);
        if c.Err? then Err(c.error) else ReadFiles(entry.value.1, before + [c.value])
  }

  /** One entry, with the version that was parsed last: the same string is not parsed twice in a row. */
  method InterpretCached(raw: Raw, lastVerStr: Option<string>, lastVer: Version)
    returns (c: Result<FileChange>, verStr: Option<string>, ver: Version)
    requires CacheOk(lastVerStr, lastVer)
    ensures c == Interpret(raw) && CacheOk(verStr, ver)
  {
    verStr, ver := lastVerStr, lastVer;
    var version: Option<Version> := None;
    if lastVerStr == Some(raw.verStr) {
      version := Some(lastVer);
    } else if raw.verStr != "" {
      var parsed := VersionFromString(raw.verStr, false);
      if parsed.Err? {
        return Err(parsed.error), verStr, ver;
      }
      version := Some(parsed.value.parts);
      verStr, ver := Some(raw.verStr), parsed.value.parts;
    }
    c := Ok(FileChange(raw.pathId, PlaceOf(raw.path), if raw.fileId == "" then None else Some(raw.fileId), version));
  }

  predicate CacheOk(verStr: Option<string>, ver: Version)
  {
    verStr.Some? ==> verStr.value != "" && Parse(verStr.value) == Ok(ver)
  }

  /** `ReferencedFileList.thaw` */
  method ThawFiles(data: string) returns (r: Result<seq<FileChange>>)
    ensures r == ReadFiles(data, [])
  {
    var l: seq<FileChange> := [];
    var lastVerStr: Option<string> := None;
    var lastVer: Version := [];
    var i := 0;
    while i < |data|
      invariant 0 <= i <= |data|
      invariant ReadFiles(data, []) == ReadFiles(data[i..], l)
      invariant CacheOk(lastVerStr, lastVer)
    {
      var entry := Unpack(data[i..]);
      if entry.Err? {
        return Err(entry.error);
      }
      var raw, rest := entry.value.0, entry.value.1;
      RestOfUnpack(data[i..]);
      var c;
      c, lastVerStr, lastVer := InterpretCached(raw, lastVerStr, lastVer);
      if c.Err? {
        return Err(c.error);
      }
      i := |data| - |rest|;
      assert data[i..] == rest;
      l := l + [c.value];
    }
    r := Ok(l);
  }

  ghost predicate Suffix(rest: string, data: string)
  {
    |rest| <= |data| && data[|data| - |rest|..] == rest
  }

  lemma SuffixOfSuffix(a: string, b: string, c: string)
    requires Suffix(a, b) && Suffix(b, c)
    ensures Suffix(a, c)
  {
    assert c[|c| - |b|..][|b| - |a|..] == c[|c| - |a|..];
  }

  lemma RestOfUnpack(data: string)
    requires Unpack(data).Ok?
    ensures Suffix(Unpack(data).value.1, data)
  {
    var d0 := Cut(data, 16).1;
    var d1 := TakeH(d0).value.1;
    var d2 := TakeH(d1).value.1;
    var d3 := TakeH(d2).value.1;
    RestOfTake(d0);
    RestOfTake(d1);
    RestOfTake(d2);
    SuffixOfSuffix(d3, d2, d1);
    SuffixOfSuffix(d3, d1, d0);
    SuffixOfSuffix(d3, d0, data);
  }

  lemma RestOfTake(data: string)
    requires TakeH(data).Ok?
    ensures Suffix(TakeH(data).value.1, data)
  {
  }

  // ---------------------------------------------------------------- round trip

  /** What comes back: an empty path or file id is no path or file id, and a path is split afresh. */
  function Normalised(c: FileChange): FileChange
  {
    FileChange(c.pathId, PlaceOf(PathText(c)), if FileIdText(c) == "" then None else c.fileId, c.version)
  }

  function NormalisedAll(l: seq<FileChange>): seq<FileChange>
  {
    if l == [] then [] else [Normalised(l[0])] + NormalisedAll(l[1..])
  }

  lemma {:induction false} UnpackUndoesFreeze(c: FileChange, rest: string)
    requires Fits(c)
    ensures Unpack(FreezeOne(c) + rest) == Ok((Raw(c.pathId, PathText(c), FileIdText(c), VersionText(c)), rest))
  {
    var data := FreezeOne(c) + rest;
    var t2 := HString(VersionText(c)) + rest;
    var t1 := HString(FileIdText(c)) + t2;
    var t0 := HString(PathText(c)) + t1;
    assert data == c.pathId + t0;
    CutConcat(c.pathId, t0);
    TakeHString(PathText(c), t1);
    TakeHString(FileIdText(c), t2);
    TakeHString(VersionText(c), rest);
  }

  lemma InterpretUndoesFreeze(c: FileChange)
    requires Fits(c)
    ensures Interpret(Raw(c.pathId, PathText(c), FileIdText(c), VersionText(c))) == Ok(Normalised(c))
  {
    if c.version.Some? {
      PrintedIsRead(c.version.value);
    }
  }

  lemma PrintedIsRead(v: Version)
    requires Readable(v)
    ensures Print(v) != "" && Parse(Print(v)) == Ok(v)
  {
    ParseUndoesPrint(v);
    PrintedFields(v, None);
  }

  lemma ReadOne(c: FileChange, rest: string, before: seq<FileChange>)
    requires Fits(c)
    ensures ReadFiles(FreezeOne(c) + rest, before) == ReadFiles(rest, before + [Normalised(c)])
  {
    UnpackUndoesFreeze(c, rest);
    InterpretUndoesFreeze(c);
  }

  lemma {:induction false} ReadUndoesFreeze(l: seq<FileChange>, before: seq<FileChange>)
    requires AllFit(l)
    ensures ReadFiles(FrozenFiles(l), before) == Ok(before + NormalisedAll(l))
  {
    if l == [] {
      assert before + [] == before;
    } else {
      var rest := FrozenFiles(l[1..]);
      ReadOne(l[0], rest, before);
      ReadUndoesFreeze(l[1..], before + [Normalised(l[0])]);
      assert before + [Normalised(l[0])] + NormalisedAll(l[1..]) == before + ([Normalised(l[0])] + NormalisedAll(l[1..]));
    }
  }

  /** A file list survives as bytes exactly when no path or file id in it is empty and every path is
      as `os.path.split` leaves it. */
  lemma {:induction false} FileListSurvives(l: seq<FileChange>)
    requires AllFit(l)
    ensures ReadFiles(FrozenFiles(l), []) == Ok(l) <==> AllSurvive(l)
  {
    ReadUndoesFreeze(l, []);
    assert [] + NormalisedAll(l) == NormalisedAll(l);
    NormalisedIsSame(l);
  }

  predicate Survives(c: FileChange)
  {
    && (c.place.Some? ==> Normal(c.place.value) && PathOf(c.place.value) != "")
    && c.fileId != Some("")
  }

  predicate AllSurvive(l: seq<FileChange>)
  {
    l == [] || (Survives(l[0]) && AllSurvive(l[1..]))
  }

  lemma NormalisedOne(c: FileChange)
    ensures Normalised(c) == c <==> Survives(c)
  {
    if c.place.Some? {
      SplitUndoesJoin(c.place.value);
    }
  }

  lemma SameFirstAndRest<T>(x: T, s: seq<T>, y: T, t: seq<T>)
    ensures [x] + s == [y] + t <==> x == y && s == t
  {
    assert ([x] + s)[0] == x && ([x] + s)[1..] == s;
    assert ([y] + t)[0] == y && ([y] + t)[1..] == t;
  }

  lemma {:induction false} NormalisedIsSame(l: seq<FileChange>)
    ensures NormalisedAll(l) == l <==> AllSurvive(l)
  {
    if l != [] {
      NormalisedIsSame(l[1..]);
      NormalisedOne(l[0]);
      assert l == [l[0]] + l[1..];
      SameFirstAndRest(Normalised(l[0]), NormalisedAll(l[1..]), l[0], l[1..]);
    }
  }

  // ---------------------------------------------------------------- removed files

  /** `OldFileStream.thaw`: pieces of 16 bytes. A short last piece fails its assertion. */
  method ThawOldFiles(data: string) returns (r: Result<seq<string>>)
    ensures r.Ok? <==> |data| % 16 == 0
    ensures r.Ok? ==> Concat(r.value) == data && forall i :: 0 <= i < |r.value| ==> |r.value[i]| == 16
  {
    var l: seq<string> := [];
    var i := 0;
    while i < |data|
      invariant i % 16 == 0 && 0 <= i < |data| + 16
      invariant i <= |data| ==> Concat(l) == data[..i] && forall j :: 0 <= j < |l| ==> |l[j]| == 16
    {
      var piece := Cut(data[i..], 16).0;
      if i + 16 <= |data| {
        ConcatOne(l, piece);
        assert piece == data[i..i + 16];
        assert data[..i] + piece == data[..i + 16];
      }
      l := l + [piece];
      i := i + 16;
    }
    if i == |data| {
      assert data[..i] == data;
      r := Ok(l);
    } else {
      r := Err("AssertionError");
    }
  }

  lemma {:induction false} ConcatOne(l: seq<string>, piece: string)
    ensures Concat(l + [piece]) == Concat(l) + piece
  {
    if l == [] {
      assert [piece][1..] == [];
    } else {
      ConcatOne(l[1..], piece);
      assert (l + [piece])[1..] == l[1..] + [piece];
      assert l[0] + (Concat(l[1..]) + piece) == l[0] + Concat(l[1..]) + piece;
    }
  }

  lemma {:induction false} ConcatLength(ids: seq<string>)
    requires forall i :: 0 <= i < |ids| ==> |ids[i]| == 16
    ensures |Concat(ids)| == 16 * |ids|
  {
    if ids != [] {
      ConcatLength(ids[1..]);
    }
  }

  /** Path ids are told apart by their length alone: only one list gives these bytes. */
  lemma {:induction false} PathIdsDetermined(a: seq<string>, b: seq<string>)
    requires Concat(a) == Concat(b)
    requires forall i :: 0 <= i < |a| ==> |a[i]| == 16
    requires forall i :: 0 <= i < |b| ==> |b[i]| == 16
    ensures a == b
  {
    ConcatLength(a);
    ConcatLength(b);
    if a != [] {
      assert |a[0]| == 16 && |b[0]| == 16;
      assert a[0] == Concat(a)[..16] == Concat(b)[..16] == b[0];
      assert Concat(a[1..]) == Concat(a)[16..] == Concat(b)[16..] == Concat(b[1..]);
      assert forall i :: 0 <= i < |a[1..]| ==> a[1..][i] == a[i + 1];
      assert forall i :: 0 <= i < |b[1..]| ==> b[1..][i] == b[i + 1];
      PathIdsDetermined(a[1..], b[1..]);
      assert a == [a[0]] + a[1..] && b == [b[0]] + b[1..];
    }
  }
}
