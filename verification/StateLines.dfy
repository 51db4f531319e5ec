/** The lines of a CONARY file: `SourceState._write` and `ConaryState._write`, and the tokenising
    reader `parseFile`, `parseLines` and `_readFileList`. */
module StateLines {
  import opened Text
  import opened Blanks
  import opened Framing
  import opened Sorting
  import opened Paths
  import opened StateFile

  // ---------------------------------------------------------------- writing

  function FieldLine(what: string, value: string): string
  {
    what + " " + value + "\n"
  }

  function Header(texts: Texts, s: Source): seq<string>
  {
    [FieldLine("name", s.name), FieldLine("version", texts.freeze(s.version)), FieldLine("branch", texts.freeze(s.branch))]
    + Tail(texts, s)
  }

  function Tail(texts: Texts, s: Source): seq<string>
  {
    (if s.lastMerged.Some? then [FieldLine("lastmerged", texts.freeze(s.lastMerged.value))] else [])
    + (if s.factory != "" then [FieldLine("factory", s.factory)] else [])
  }

  /** The header names these fields in this order; the last two are only there if there is something to say. */
  lemma HeaderSays(texts: Texts, s: Source)
    ensures var l := Header(texts, s);
            && |l| == 3 + (if s.lastMerged.Some? then 1 else 0) + (if s.factory != "" then 1 else 0)
            && l[0] == "name " + s.name + "\n"
            && l[1] == "version " + texts.freeze(s.version) + "\n"
            && l[2] == "branch " + texts.freeze(s.branch) + "\n"
            && (s.lastMerged.Some? ==> l[3] == "lastmerged " + texts.freeze(s.lastMerged.value) + "\n")
            && (s.factory != "" ==> l[|l| - 1] == "factory " + s.factory + "\n")
  {
    assert forall value :: FieldLine("name", value) == "name " + value + "\n";
    assert forall value :: FieldLine("version", value) == "version " + value + "\n";
    assert forall value :: FieldLine("branch", value) == "branch " + value + "\n";
    assert forall value :: FieldLine("lastmerged", value) == "lastmerged " + value + "\n";
    assert forall value :: FieldLine("factory", value) == "factory " + value + "\n";
  }

  /** Every file has its flags, and ids are bytes. */
  predicate Writable(s: Source)
  {
    forall pathId :: pathId in s.idMap ==> HasFile(s, pathId)
  }

  /** A state as the class keeps it, with versions that come back from their text. */
  ghost predicate Storable(texts: Texts, s: Source)
  {
    && Freezes(texts, s.version) && Freezes(texts, s.branch) && (s.lastMerged.Some? ==> Freezes(texts, s.lastMerged.value))
    && s.fileInfo.Keys == s.idMap.Keys
    && forall pathId :: pathId in s.idMap ==> EntryOk(texts, pathId, s.idMap[pathId])
  }

  predicate NamesOk(s: Source)
  {
    OneWord(s.name) && (s.factory == "" || OneWord(s.factory))
  }

  ghost predicate SourceOk(texts: Texts, s: Source)
  {
    NamesOk(s) && Storable(texts, s)
  }

  predicate HasFile(s: Source, pathId: string)
  {
    && pathId in s.idMap && pathId in s.fileInfo && IsBytes(pathId) && IsBytes(s.idMap[pathId].fileId)
  }

  predicate Listed(s: Source, order: seq<string>)
  {
    forall i :: 0 <= i < |order| ==> HasFile(s, order[i])
  }

  function FileLines(texts: Texts, s: Source, order: seq<string>): seq<string>
    requires Listed(s, order)
  {
    if order == [] then []
    else [LineOf(texts, s, order[0])] + FileLines(texts, s, order[1..])
  }

  function LineOf(texts: Texts, s: Source, pathId: string): string
    requires HasFile(s, pathId)
  {
    FileLine(texts, pathId, s.idMap[pathId], s.fileInfo[pathId])
  }

  function CountLine(n: nat): string
  {
    Decimal(n) + "\n"
  }

  function SourceLines(texts: Texts, s: Source, order: seq<string>): seq<string>
    requires Listed(s, order)
  {
    Header(texts, s) + [CountLine(|order|)] + FileLines(texts, s, order)
  }

  /** The lines of a state, with each of its files once, in the order of their path ids. */
  ghost predicate Written(texts: Texts, s: Source, lines: seq<string>)
  {
    exists order :: Complete(s, order) && lines == SourceLines(texts, s, order)
  }

  ghost predicate Complete(s: Source, order: seq<string>)
  {
    && Listed(s, order) && |order| == |s.idMap|
    && Ascending(ByText(), order) && forall p :: p in order <==> p in s.idMap
  }

  ghost predicate FilesWritten(texts: Texts, s: Source, lines: seq<string>)
  {
    exists order :: Complete(s, order) && lines == FileLines(texts, s, order)
  }

  // ---------------------------------------------------------------- reading fields

  /** The keyword arguments collected so far; versions apart from the others. */
  datatype Fields = Fields(words: map<string, string>, versions: map<string, StateVersion>)

  predicate IsWord(what: string)
  {
    what == "name" || what == "factory"
  }

  predicate IsVersion(what: string)
  {
    what == "version" || what == "branch" || what == "lastmerged"
  }

  /** One line of `parseLines`. */
  function ReadField(texts: Texts, what: string, value: string, kwargs: Fields): Result<Fields>
  {
    if what in kwargs.words || what in kwargs.versions then Err("AssertionError")
    else if IsWord(what) then Ok(kwargs.(words := kwargs.words[what := value]))
    else if IsVersion(what) then
      var v := texts.thaw(value);
      if v.Err? then Err(v.error) else Ok(kwargs.(versions := kwargs.versions[what := v.value]))
    else Err("Invalid field")
  }

  /** The loop of `parseLines`: a line with a single word ends the fields. */
  function ReadFields(texts: Texts, lines: seq<string>, kwargs: Fields): Result<(Fields, seq<string>)>
  {
    if lines == [] then Ok((kwargs, lines))
    else
      var fields := Words(Chop(lines[0]));
      if |fields| == 1 then Ok((kwargs, lines))
      else if |fields| != 2 then Err("AssertionError")
      else
        var next := ReadField(texts, fields[0], fields[1], kwargs);
        if next.Err? then Err(next.error) else ReadFields(texts, lines[1..], next.value)
  }

  // ---------------------------------------------------------------- reading files

  // Which headers can be read.

  function What(line: string): string
  {
    var fields := Words(Chop(line));
    if |fields| == 2 then fields[0] else ""
  }

  /** Line `i` has a field that is known, can be read, and has not been given before. */
  ghost predicate FieldOk(texts: Texts, lines: seq<string>, kwargs: Fields, i: int)
  {
    0 <= i < |lines| ==>
      var fields := Words(Chop(lines[i]));
      && |fields| == 2 && (IsWord(fields[0]) || (IsVersion(fields[0]) && texts.thaw(fields[1]).Ok?))
      && fields[0] !in kwargs.words && fields[0] !in kwargs.versions
  }

  ghost predicate NotGivenTwice(lines: seq<string>, i: int, j: int)
  {
    0 <= i < j < |lines| ==> What(lines[i]) != What(lines[j])
  }

  /** The first `k` lines are a header, and it ends there. */
  ghost predicate HeaderEnds(texts: Texts, lines: seq<string>, kwargs: Fields, k: nat)
  {
    && k <= |lines| && (k < |lines| ==> |Words(Chop(lines[k]))| == 1)
    && (forall i :: FieldOk(texts, lines[..k], kwargs, i))
    && (forall i, j :: NotGivenTwice(lines[..k], i, j))
  }

  ghost predicate Given(lines: seq<string>, what: string)
  {
    exists i :: 0 <= i < |lines| && What(lines[i]) == what
  }

  /** A header is read exactly if each of its lines holds a known field which can be read, none is given twice, and
      it ends with the file or a line of one word. */
  lemma {:induction false} HeadersRead(texts: Texts, lines: seq<string>, kwargs: Fields)
    ensures ReadFields(texts, lines, kwargs).Ok? <==> exists k: nat :: HeaderEnds(texts, lines, kwargs, k)
  {
    if lines == [] {
      assert lines[..0] == [];
      assert HeaderEnds(texts, lines, kwargs, 0);
    } else if |Words(Chop(lines[0]))| == 1 {
      assert lines[..0] == [];
      assert HeaderEnds(texts, lines, kwargs, 0);
    } else {
      if exists k: nat :: HeaderEnds(texts, lines, kwargs, k) {
        var k: nat :| HeaderEnds(texts, lines, kwargs, k);
        HeaderRest(texts, lines, kwargs, k);
      }
      if FieldOk(texts, [lines[0]], kwargs, 0) {
        var fields := Words(Chop(lines[0]));
        var next := ReadField(texts, fields[0], fields[1], kwargs).value;
        HeadersRead(texts, lines[1..], next);
        if exists k: nat :: HeaderEnds(texts, lines[1..], next, k) {
          var k: nat :| HeaderEnds(texts, lines[1..], next, k);
          HeaderMore(texts, lines, kwargs, next, k);
        }
      }
    }
  }

  lemma HeaderRest(texts: Texts, lines: seq<string>, kwargs: Fields, k: nat)
    requires lines != [] && |Words(Chop(lines[0]))| != 1 && HeaderEnds(texts, lines, kwargs, k)
    ensures k > 0 && FieldOk(texts, [lines[0]], kwargs, 0)
    ensures var fields := Words(Chop(lines[0]));
            |fields| == 2 && var next := ReadField(texts, fields[0], fields[1], kwargs);
            next.Ok? && HeaderEnds(texts, lines[1..], next.value, k - 1)
  {
    var all, rest, fields := lines[..k], lines[1..][..k - 1], Words(Chop(lines[0]));
    assert FieldOk(texts, all, kwargs, 0) && all[0] == lines[0];
    var next := ReadField(texts, fields[0], fields[1], kwargs).value;
    forall i
      ensures FieldOk(texts, rest, next, i)
    {
      assert FieldOk(texts, all, kwargs, i + 1) && NotGivenTwice(all, 0, i + 1);
      if 0 <= i < |rest| {
        assert rest[i] == all[i + 1];
      }
    }
    forall i, j
      ensures NotGivenTwice(rest, i, j)
    {
      assert NotGivenTwice(all, i + 1, j + 1);
      if 0 <= i < j < |rest| {
        assert rest[i] == all[i + 1] && rest[j] == all[j + 1];
      }
    }
  }

  lemma HeaderMore(texts: Texts, lines: seq<string>, kwargs: Fields, next: Fields, k: nat)
    requires lines != [] && FieldOk(texts, [lines[0]], kwargs, 0)
    requires var fields := Words(Chop(lines[0]));
             |fields| == 2 && ReadField(texts, fields[0], fields[1], kwargs) == Ok(next)
    requires HeaderEnds(texts, lines[1..], next, k)
    ensures HeaderEnds(texts, lines, kwargs, k + 1)
  {
    var all, rest := lines[..k + 1], lines[1..][..k];
    forall i
      ensures FieldOk(texts, all, kwargs, i)
    {
      assert FieldOk(texts, rest, next, i - 1);
      if 0 < i < |all| {
        assert all[i] == rest[i - 1];
      }
    }
    forall i, j
      ensures NotGivenTwice(all, i, j)
    {
      assert NotGivenTwice(rest, i - 1, j - 1) && FieldOk(texts, rest, next, j - 1);
      if 0 <= i < j < |all| {
        assert all[j] == rest[j - 1];
        if i > 0 {
          assert all[i] == rest[i - 1];
        }
      }
    }
  }

  datatype Files = Files(idMap: map<string, FileEntry>, fileInfo: map<string, FileInfo>)

  function WithFile(files: Files, row: FileRow): Files
  {
    Files(files.idMap[row.pathId := row.entry], files.fileInfo[row.pathId := row.info])
  }

  function ReadFileLines(texts: Texts, lines: seq<string>, files: Files): Result<Files>
    decreases |lines|
  {
    if lines == [] then Ok(files)
    else
      var row := ReadFile(texts, lines[0]);
      if row.Err? then Err(row.error) else ReadFileLines(texts, lines[1..], WithFile(files, row.value))
  }

  function MakeSource(kwargs: Fields, files: Files): Result<Source>
  {
    if "name" !in kwargs.words || "branch" !in kwargs.versions || "version" !in kwargs.versions then Err("AssertionError")
    else
      Ok(Source(kwargs.words["name"], kwargs.versions["version"], kwargs.versions["branch"],
                if "lastmerged" in kwargs.versions then Some(kwargs.versions["lastmerged"]) else None,
                if "factory" in kwargs.words then kwargs.words["factory"] else "",
                files.idMap, files.fileInfo))
  }

  function After(lines: seq<string>): seq<string>
  {
    if lines == [] then [] else lines[1..]
  }

  /** `SourceStateFromLines`: the file count is not looked at. */
  function ReadSource(texts: Texts, lines: seq<string>): Result<Source>
  {
    var fields := ReadFields(texts, lines, Fields(map[], map[]));
    if fields.Err? then Err(fields.error)
    else
      var source := MakeSource(fields.value.0, Files(map[], map[]));
      if source.Err? then source
      else
        var files := ReadFileLines(texts, After(fields.value.1), Files(map[], map[]));
        if files.Err? then Err(files.error) else MakeSource(fields.value.0, files.value)
  }

  // Which states can be read.

  predicate Kinds(kwargs: Fields)
  {
    (forall what :: what in kwargs.words ==> IsWord(what)) && (forall what :: what in kwargs.versions ==> IsVersion(what))
  }

  predicate Has(kwargs: Fields, what: string)
  {
    what in kwargs.words || what in kwargs.versions
  }

  ghost predicate HasIfGiven(kwargs: Fields, before: Fields, lines: seq<string>, what: string)
  {
    Has(kwargs, what) <==> Has(before, what) || Given(lines, what)
  }

  /** What is read from a header are the fields given in it. */
  lemma {:induction false} HeaderGives(texts: Texts, lines: seq<string>, kwargs: Fields, k: nat)
    requires HeaderEnds(texts, lines, kwargs, k) && Kinds(kwargs)
    ensures ReadFields(texts, lines, kwargs).Ok?
    ensures var (fields, rest) := ReadFields(texts, lines, kwargs).value;
            && rest == lines[k..] && Kinds(fields) && forall what :: HasIfGiven(fields, kwargs, lines[..k], what)
  {
    if k == 0 {
      assert lines[0..] == lines;
    } else {
      var all := lines[..k];
      assert FieldOk(texts, all, kwargs, 0) && all[0] == lines[0];
      HeaderRest(texts, lines, kwargs, k);
      var words := Words(Chop(lines[0]));
      var next := ReadField(texts, words[0], words[1], kwargs).value;
      HeaderGives(texts, lines[1..], next, k - 1);
      var fields := ReadFields(texts, lines, kwargs).value.0;
      forall what
        ensures HasIfGiven(fields, kwargs, all, what)
      {
        assert HasIfGiven(fields, next, lines[1..][..k - 1], what);
        GivenFirst(lines, k, what);
      }
    }
  }

  lemma GivenFirst(lines: seq<string>, k: nat, what: string)
    requires 0 < k <= |lines|
    ensures Given(lines[..k], what) <==> What(lines[0]) == what || Given(lines[1..][..k - 1], what)
  {
    var all, rest := lines[..k], lines[1..][..k - 1];
    assert all[0] == lines[0] && forall i :: 0 <= i < |rest| ==> rest[i] == all[i + 1];
    if Given(all, what) {
      var i :| 0 <= i < |all| && What(all[i]) == what;
      if i > 0 {
        assert What(rest[i - 1]) == what;
      }
    }
  }

  lemma {:induction false} RowsRead(texts: Texts, lines: seq<string>, files: Files)
    ensures ReadFileLines(texts, lines, files).Ok? <==> forall i :: 0 <= i < |lines| ==> ReadFile(texts, lines[i]).Ok?
    decreases |lines|
  {
    if lines != [] && ReadFile(texts, lines[0]).Ok? {
      RowsRead(texts, lines[1..], WithFile(files, ReadFile(texts, lines[0]).value));
      assert forall i :: 0 < i < |lines| ==> lines[i] == lines[1..][i - 1];
    }
  }

  ghost predicate SourceEnds(texts: Texts, lines: seq<string>, k: nat)
  {
    && HeaderEnds(texts, lines, Fields(map[], map[]), k)
    && Given(lines[..k], "name") && Given(lines[..k], "version") && Given(lines[..k], "branch")
    && forall i :: k < i < |lines| ==> ReadFile(texts, lines[i]).Ok?
  }

  /** A state is read exactly if its header is, with a name, a version and a branch, and so is each line after the one
      that ends the header. */
  lemma {:induction false} SourcesRead(texts: Texts, lines: seq<string>)
    ensures ReadSource(texts, lines).Ok? <==> exists k: nat :: SourceEnds(texts, lines, k)
  {
    var none := Fields(map[], map[]);
    HeadersRead(texts, lines, none);
    forall k: nat | HeaderEnds(texts, lines, none, k)
      ensures ReadSource(texts, lines).Ok? <==> SourceEnds(texts, lines, k)
    {
      SourceReadAt(texts, lines, k);
    }
  }

  lemma SourceReadAt(texts: Texts, lines: seq<string>, k: nat)
    requires HeaderEnds(texts, lines, Fields(map[], map[]), k)
    ensures ReadSource(texts, lines).Ok? <==> SourceEnds(texts, lines, k)
  {
    var none := Fields(map[], map[]);
    HeaderGives(texts, lines, none, k);
    var (fields, rest) := ReadFields(texts, lines, none).value;
    assert HasIfGiven(fields, none, lines[..k], "name");
    assert HasIfGiven(fields, none, lines[..k], "version");
    assert HasIfGiven(fields, none, lines[..k], "branch");
    RowsRead(texts, After(rest), Files(map[], map[]));
    RowsAfterRead(texts, lines, k);
  }

  lemma RowsAfterRead(texts: Texts, lines: seq<string>, k: nat)
    requires k <= |lines|
    ensures var rows := After(lines[k..]);
            (forall i :: 0 <= i < |rows| ==> ReadFile(texts, rows[i]).Ok?)
            <==> forall i :: k < i < |lines| ==> ReadFile(texts, lines[i]).Ok?
  {
    var rows := After(lines[k..]);
    RowsAfter(lines, k);
    if forall i :: 0 <= i < |rows| ==> ReadFile(texts, rows[i]).Ok? {
      forall i | k < i < |lines|
        ensures ReadFile(texts, lines[i]).Ok?
      {
        assert rows[i - k - 1] == lines[i];
      }
    }
  }

  lemma RowsAfter(lines: seq<string>, k: nat)
    requires k <= |lines|
    ensures |After(lines[k..])| == if k == |lines| then 0 else |lines| - k - 1
    ensures forall i :: 0 <= i < |After(lines[k..])| ==> After(lines[k..])[i] == lines[k + 1 + i]
  {
  }

  // ---------------------------------------------------------------- the class

  class SourceState {
    var name: string
    var version: StateVersion
    var branch: StateVersion
    var lastMerged: Option<StateVersion>
    var factory: string
    var idMap: map<string, FileEntry>
    var fileInfo: map<string, FileInfo>

    constructor (name: string, version: StateVersion, branch: StateVersion, lastMerged: Option<StateVersion>, factory: string)
      ensures Value() == Source(name, version, branch, lastMerged, factory, map[], map[])
    {
      this.name, this.version, this.branch, this.lastMerged, this.factory := name, version, branch, lastMerged, factory;
      idMap, fileInfo := map[], map[];
    }

    function Value(): Source
      reads this
    {
      Source(name, version, branch, lastMerged, factory, idMap, fileInfo)
    }

    /** `addFile` */
    method AddFile(pathId: string, path: string, version: FileVersion, fileId: string, isConfig: bool, isAutoSource: bool)
      modifies this`idMap, this`fileInfo
      ensures idMap == old(idMap)[pathId := FileEntry(SplitPath(path), fileId, version)]
      ensures fileInfo == old(fileInfo)[pathId := FileInfo(isConfig, false, isAutoSource)]
    {
      idMap := idMap[pathId := FileEntry(SplitPath(path), fileId, version)];
      fileInfo := fileInfo[pathId := FileInfo(isConfig, false, isAutoSource)];
    }

    /** `fileNeedsRefresh(pathId, set)` */
    method SetRefresh(pathId: string, refresh: bool)
      requires pathId in fileInfo
      modifies this`fileInfo
      ensures fileInfo == old(fileInfo)[pathId := old(fileInfo)[pathId].(refresh := refresh)]
    {
      fileInfo := fileInfo[pathId := fileInfo[pathId].(refresh := refresh)];
    }

    /** `_write` */
    method Write(texts: Texts) returns (lines: seq<string>)
      requires Writable(Value())
      ensures Written(texts, Value(), lines)
    {
      lines := [FieldLine("name", name), FieldLine("version", texts.freeze(version)), FieldLine("branch", texts.freeze(branch))];
      if lastMerged.Some? {
        lines := lines + [FieldLine("lastmerged", texts.freeze(lastMerged.value))];
      }
      if factory != "" {
        lines := lines + [FieldLine("factory", factory)];
      }
      assert lines == Header(texts, Value());
      var rc := WriteFiles(texts, Value());
      lines := lines + [CountLine(|rc|)] + rc;
      ghost var order :| Complete(Value(), order) && rc == FileLines(texts, Value(), order);
      FileLinesCount(texts, Value(), order);
      assert lines == SourceLines(texts, Value(), order);
    }

    /** One line of `_readFileList`. */
    method ReadRow(texts: Texts, line: string) returns (error: Option<string>)
      modifies this`idMap, this`fileInfo
      ensures var row := ReadFile(texts, line);
              if error.None? then row.Ok? && Files(idMap, fileInfo) == WithFile(old(Files(idMap, fileInfo)), row.value)
              else row == Err(error.value)
    {
      var row := ReadFile(texts, line);
      if row.Err? {
        return Some(row.error);
      }
      SplitOfRow(texts, line);
      AddRow(row.value, RowPath(line));
      error := None;
    }

    method AddRow(row: FileRow, path: string)
      requires row.entry.place == SplitPath(path)
      modifies this`idMap, this`fileInfo
      ensures Files(idMap, fileInfo) == WithFile(old(Files(idMap, fileInfo)), row)
    {
      AddFile(row.pathId, path, row.entry.version, row.entry.fileId, row.info.isConfig, row.info.isAutoSource);
      SetRefresh(row.pathId, row.info.refresh);
    }

    /** `_readFileList` */
    method ReadFileList(texts: Texts, lines: seq<string>) returns (error: Option<string>)
      requires idMap == map[] && fileInfo == map[]
      modifies this`idMap, this`fileInfo
      ensures var r := ReadFileLines(texts, After(lines), Files(map[], map[]));
              if error.None? then r == Ok(Files(idMap, fileInfo)) else r == Err(error.value)
    {
      var rows := After(lines);
      ghost var whole := ReadFileLines(texts, rows, Files(map[], map[]));
      assert rows[0..] == rows;
      for i := 0 to |rows|
        invariant whole == ReadFileLines(texts, rows[i..], Files(idMap, fileInfo))
      {
        assert rows[i..][0] == rows[i] && rows[i..][1..] == rows[i + 1..];
        error := ReadRow(texts, rows[i]);
        if error.Some? {
          return;
        }
      }
      error := None;
    }
  }

  method WriteFiles(texts: Texts, s: Source) returns (rc: seq<string>)
    requires Writable(s)
    ensures FilesWritten(texts, s, rc)
  {
    ByTextIsTotal();
    var order := Sort(s.idMap.Keys, ByText());
    assert forall i :: 0 <= i < |order| ==> order[i] in order;
    rc := WriteInOrder(texts, s, order);
    SortedCount(ByText(), order, s.idMap.Keys);
    assert Complete(s, order);
  }

  lemma NextFileLine(texts: Texts, s: Source, order: seq<string>, i: nat)
    requires Listed(s, order) && i < |order|
    ensures Listed(s, order[..i]) && Listed(s, order[..i + 1])
    ensures FileLines(texts, s, order[..i + 1]) == FileLines(texts, s, order[..i]) + [LineOf(texts, s, order[i])]
  {
    var before, pathId := order[..i], order[i];
    assert HasFile(s, pathId) && Listed(s, before);
    FileLinesMore(texts, s, before, pathId);
    NextPrefix(order, i);
  }

  method WriteInOrder(texts: Texts, s: Source, order: seq<string>) returns (rc: seq<string>)
    requires Listed(s, order)
    ensures rc == FileLines(texts, s, order)
  {
    rc := [];
    for i := 0 to |order|
      invariant Listed(s, order[..i]) && rc == FileLines(texts, s, order[..i])
    {
      NextFileLine(texts, s, order, i);
      rc := rc + [LineOf(texts, s, order[i])];
    }
    assert order[..|order|] == order;
  }

  /** The path of a row, before it is split. */
  function RowPath(line: string): string
  {
    var fields := Words(Chop(line));
    if |fields| < 4 then "" else Join(fields[1..|fields| - 3], ' ')
  }

  lemma SplitOfRow(texts: Texts, line: string)
    requires ReadFile(texts, line).Ok?
    ensures ReadFile(texts, line).value.entry.place == SplitPath(RowPath(line))
  {
  }

  lemma {:induction false} FileLinesMore(texts: Texts, s: Source, order: seq<string>, pathId: string)
    requires Listed(s, order) && HasFile(s, pathId)
    ensures Listed(s, order + [pathId])
    ensures FileLines(texts, s, order + [pathId])
         == FileLines(texts, s, order) + [LineOf(texts, s, pathId)]
  {
    var more, line := order + [pathId], LineOf(texts, s, pathId);
    if order == [] {
      assert more[1..] == [];
      assert FileLines(texts, s, more) == [line] + FileLines(texts, s, []);
    } else {
      var rest, first := order[1..], LineOf(texts, s, order[0]);
      assert more[0] == order[0] && more[1..] == rest + [pathId];
      FileLinesMore(texts, s, rest, pathId);
      assert FileLines(texts, s, more) == [first] + (FileLines(texts, s, rest) + [line]);
      assert FileLines(texts, s, order) == [first] + FileLines(texts, s, rest);
    }
  }

  lemma {:induction false} FileLinesCount(texts: Texts, s: Source, order: seq<string>)
    requires Listed(s, order)
    ensures |FileLines(texts, s, order)| == |order|
  {
    if order != [] {
      FileLinesCount(texts, s, order[1..]);
    }
  }

  /** `parseLines`: lines are deleted as they are consumed. */
  method ParseLines(texts: Texts, lines0: seq<string>) returns (r: Result<SourceState>)
    ensures r.Ok? ==> fresh(r.value) && ReadSource(texts, lines0) == Ok(r.value.Value())
    ensures r.Err? ==> ReadSource(texts, lines0) == Err(r.error)
  {
    var lines := lines0;
    var kwargs := Fields(map[], map[]);
    ghost var whole := ReadFields(texts, lines, kwargs);
    while lines != []
      invariant whole == ReadFields(texts, lines, kwargs)
      decreases |lines|
    {
      var fields := Words(Chop(lines[0]));
      if |fields| == 1 {
        break;
      }
      if |fields| != 2 {
        return Err("AssertionError");
      }
      lines := lines[1..];
      var next := ReadField(texts, fields[0], fields[1], kwargs);
      if next.Err? {
        return Err(next.error);
      }
      kwargs := next.value;
    }
    assert whole == Ok((kwargs, lines));
    if "name" !in kwargs.words || "branch" !in kwargs.versions || "version" !in kwargs.versions {
      return Err("AssertionError");
    }
    var source := new SourceState(kwargs.words["name"], kwargs.versions["version"], kwargs.versions["branch"],
                                  if "lastmerged" in kwargs.versions then Some(kwargs.versions["lastmerged"]) else None,
                                  if "factory" in kwargs.words then kwargs.words["factory"] else "");
    var error := source.ReadFileList(texts, lines);
    r := if error.Some? then Err(error.value) else Ok(source);
  }

  // ---------------------------------------------------------------- round trip

  lemma DecimalIsWord(n: nat)
    ensures OneWord(Decimal(n))
  {
    assert forall i :: 0 <= i < |Decimal(n)| ==> IsDigit(Decimal(n)[i]);
  }

  /** A field that was written is read. */
  lemma FieldBack(texts: Texts, what: string, value: string, rest: seq<string>, kwargs: Fields)
    requires OneWord(what) && OneWord(value)
    ensures var next := ReadField(texts, what, value, kwargs);
            ReadFields(texts, [FieldLine(what, value)] + rest, kwargs)
            == if next.Err? then Err(next.error) else ReadFields(texts, rest, next.value)
  {
    var line := FieldLine(what, value);
    assert Chop(line) == what + " " + value;
    WordThen(what, value);
    WordsOfWord(value);
    assert ([line] + rest)[1..] == rest;
  }

  lemma CountEndsFields(texts: Texts, n: nat, rest: seq<string>, kwargs: Fields)
    ensures ReadFields(texts, [CountLine(n)] + rest, kwargs) == Ok((kwargs, [CountLine(n)] + rest))
  {
    DecimalIsWord(n);
    WordsOfWord(Decimal(n));
    assert Chop(CountLine(n)) == Decimal(n);
  }

  /** The keyword arguments that the header of a state gives. */
  function KwargsOf(s: Source): Fields
  {
    var words := map["name" := s.name];
    var versions := map["version" := s.version, "branch" := s.branch];
    Fields(if s.factory != "" then words["factory" := s.factory] else words,
           if s.lastMerged.Some? then versions["lastmerged" := s.lastMerged.value] else versions)
  }

  lemma FactoryBack(texts: Texts, s: Source, rest: seq<string>, kwargs: Fields)
    requires s.factory == "" || OneWord(s.factory)
    requires "factory" !in kwargs.words && "factory" !in kwargs.versions
    ensures ReadFields(texts, (if s.factory != "" then [FieldLine("factory", s.factory)] else []) + rest, kwargs)
         == ReadFields(texts, rest,
                       if s.factory != "" then kwargs.(words := kwargs.words["factory" := s.factory]) else kwargs)
  {
    if s.factory != "" {
      FieldBack(texts, "factory", s.factory, rest, kwargs);
    } else {
      assert [] + rest == rest;
    }
  }

  lemma TailBack(texts: Texts, s: Source, rest: seq<string>, kwargs: Fields)
    requires SourceOk(texts, s) && kwargs == Fields(map["name" := s.name], map["version" := s.version, "branch" := s.branch])
    ensures ReadFields(texts, Tail(texts, s) + rest, kwargs) == ReadFields(texts, rest, KwargsOf(s))
  {
    var factory := if s.factory != "" then [FieldLine("factory", s.factory)] else [];
    if s.lastMerged.Some? {
      var text := texts.freeze(s.lastMerged.value);
      var mid := kwargs.(versions := kwargs.versions["lastmerged" := s.lastMerged.value]);
      assert Tail(texts, s) + rest == [FieldLine("lastmerged", text)] + (factory + rest);
      FieldBack(texts, "lastmerged", text, factory + rest, kwargs);
      FactoryBack(texts, s, rest, mid);
    } else {
      assert Tail(texts, s) + rest == factory + rest;
      FactoryBack(texts, s, rest, kwargs);
    }
  }

  /** The version and the branch, behind the name. */
  lemma VersionsBack(texts: Texts, s: Source, rest: seq<string>, named: Fields)
    requires Freezes(texts, s.version) && Freezes(texts, s.branch) && named == Fields(map["name" := s.name], map[])
    ensures ReadFields(texts, [FieldLine("version", texts.freeze(s.version)), FieldLine("branch", texts.freeze(s.branch))] + rest,
                       named)
         == ReadFields(texts, rest, Fields(named.words, map["version" := s.version, "branch" := s.branch]))
  {
    var v, b := FieldLine("version", texts.freeze(s.version)), FieldLine("branch", texts.freeze(s.branch));
    var mid := Fields(named.words, map["version" := s.version]);
    assert [v, b] + rest == [v] + ([b] + rest);
    FieldBack(texts, "version", texts.freeze(s.version), [b] + rest, named);
    assert named.versions["version" := s.version] == mid.versions;
    FieldBack(texts, "branch", texts.freeze(s.branch), rest, mid);
    assert mid.versions["branch" := s.branch] == map["version" := s.version, "branch" := s.branch];
  }

  lemma HeaderBack(texts: Texts, s: Source, rest: seq<string>)
    requires SourceOk(texts, s)
    ensures ReadFields(texts, Header(texts, s) + rest, Fields(map[], map[])) == ReadFields(texts, rest, KwargsOf(s))
  {
    var tail := Tail(texts, s) + rest;
    var versions := [FieldLine("version", texts.freeze(s.version)), FieldLine("branch", texts.freeze(s.branch))];
    var named := Fields(map["name" := s.name], map[]);
    assert Header(texts, s) + rest == [FieldLine("name", s.name)] + (versions + tail);
    FieldBack(texts, "name", s.name, versions + tail, Fields(map[], map[]));
    assert map[]["name" := s.name] == named.words;
    VersionsBack(texts, s, tail, named);
    TailBack(texts, s, rest, Fields(named.words, map["version" := s.version, "branch" := s.branch]));
  }

  /** A file as it comes back. */
  function Respaced(f: FileEntry): FileEntry
  {
    f.(place := SplitPath(Join(Words(PathOf(f.place)), ' ')))
  }

  function FilesBack(s: Source, order: seq<string>, files: Files): Files
    requires Listed(s, order)
    decreases |order|
  {
    if order == [] then files
    else FilesBack(s, order[1..], WithFile(files, FileRow(order[0], Respaced(s.idMap[order[0]]), s.fileInfo[order[0]])))
  }

  lemma {:induction false} FileLinesBack(texts: Texts, s: Source, order: seq<string>, files: Files)
    requires SourceOk(texts, s) && Listed(s, order)
    ensures ReadFileLines(texts, FileLines(texts, s, order), files) == Ok(FilesBack(s, order, files))
    decreases |order|
  {
    if order != [] {
      var p := order[0];
      var rows := FileLines(texts, s, order);
      assert EntryOk(texts, p, s.idMap[p]);
      FileReadBack(texts, p, s.idMap[p], s.fileInfo[p]);
      assert rows[1..] == FileLines(texts, s, order[1..]);
      FileLinesBack(texts, s, order[1..], WithFile(files, FileRow(p, Respaced(s.idMap[p]), s.fileInfo[p])));
    }
  }

  lemma {:induction false} FilesBackAre(s: Source, order: seq<string>, files: Files, p: string)
    requires Listed(s, order)
    ensures var r := FilesBack(s, order, files);
            && (p in r.idMap <==> p in order || p in files.idMap) && (p in r.fileInfo <==> p in order || p in files.fileInfo)
            && (p in order ==> r.idMap[p] == Respaced(s.idMap[p]) && r.fileInfo[p] == s.fileInfo[p])
            && (p in files.idMap && p !in order ==> r.idMap[p] == files.idMap[p])
            && (p in files.fileInfo && p !in order ==> r.fileInfo[p] == files.fileInfo[p])
    decreases |order|
  {
    if order != [] {
      var first := order[0];
      FilesBackAre(s, order[1..], WithFile(files, FileRow(first, Respaced(s.idMap[first]), s.fileInfo[first])), p);
      assert p in order <==> p == first || p in order[1..];
    }
  }

  /** The state that comes back: only the paths may differ. */
  function Back(s: Source): Source
  {
    s.(idMap := map p | p in s.idMap :: Respaced(s.idMap[p]))
  }

  lemma {:induction false} FileIsBack(s: Source, order: seq<string>, p: string)
    requires Listed(s, order) && s.fileInfo.Keys == s.idMap.Keys && (p in order <==> p in s.idMap)
    ensures var files := FilesBack(s, order, Files(map[], map[]));
            SameAt(files.idMap, Back(s).idMap, p) && SameAt(files.fileInfo, s.fileInfo, p)
  {
    FilesBackAre(s, order, Files(map[], map[]), p);
  }

  lemma AllFilesBack(texts: Texts, s: Source, order: seq<string>)
    requires SourceOk(texts, s) && Listed(s, order) && forall p :: p in order <==> p in s.idMap
    ensures FilesBack(s, order, Files(map[], map[])) == Files(Back(s).idMap, s.fileInfo)
  {
    var files := FilesBack(s, order, Files(map[], map[]));
    forall p
      ensures SameAt(files.idMap, Back(s).idMap, p) && SameAt(files.fileInfo, s.fileInfo, p)
    {
      FileIsBack(s, order, p);
    }
    SameMaps(files.idMap, Back(s).idMap);
    SameMaps(files.fileInfo, s.fileInfo);
  }

  lemma KwargsMakeSource(s: Source, files: Files)
    ensures MakeSource(KwargsOf(s), files) == Ok(s.(idMap := files.idMap, fileInfo := files.fileInfo))
  {
  }

  lemma {:induction false} SourceReadBack(texts: Texts, s: Source, order: seq<string>)
    requires SourceOk(texts, s) && Listed(s, order) && forall p :: p in order <==> p in s.idMap
    ensures ReadSource(texts, SourceLines(texts, s, order)) == Ok(Back(s))
  {
    var none := Files(map[], map[]);
    var rows := FileLines(texts, s, order);
    var rest := [CountLine(|order|)] + rows;
    assert SourceLines(texts, s, order) == Header(texts, s) + rest;
    HeaderBack(texts, s, rest);
    CountEndsFields(texts, |order|, rows, KwargsOf(s));
    assert After(rest) == rows;
    FileLinesBack(texts, s, order, none);
    AllFilesBack(texts, s, order);
    KwargsMakeSource(s, none);
    KwargsMakeSource(s, FilesBack(s, order, none));
  }

  lemma RespacedIsSame(texts: Texts, p: string, f: FileEntry, info: FileInfo)
    requires EntryOk(texts, p, f)
    ensures Respaced(f) == f <==> SingleSpaced(PathOf(f.place))
  {
    FileReadBack(texts, p, f, info);
    FileRoundTrip(texts, p, f, info);
  }

  /** Every path is as splitting at blanks and joining with spaces leaves it. */
  predicate PathsPlain(s: Source)
  {
    FilesPlain(s.idMap)
  }

  lemma {:induction false} BackIsSame(texts: Texts, s: Source)
    requires SourceOk(texts, s)
    ensures Back(s) == s <==> PathsPlain(s)
  {
    var back := Back(s).idMap;
    forall p
      ensures SameAt(back, s.idMap, p) <==> (p in s.idMap ==> SingleSpaced(PathOf(s.idMap[p].place)))
    {
      if p in s.idMap {
        RespacedIsSame(texts, p, s.idMap[p], s.fileInfo[p]);
      }
    }
    if PathsPlain(s) {
      SameMaps(back, s.idMap);
    } else {
      assert back == s.idMap ==> forall p :: SameAt(back, s.idMap, p);
    }
  }

  // What the reader gives is always plain.

  predicate AllWords(words: map<string, string>)
  {
    forall what :: what in words ==> OneWord(words[what])
  }

  lemma {:induction false} FieldsAreWords(texts: Texts, lines: seq<string>, kwargs: Fields)
    requires AllWords(kwargs.words) && ReadFields(texts, lines, kwargs).Ok?
    ensures AllWords(ReadFields(texts, lines, kwargs).value.0.words)
  {
    if lines != [] {
      var fields := Words(Chop(lines[0]));
      WordsAreWords(Chop(lines[0]));
      if |fields| == 2 {
        assert OneWord(fields[1]);
        var next := ReadField(texts, fields[0], fields[1], kwargs);
        FieldsAreWords(texts, lines[1..], next.value);
      }
    }
  }

  lemma SplitStaysPlain(p: string)
    requires SingleSpaced(p)
    ensures SingleSpaced(PathOf(SplitPath(p)))
  {
    var i := BaseStart(p);
    var head, tail := p[..i], p[i..];
    assert p == head + tail;
    if !AllSlashes(head) {
      StripSlashesNormal(head);
      SplitInTwo(p, StripSlashes(head), head, tail);
    }
  }

  /** One slash does for several. */
  lemma SplitInTwo(p: string, dir: string, head: string, tail: string)
    requires p == head + tail && SingleSpaced(p)
    requires dir <= head && |dir| < |head| && head[|dir|] == '/' && head[|head| - 1] == '/'
    ensures SingleSpaced(dir + "/" + tail)
  {
    var q := dir + "/" + tail;
    forall k | 0 <= k < |q| && IsSpace(q[k])
      ensures q[k] == ' ' && BlankBetween(q, k)
    {
      var m := if k < |dir| then k else k - |dir| - 1 + |head|;
      assert q[k] == p[m] && BlankBetween(p, m);
    }
  }

  lemma RowIsPlain(texts: Texts, line: string)
    requires ReadFile(texts, line).Ok?
    ensures SingleSpaced(PathOf(ReadFile(texts, line).value.entry.place))
  {
    var fields := Words(Chop(line));
    WordsAreWords(Chop(line));
    JoinedIsSingleSpaced(fields[1..|fields| - 3]);
    SplitStaysPlain(Join(fields[1..|fields| - 3], ' '));
  }

  predicate FilesPlain(idMap: map<string, FileEntry>)
  {
    forall p :: p in idMap ==> SingleSpaced(PathOf(idMap[p].place))
  }

  lemma {:induction false} FilesArePlain(texts: Texts, lines: seq<string>, files: Files)
    requires FilesPlain(files.idMap) && ReadFileLines(texts, lines, files).Ok?
    ensures FilesPlain(ReadFileLines(texts, lines, files).value.idMap)
    decreases |lines|
  {
    if lines != [] {
      RowIsPlain(texts, lines[0]);
      FilesArePlain(texts, lines[1..], WithFile(files, ReadFile(texts, lines[0]).value));
    }
  }

  lemma ReadSourceIsPlain(texts: Texts, lines: seq<string>)
    requires ReadSource(texts, lines).Ok?
    ensures NamesOk(ReadSource(texts, lines).value) && PathsPlain(ReadSource(texts, lines).value)
  {
    var fields := ReadFields(texts, lines, Fields(map[], map[]));
    FieldsAreWords(texts, lines, Fields(map[], map[]));
    FilesArePlain(texts, After(fields.value.1), Files(map[], map[]));
  }

  /** Reading what was written gives the same state exactly if its name and factory are words and no path
      has other blanks than single spaces inside. */
  lemma SourceRoundTrip(texts: Texts, s: Source, lines: seq<string>)
    requires Storable(texts, s) && Written(texts, s, lines)
    ensures ReadSource(texts, lines) == Ok(s) <==> NamesOk(s) && PathsPlain(s)
  {
    if NamesOk(s) {
      var order :| Complete(s, order) && lines == SourceLines(texts, s, order);
      SourceReadBack(texts, s, order);
      BackIsSame(texts, s);
    } else if ReadSource(texts, lines).Ok? {
      ReadSourceIsPlain(texts, lines);
    }
  }
}
