/** The CONARY state file, version 2: what is written into it and how it is read back. */
module StateFile {
  import opened Text
  import opened Blanks
  import opened Framing
  import opened Paths
  import Versions

  // ---------------------------------------------------------------- file flags

  datatype FileInfo = FileInfo(isConfig: bool, refresh: bool, isAutoSource: bool)

  function Flags(info: FileInfo): seq<string>
  {
    (if info.isConfig then ["config"] else []) + (if info.refresh then ["refresh"] else [])
    + (if info.isAutoSource then ["autosource"] else [])
  }

  /** `FileInfo.__str__` */
  function InfoText(info: FileInfo): string
  {
    if Flags(info) != [] then Join(Flags(info), '/') else "_"
  }

  /** What is not known is ignored. */
  /** The flags that are set, in this order, or an underscore. */
  lemma {:induction false} InfoTexts()
    ensures InfoText(FileInfo(false, false, false)) == "_"
    ensures InfoText(FileInfo(true, false, false)) == "config"
    ensures InfoText(FileInfo(false, true, false)) == "refresh"
    ensures InfoText(FileInfo(false, false, true)) == "autosource"
    ensures InfoText(FileInfo(true, true, true)) == "config/refresh/autosource"
  {
    assert Flags(FileInfo(true, true, true))[1..] == ["refresh", "autosource"];
    assert ["refresh", "autosource"][1..] == ["autosource"];
    assert Join(["refresh", "autosource"], '/') == "refresh" + ['/'] + Join(["autosource"], '/');
  }

  function AddFlag(info: FileInfo, item: string): FileInfo
  {
    if item == "config" then info.(isConfig := true)
    else if item == "refresh" then info.(refresh := true)
    else if item == "autosource" then info.(isAutoSource := true)
    else info
  }

  function AddFlags(info: FileInfo, items: seq<string>): FileInfo
    decreases |items|
  {
    if items == [] then info else AddFlags(AddFlag(info, items[0]), items[1..])
  }

  const NO_FLAGS := FileInfo(false, false, false)

  /** `FileInfo(str = ...)` */
  function ReadInfo(text: string): FileInfo
  {
    if text == "" || text == "_" then NO_FLAGS else AddFlags(NO_FLAGS, Split(text, '/'))
  }

  lemma {:induction false} JoinedWord(l: seq<string>, c: char)
    requires l != [] && !IsSpace(c) && forall i :: 0 <= i < |l| ==> OneWord(l[i])
    ensures OneWord(Join(l, c)) && |Join(l, c)| >= |l[0]|
  {
    if |l| > 1 {
      assert OneWord(l[0]) && forall i :: 0 <= i < |l[1..]| ==> l[1..][i] == l[i + 1];
      JoinedWord(l[1..], c);
    }
  }

  lemma FlagsBack(info: FileInfo)
    ensures AddFlags(NO_FLAGS, Flags(info)) == info
  {
    var c, r, a := info.isConfig, info.refresh, info.isAutoSource;
    var tail := if a then ["autosource"] else [];
    var mid := (if r then ["refresh"] else []) + tail;
    assert AddFlags(FileInfo(c, r, false), tail) == info by {
      if a {
        assert tail[1..] == [];
      }
    }
    assert AddFlags(FileInfo(c, false, false), mid) == info by {
      if r {
        assert mid[1..] == tail;
      } else {
        assert mid == tail;
      }
    }
    if c {
      assert Flags(info)[1..] == mid;
    } else {
      assert Flags(info) == mid;
    }
  }

  predicate FlagText(s: string)
  {
    OneWord(s) && Free(s, '/') && |s| >= 6
  }

  lemma FlagsAreWords(info: FileInfo)
    ensures forall i :: 0 <= i < |Flags(info)| ==> FlagText(Flags(info)[i])
  {
    assert FlagText("config") && FlagText("refresh") && FlagText("autosource");
  }

  lemma {:induction false} InfoRoundTrip(info: FileInfo)
    ensures ReadInfo(InfoText(info)) == info && OneWord(InfoText(info))
  {
    var l := Flags(info);
    FlagsBack(info);
    FlagsAreWords(info);
    if l != [] {
      SplitJoin(l, '/');
      assert FlagText(l[0]);
      JoinedWord(l, '/');
    }
  }

  // ---------------------------------------------------------------- ids

  const HEX: string := "0123456789abcdef"

  /** `md5ToString` and `sha1ToString` */
  function ToHex(s: string): string
    requires IsBytes(s)
  {
    if s == "" then "" else [HEX[s[0] as nat / 16], HEX[s[0] as nat % 16]] + ToHex(s[1..])
  }

  /** Two digits for each byte, the high one first. */
  lemma {:induction false} HexAt(s: string, i: nat)
    requires IsBytes(s) && i < |s|
    ensures |ToHex(s)| == 2 * |s|
    ensures ToHex(s)[2 * i] == HEX[s[i] as nat / 16] && ToHex(s)[2 * i + 1] == HEX[s[i] as nat % 16]
  {
    if i > 0 {
      HexAt(s[1..], i - 1);
    } else if |s| > 1 {
      HexAt(s[1..], 0);
    } else {
      assert s[1..] == "" && ToHex(s[1..]) == "";
    }
  }

  function Digit(c: char): Option<nat>
  {
    if '0' <= c <= '9' then Some(c as nat - '0' as nat)
    else if 'a' <= c <= 'f' then Some(c as nat - 'a' as nat + 10)
    else if 'A' <= c <= 'F' then Some(c as nat - 'A' as nat + 10)
    else None
  }

  const UPPER_HEX: string := "0123456789ABCDEF"

  /** Digits are read in either case, and nothing else is. */
  lemma DigitsAre(c: char, n: nat)
    requires n < 16
    ensures Digit(c) == Some(n) <==> c == HEX[n] || c == UPPER_HEX[n]
  {
    if c == HEX[n] || c == UPPER_HEX[n] {
      assert HEX == "0123456789abcdef" && UPPER_HEX == "0123456789ABCDEF";
    }
  }

  /** `md5FromString` and `sha1FromString`, which insist on the length. */
  function FromHex(s: string, length: nat): Result<string>
  {
    if |s| != 2 * length then Err("AssertionError") else HexBytes(s)
  }

  function HexBytes(s: string): Result<string>
  {
    if s == "" then Ok("")
    else if |s| == 1 then Err("ValueError")
    else
      var high, low, rest := Digit(s[0]), Digit(s[1]), HexBytes(s[2..]);
      if high.None? || low.None? then Err("ValueError")
      else if rest.Err? then rest
      else Ok([(high.value * 16 + low.value) as char] + rest.value)
  }

  lemma HexDigit(n: nat)
    requires n < 16
    ensures Digit(HEX[n]) == Some(n) && !IsSpace(HEX[n])
  {
  }

  lemma {:induction false} HexIsText(s: string)
    requires IsBytes(s)
    ensures |ToHex(s)| == 2 * |s|
    ensures forall i :: 0 <= i < |ToHex(s)| ==> !IsSpace(ToHex(s)[i])
  {
    if s != "" {
      HexIsText(s[1..]);
      HexDigit(s[0] as nat / 16);
      HexDigit(s[0] as nat % 16);
    }
  }

  lemma {:induction false} HexByte(c: char)
    requires c < 256 as char
    ensures var high, low := Digit(HEX[c as nat / 16]), Digit(HEX[c as nat % 16]);
            high.Some? && low.Some? && high.value * 16 + low.value == c as nat
  {
    HexDigit(c as nat / 16);
    HexDigit(c as nat % 16);
  }

  lemma {:induction false} HexRoundTrip(s: string)
    requires IsBytes(s)
    ensures HexBytes(ToHex(s)) == Ok(s)
  {
    if s != "" {
      var t := ToHex(s);
      assert t[0] == HEX[s[0] as nat / 16] && t[1] == HEX[s[0] as nat % 16] && t[2..] == ToHex(s[1..]);
      HexByte(s[0]);
      HexRoundTrip(s[1..]);
      assert s == [s[0]] + s[1..];
    }
  }

  // ---------------------------------------------------------------- versions

  /** A version, or the marker for one that is still to be made. */
  datatype FileVersion = NewFile | OfFile(version: Versions.Version)
  datatype StateVersion = NewVersion | Known(version: Versions.Version, stamps: seq<string>)

  /** How versions become text and back: `asString`, `VersionFromString`, `freeze` and `ThawVersion`.
      `ProgramTexts` is what the program uses. */
  datatype Texts = Texts(show: FileVersion -> string, read: string -> Result<FileVersion>,
                         freeze: StateVersion -> string, thaw: string -> Result<StateVersion>)

  ghost predicate Shows(texts: Texts, v: FileVersion)
  {
    OneWord(texts.show(v)) && texts.read(texts.show(v)) == Ok(v)
  }

  ghost predicate Freezes(texts: Texts, v: StateVersion)
  {
    OneWord(texts.freeze(v)) && texts.thaw(texts.freeze(v)) == Ok(v)
  }

  // ---------------------------------------------------------------- the state

  datatype FileEntry = FileEntry(place: Place, fileId: string, version: FileVersion)

  /** What a `SourceState` holds. */
  datatype Source = Source(name: string, version: StateVersion, branch: StateVersion,
                           lastMerged: Option<StateVersion>, factory: string,
                           idMap: map<string, FileEntry>, fileInfo: map<string, FileInfo>)

  // ---------------------------------------------------------------- one file

  function FileLine(texts: Texts, pathId: string, f: FileEntry, info: FileInfo): string
    requires IsBytes(pathId) && IsBytes(f.fileId)
  {
    ToHex(pathId) + " " + PathOf(f.place) + " " + ToHex(f.fileId) + " " + InfoText(info) + " " + texts.show(f.version) + "\n"
  }

  /** `line[:-1]` */
  function Chop(line: string): string
  {
    if line == "" then "" else line[..|line| - 1]
  }

  datatype FileRow = FileRow(pathId: string, entry: FileEntry, info: FileInfo)

  /** One line of `_readFileList`: fields are popped from both ends, and what is left is the path. */
  function ReadFile(texts: Texts, line: string): Result<FileRow>
  {
    var fields := Words(Chop(line));
    var n := |fields|;
    if n == 0 then Err("IndexError")
    else
      var pathId := FromHex(fields[0], 16);
      if pathId.Err? then Err(pathId.error)
      else if n == 1 then Err("IndexError")
      else
        var version := texts.read(fields[n - 1]);
        if version.Err? then Err(version.error)
        else if n < 4 then Err("IndexError")
        else
          var info, fileId := ReadInfo(fields[n - 2]), FromHex(fields[n - 3], 20);
          if fileId.Err? then Err(fileId.error)
          else
            var path := Join(fields[1..n - 3], ' ');
            Ok(FileRow(pathId.value, FileEntry(SplitPath(path), fileId.value, version.value), info))
  }

  /** A file as `addFile` keeps it. */
  ghost predicate EntryOk(texts: Texts, pathId: string, f: FileEntry)
  {
    && |pathId| == 16 && IsBytes(pathId) && |f.fileId| == 20 && IsBytes(f.fileId)
    && Normal(f.place) && Shows(texts, f.version)
  }

  lemma LineWords(a: string, p: string, b: string, c: string, d: string)
    requires OneWord(a) && OneWord(b) && OneWord(c) && OneWord(d)
    ensures Words(a + " " + p + " " + b + " " + c + " " + d) == [a] + Words(p) + [b, c, d]
  {
    ThenWord(a + " " + p + " " + b + " " + c, d);
    ThenWord(a + " " + p + " " + b, c);
    ThenWord(a + " " + p, b);
    WordThen(a, p);
    assert [a] + Words(p) + [b] + [c] + [d] == [a] + Words(p) + [b, c, d];
  }

  lemma LineFields(texts: Texts, pathId: string, f: FileEntry, info: FileInfo)
    requires EntryOk(texts, pathId, f)
    ensures var line := FileLine(texts, pathId, f, info);
            Words(Chop(line)) == [ToHex(pathId)] + Words(PathOf(f.place))
                                 + [ToHex(f.fileId), InfoText(info), texts.show(f.version)]
  {
    HexIsText(pathId);
    HexIsText(f.fileId);
    InfoRoundTrip(info);
    LineWords(ToHex(pathId), PathOf(f.place), ToHex(f.fileId), InfoText(info), texts.show(f.version));
    ChopLine(ToHex(pathId) + " " + PathOf(f.place) + " " + ToHex(f.fileId) + " " + InfoText(info) + " " + texts.show(f.version));
  }

  lemma ChopLine(s: string)
    ensures Chop(s + "\n") == s
  {
  }

  /** A file is read back, with the blanks of its path run together. */
  lemma FileReadBack(texts: Texts, pathId: string, f: FileEntry, info: FileInfo)
    requires EntryOk(texts, pathId, f)
    ensures ReadFile(texts, FileLine(texts, pathId, f, info))
         == Ok(FileRow(pathId, f.(place := SplitPath(Join(Words(PathOf(f.place)), ' '))), info))
  {
    LineFields(texts, pathId, f, info);
    HexIsText(pathId);
    HexIsText(f.fileId);
    HexRoundTrip(pathId);
    HexRoundTrip(f.fileId);
    InfoRoundTrip(info);
    var fields := Words(Chop(FileLine(texts, pathId, f, info)));
    var n := |fields|;
    assert fields[1..n - 3] == Words(PathOf(f.place));
    assert fields[n - 1] == texts.show(f.version) && fields[n - 2] == InfoText(info) && fields[n - 3] == ToHex(f.fileId);
  }

  /** The file that comes back is the file that was written exactly if its path has no other blanks
      than single spaces inside. */
  lemma FileRoundTrip(texts: Texts, pathId: string, f: FileEntry, info: FileInfo)
    requires EntryOk(texts, pathId, f)
    ensures ReadFile(texts, FileLine(texts, pathId, f, info)) == Ok(FileRow(pathId, f, info))
            <==> SingleSpaced(PathOf(f.place))
  {
    FileReadBack(texts, pathId, f, info);
    var path := PathOf(f.place);
    var back := Join(Words(path), ' ');
    JoinUndoesWords(path);
    SplitUndoesJoin(f.place);
    JoinedIsNoLonger(path);
    JoinAfterSplit(back);
  }
}
