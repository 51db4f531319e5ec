/** The whole CONARY file: the state version, the context, and the source state if there is one. */
module ConaryStates {
  import opened Text
  import opened Blanks
  import opened Framing
  import opened StateFile
  import opened StateLines
  import Versions
  import FileLists

  const STATE_VERSION: int := 2

  // ---------------------------------------------------------------- writing

  function ContextLines(context: Option<string>): seq<string>
  {
    if context.Some? && context.value != "" then [FieldLine("context", context.value)] else []
  }

  /** The first line. */
  function FirstLine(): string
  {
    FieldLine("stateversion", Decimal(2))
  }

  lemma {:induction false} FirstLineSays()
    ensures FirstLine() == "stateversion 2\n"
  {
    assert Decimal(2) == "2";
    assert "stateversion" + " " + "2" + "\n" == "stateversion 2\n";
  }

  function StateLinesOf(context: Option<string>, source: seq<string>): seq<string>
  {
    [FirstLine()] + ContextLines(context) + source
  }

  /** The text of a state; None stands for no source state. */
  ghost predicate WrittenState(texts: Texts, context: Option<string>, source: Option<Source>, text: string)
  {
    if source.None? then text == Concat(StateLinesOf(context, []))
    else exists lines :: Written(texts, source.value, lines) && text == Concat(StateLinesOf(context, lines))
  }

  /** `write` */
  method WriteState(texts: Texts, context: Option<string>, source: SourceState?) returns (text: string)
    requires source != null ==> Writable(source.Value())
    ensures WrittenState(texts, context, if source == null then None else Some(source.Value()), text)
  {
    var lines := [FieldLine("stateversion", Decimal(2))];
    if context.Some? && context.value != "" {
      lines := lines + [FieldLine("context", context.value)];
    }
    assert lines == [FirstLine()] + ContextLines(context);
    if source == null {
      assert lines == StateLinesOf(context, []);
      text := JoinAll(lines);
    } else {
      var more := source.Write(texts);
      assert lines + more == StateLinesOf(context, more);
      text := JoinAll(lines + more);
    }
  }

  // ---------------------------------------------------------------- reading

  /** `line.split(None, 1)[1].strip()`; None is the IndexError. */
  function AfterFirst(line: string): Option<string>
  {
    var t := StripLeft(line);
    var w := FirstWord(t);
    var rest := StripLeft(t[|w|..]);
    if rest == "" then None else Some(Strip(rest))
  }

  predicate StartsWith(line: string, prefix: string)
  {
    prefix <= line
  }

  function ContextsIn(lines: seq<string>): seq<string>
  {
    if lines == [] then []
    else (if StartsWith(lines[0], "context ") then [lines[0]] else []) + ContextsIn(lines[1..])
  }

  function OthersIn(lines: seq<string>): seq<string>
  {
    if lines == [] then []
    else (if StartsWith(lines[0], "context ") then [] else [lines[0]]) + OthersIn(lines[1..])
  }

  function ReadStateVersion(line: string): Result<int>
  {
    if !StartsWith(line, "stateversion" + " ") then Ok(0)
    else
      var n := AfterFirst(line);
      if n.None? then Err("IndexError") else ParseInt(n.value)
  }

  function ReadContext(lines: seq<string>): Result<Option<string>>
  {
    var contexts := ContextsIn(lines);
    if contexts == [] then Ok(None)
    else
      var context := AfterFirst(contexts[|contexts| - 1]);
      if context.None? then Err("IndexError") else Ok(context)
  }

  function ReadRest(texts: Texts, lines: seq<string>): Result<(Option<string>, Option<Source>)>
  {
    var context := ReadContext(lines);
    var others := OthersIn(lines);
    if context.Err? then Err(context.error)
    else if others == [] then Ok((context.value, None))
    else
      var source := ReadSource(texts, others);
      if source.Err? then Err(source.error) else Ok((context.value, Some(source.value)))
  }

  /** `parseFile`; files of version 0 and 1, which need a repository to be converted, are not modelled. */
  function ReadState(texts: Texts, text: string): Result<(Option<string>, Option<Source>)>
  {
    var lines := ReadLines(text);
    if lines == [] then Err("IndexError")
    else
      var stateVersion := ReadStateVersion(lines[0]);
      if stateVersion.Err? then Err(stateVersion.error)
      else if stateVersion.value > STATE_VERSION then Err("Cannot read version")
      else if stateVersion.value < STATE_VERSION then Err("not modelled")
      else ReadRest(texts, lines[1..])
  }

  // ---------------------------------------------------------------- round trip

  /** No context, or one that is its own stripped form, on one line. */
  predicate ContextOk(context: Option<string>)
  {
    context.Some? ==>
      && context.value != "" && Free(context.value, '\n')
      && !IsSpace(context.value[0]) && !IsSpace(context.value[|context.value| - 1])
  }

  lemma StripKeeps(s: string)
    requires s != "" && !IsSpace(s[0]) && !IsSpace(s[|s| - 1])
    ensures Strip(s) == s && Strip(s + "\n") == s && StripLeft(s + "\n") == s + "\n"
  {
    assert (s + "\n")[..|s|] == s;
  }

  lemma AfterFirstField(what: string, value: string)
    requires OneWord(what) && value != "" && !IsSpace(value[0]) && !IsSpace(value[|value| - 1])
    ensures AfterFirst(FieldLine(what, value)) == Some(value)
  {
    var line := FieldLine(what, value);
    assert line == what + [' '] + (value + "\n");
    assert line[0] == what[0];
    FirstWordBefore(what, ' ', value + "\n");
    FirstWordOfWord(what);
    assert line[|what|..] == " " + (value + "\n");
    assert (" " + (value + "\n"))[1..] == value + "\n";
    StripKeeps(value);
  }

  /** A line of a source state: whole, and not a context. */
  predicate SourceLine(line: string)
  {
    IsLine(line) && !StartsWith(line, "context ")
  }

  predicate AllSourceLines(lines: seq<string>)
  {
    forall i :: 0 <= i < |lines| ==> SourceLine(lines[i])
  }

  lemma {:induction false} NothingFiltered(lines: seq<string>)
    requires AllSourceLines(lines)
    ensures ContextsIn(lines) == [] && OthersIn(lines) == lines
  {
    if lines != [] {
      assert SourceLine(lines[0]);
      NothingFiltered(lines[1..]);
    }
  }

  lemma TextLine(s: string)
    requires Free(s, '\n')
    ensures IsLine(s + "\n")
  {
    assert (s + "\n")[..|s|] == s;
  }

  lemma FieldLineIs(what: string, value: string)
    requires OneWord(what) && Free(value, '\n')
    ensures IsLine(FieldLine(what, value))
    ensures what[0] != 'c' ==> SourceLine(FieldLine(what, value))
  {
    WordIsFree(what);
    assert Free(what + " " + value, '\n');
    TextLine(what + " " + value);
    assert FieldLine(what, value)[0] == what[0];
    assert "context "[0] == 'c';
  }

  lemma WordIsFree(s: string)
    requires OneWord(s)
    ensures Free(s, '\n')
  {
    forall i | 0 <= i < |s|
      ensures s[i] != '\n'
    {
      assert !IsSpace(s[i]);
    }
  }

  lemma WordFieldIs(what: string, value: string)
    requires OneWord(what) && OneWord(value) && what[0] != 'c'
    ensures SourceLine(FieldLine(what, value))
  {
    WordIsFree(value);
    FieldLineIs(what, value);
  }

  lemma BothSourceLines(a: seq<string>, b: seq<string>)
    requires AllSourceLines(a) && AllSourceLines(b)
    ensures AllSourceLines(a + b)
  {
  }

  lemma OneSourceLine(line: string)
    requires SourceLine(line)
    ensures AllSourceLines([line])
  {
  }

  lemma TailLines(texts: Texts, s: Source)
    requires SourceOk(texts, s)
    ensures AllSourceLines(Tail(texts, s))
  {
    if s.lastMerged.Some? {
      WordFieldIs("lastmerged", texts.freeze(s.lastMerged.value));
    }
    if s.factory != "" {
      WordFieldIs("factory", s.factory);
    }
    BothSourceLines(if s.lastMerged.Some? then [FieldLine("lastmerged", texts.freeze(s.lastMerged.value))] else [],
                    if s.factory != "" then [FieldLine("factory", s.factory)] else []);
  }

  lemma HeaderLines(texts: Texts, s: Source)
    requires SourceOk(texts, s)
    ensures AllSourceLines(Header(texts, s))
  {
    var name, version, branch :=
      FieldLine("name", s.name), FieldLine("version", texts.freeze(s.version)), FieldLine("branch", texts.freeze(s.branch));
    WordFieldIs("name", s.name);
    WordFieldIs("version", texts.freeze(s.version));
    WordFieldIs("branch", texts.freeze(s.branch));
    OneSourceLine(name);
    OneSourceLine(version);
    OneSourceLine(branch);
    BothSourceLines([name], [version]);
    BothSourceLines([name] + [version], [branch]);
    assert [name] + [version] + [branch] == [name, version, branch];
    TailLines(texts, s);
    BothSourceLines([name, version, branch], Tail(texts, s));
  }

  lemma CountLineIs(n: nat)
    ensures SourceLine(CountLine(n))
  {
    DecimalIsWord(n);
    WordIsFree(Decimal(n));
    TextLine(Decimal(n));
    assert CountLine(n)[0] == Decimal(n)[0] && IsDigit(Decimal(n)[0]);
    assert "context "[0] == 'c';
  }

  lemma HexIsNotContext(s: string, rest: string)
    requires IsBytes(s) && s != ""
    ensures !StartsWith(ToHex(s) + rest, "context ")
  {
    var t := ToHex(s);
    assert t[1] == HEX[s[0] as nat % 16] && (t + rest)[1] == t[1];
    HexDigit(s[0] as nat % 16);
    assert "context "[1] == 'o';
  }

  lemma FreeParts(a: string, p: string, b: string, c: string, d: string)
    requires Free(a, '\n') && Free(p, '\n') && Free(b, '\n') && Free(c, '\n') && Free(d, '\n')
    ensures Free(a + " " + p + " " + b + " " + c + " " + d, '\n')
  {
  }

  lemma RowIs(id: string, p: string, b: string, c: string, d: string)
    requires IsBytes(id) && id != ""
    requires OneWord(ToHex(id)) && Free(p, '\n') && OneWord(b) && OneWord(c) && OneWord(d)
    ensures SourceLine(ToHex(id) + " " + p + " " + b + " " + c + " " + d + "\n")
  {
    var a := ToHex(id);
    WordIsFree(a);
    WordIsFree(b);
    WordIsFree(c);
    WordIsFree(d);
    FreeParts(a, p, b, c, d);
    TextLine(a + " " + p + " " + b + " " + c + " " + d);
    HexIsNotContext(id, " " + p + " " + b + " " + c + " " + d + "\n");
    assert a + (" " + p + " " + b + " " + c + " " + d + "\n") == a + " " + p + " " + b + " " + c + " " + d + "\n";
  }

  lemma SpacedIsFree(s: string)
    requires SingleSpaced(s)
    ensures Free(s, '\n')
  {
    forall i | 0 <= i < |s|
      ensures s[i] != '\n'
    {
      assert IsSpace(s[i]) ==> s[i] == ' ';
    }
  }

  lemma FileLineIs(texts: Texts, pathId: string, f: FileEntry, info: FileInfo)
    requires EntryOk(texts, pathId, f) && SingleSpaced(Paths.PathOf(f.place))
    ensures SourceLine(FileLine(texts, pathId, f, info))
  {
    SpacedIsFree(Paths.PathOf(f.place));
    HexIsText(pathId);
    HexIsText(f.fileId);
    InfoRoundTrip(info);
    RowIs(pathId, Paths.PathOf(f.place), ToHex(f.fileId), InfoText(info), texts.show(f.version));
  }

  lemma {:induction false} FileLinesAre(texts: Texts, s: Source, order: seq<string>)
    requires SourceOk(texts, s) && PathsPlain(s) && Listed(s, order)
    ensures AllSourceLines(FileLines(texts, s, order))
  {
    if order != [] {
      var p := order[0];
      assert EntryOk(texts, p, s.idMap[p]);
      FileLineIs(texts, p, s.idMap[p], s.fileInfo[p]);
      FileLinesAre(texts, s, order[1..]);
    }
  }

  lemma SourceLinesAre(texts: Texts, s: Source, order: seq<string>)
    requires SourceOk(texts, s) && PathsPlain(s) && Listed(s, order)
    ensures AllSourceLines(SourceLines(texts, s, order))
  {
    HeaderLines(texts, s);
    CountLineIs(|order|);
    FileLinesAre(texts, s, order);
  }

  lemma FieldStarts(what: string, value: string)
    ensures StartsWith(FieldLine(what, value), what + " ")
  {
    assert FieldLine(what, value) == what + " " + (value + "\n");
  }

  lemma {:induction false} FirstLineIs()
    ensures IsLine(FirstLine()) && AfterFirst(FirstLine()) == Some(Decimal(2))
  {
    DecimalIsWord(2);
    WordIsFree(Decimal(2));
    FieldLineIs("stateversion", Decimal(2));
    AfterFirstField("stateversion", Decimal(2));
  }

  lemma {:induction false} VersionLine()
    ensures IsLine(FirstLine()) && ReadStateVersion(FirstLine()) == Ok(STATE_VERSION)
  {
    FirstLineIs();
    FieldStarts("stateversion", Decimal(2));
    ParseIntDecimal(2);
  }

  /** The lines behind the first: the context is found, and taken out. */
  lemma ContextBack(context: Option<string>, lines: seq<string>)
    requires ContextOk(context) && AllSourceLines(lines)
    ensures var all := ContextLines(context) + lines; ReadContext(all) == Ok(context) && OthersIn(all) == lines
  {
    NothingFiltered(lines);
    if context.Some? {
      var line := FieldLine("context", context.value);
      assert line == "context " + (context.value + "\n");
      AfterFirstField("context", context.value);
      assert ([line] + lines)[1..] == lines;
      assert ContextsIn([line] + lines) == [line];
    } else {
      assert [] + lines == lines;
    }
  }

  lemma AllAreLines(context: Option<string>, lines: seq<string>)
    requires ContextOk(context) && AllSourceLines(lines)
    ensures AllLines(StateLinesOf(context, lines))
  {
    FirstLineIs();
    ContextIsLine(context);
    var head := [FirstLine()] + ContextLines(context);
    var all := head + lines;
    forall i | 0 <= i < |all|
      ensures IsLine(all[i])
    {
      if i >= |head| {
        assert all[i] == lines[i - |head|] && SourceLine(lines[i - |head|]);
      }
    }
  }

  lemma ContextIsLine(context: Option<string>)
    requires ContextOk(context)
    ensures forall i :: 0 <= i < |ContextLines(context)| ==> IsLine(ContextLines(context)[i])
  {
    if context.Some? {
      FieldLineIs("context", context.value);
    }
  }

  /** The text that is written, read back as far as the source state. */
  lemma {:induction false} StateReadBack(texts: Texts, context: Option<string>, lines: seq<string>)
    requires ContextOk(context) && AllSourceLines(lines)
    ensures ReadState(texts, Concat(StateLinesOf(context, lines))) == ReadRest(texts, ContextLines(context) + lines)
    ensures ReadContext(ContextLines(context) + lines) == Ok(context) && OthersIn(ContextLines(context) + lines) == lines
  {
    var all := StateLinesOf(context, lines);
    AllAreLines(context, lines);
    ReadLinesBack(all);
    VersionLine();
    assert all[0] == FirstLine() && all[1..] == ContextLines(context) + lines;
    ContextBack(context, lines);
  }

  // What the reader gives is a context of the one form.

  lemma {:induction false} StripLeftIs(s: string)
    ensures var t := StripLeft(s);
            |t| <= |s| && s[|s| - |t|..] == t && (t != "" ==> !IsSpace(t[0]))
  {
    if s != "" && IsSpace(s[0]) {
      StripLeftIs(s[1..]);
    }
  }

  lemma {:induction false} StripRightIs(s: string)
    ensures var t := StripRight(s);
            t <= s && (t != "" ==> !IsSpace(t[|t| - 1])) && (s != "" && !IsSpace(s[0]) ==> t != "")
  {
    if s != "" && IsSpace(s[|s| - 1]) {
      StripRightIs(s[..|s| - 1]);
    }
  }

  /** A line feed only at the end. */
  predicate EndsOnce(line: string)
  {
    forall i :: 0 <= i < |line| - 1 ==> line[i] != '\n'
  }

  lemma {:induction false} LinesEndOnce(text: string)
    ensures forall i :: 0 <= i < |ReadLines(text)| ==> ReadLines(text)[i] != "" && EndsOnce(ReadLines(text)[i])
  {
    if text != "" {
      LinesEndOnce(text[1..]);
      var rest := ReadLines(text[1..]);
      if text[0] != '\n' && rest != [] {
        assert EndsOnce(rest[0]);
        assert EndsOnce([text[0]] + rest[0]);
      }
    }
  }

  lemma AfterFirstIsPlain(line: string)
    requires EndsOnce(line) && AfterFirst(line).Some?
    ensures ContextOk(AfterFirst(line))
  {
    var t := StripLeft(line);
    var u := t[|FirstWord(t)|..];
    StripLeftIs(line);
    EndOfLine(line, t);
    EndOfLine(t, u);
    RestIsPlain(u);
  }

  lemma RestIsPlain(u: string)
    requires EndsOnce(u) && StripLeft(u) != ""
    ensures ContextOk(Some(Strip(StripLeft(u))))
  {
    StripLeftIs(u);
    EndOfLine(u, StripLeft(u));
    StripIsPlain(StripLeft(u));
  }

  /** The end of a line. */
  lemma EndOfLine(line: string, rest: string)
    requires EndsOnce(line) && |rest| <= |line| && line[|line| - |rest|..] == rest
    ensures EndsOnce(rest)
  {
    assert forall i :: 0 <= i < |rest| ==> rest[i] == line[|line| - |rest| + i];
  }

  lemma StripIsPlain(rest: string)
    requires EndsOnce(rest) && rest != "" && !IsSpace(rest[0])
    ensures ContextOk(Some(Strip(rest)))
  {
    assert StripLeft(rest) == rest;
    StripRightIs(rest);
    PlainText(rest, StripRight(rest));
  }

  lemma PlainText(rest: string, value: string)
    requires EndsOnce(rest) && value <= rest && value != "" && !IsSpace(value[|value| - 1])
    ensures Free(value, '\n')
  {
    forall i | 0 <= i < |value|
      ensures value[i] != '\n'
    {
      assert value[i] == rest[i];
      assert i == |value| - 1 ==> !IsSpace(value[i]);
    }
  }

  lemma {:induction false} ContextsAreLines(lines: seq<string>, i: nat)
    requires i < |ContextsIn(lines)|
    ensures ContextsIn(lines)[i] in lines
  {
    var first := if StartsWith(lines[0], "context ") then 1 else 0;
    if i >= first {
      ContextsAreLines(lines[1..], i - first);
      assert ContextsIn(lines)[i] == ContextsIn(lines[1..])[i - first];
    }
  }

  lemma ReadIsPlain(texts: Texts, text: string)
    requires ReadState(texts, text).Ok?
    ensures var (context, source) := ReadState(texts, text).value;
            ContextOk(context) && (source.Some? ==> NamesOk(source.value) && PathsPlain(source.value))
  {
    var lines := ReadLines(text);
    var contexts := ContextsIn(lines[1..]);
    if contexts != [] {
      ContextsAreLines(lines[1..], |contexts| - 1);
      LinesEndOnce(text);
      AfterFirstIsPlain(contexts[|contexts| - 1]);
    }
    if OthersIn(lines[1..]) != [] {
      ReadSourceIsPlain(texts, OthersIn(lines[1..]));
    }
  }

  /** Reading a written CONARY file gives back the context and the source state exactly if the context is a
      stripped line, name and factory are words, and no path has other blanks than single spaces inside. */
  lemma StateRoundTrip(texts: Texts, context: Option<string>, s: Source, text: string)
    requires Storable(texts, s) && WrittenState(texts, context, Some(s), text)
    ensures ReadState(texts, text) == Ok((context, Some(s))) <==> ContextOk(context) && NamesOk(s) && PathsPlain(s)
  {
    if ContextOk(context) && NamesOk(s) && PathsPlain(s) {
      var lines :| Written(texts, s, lines) && text == Concat(StateLinesOf(context, lines));
      WrittenLinesAre(texts, s, lines);
      StateReadBack(texts, context, lines);
      SourceRoundTrip(texts, s, lines);
    } else if ReadState(texts, text).Ok? {
      ReadIsPlain(texts, text);
    }
  }

  lemma WrittenLinesAre(texts: Texts, s: Source, lines: seq<string>)
    requires SourceOk(texts, s) && PathsPlain(s) && Written(texts, s, lines)
    ensures AllSourceLines(lines) && lines != []
  {
    var order :| Complete(s, order) && lines == SourceLines(texts, s, order);
    SourceLinesAre(texts, s, order);
  }

  /** Without a source state there is only the context. */
  lemma {:induction false} EmptyStateRoundTrip(texts: Texts, context: Option<string>, text: string)
    requires WrittenState(texts, context, None, text)
    ensures ReadState(texts, text) == Ok((context, None)) <==> ContextOk(context)
  {
    if ContextOk(context) {
      StateReadBack(texts, context, []);
    } else if ReadState(texts, text).Ok? {
      ReadIsPlain(texts, text);
    }
  }

  // ---------------------------------------------------------------- the versions in it

  const NEW: string := "@NEW@"

  function ShowVersion(v: FileVersion): string
  {
    if v.NewFile? then NEW else if FileLists.Readable(v.version) then Versions.Print(v.version) else ""
  }

  function ReadVersion(s: string): Result<FileVersion>
  {
    if s == NEW then Ok(NewFile)
    else
      var v := Versions.Parse(s);
      if v.Err? then Err(v.error) else Ok(OfFile(v.value))
  }

  predicate Stamped(v: StateVersion)
    requires v.Known?
  {
    FileLists.Readable(v.version) && |v.stamps| == Versions.RevisionCount(v.version)
  }

  function FreezeVersion(v: StateVersion): string
  {
    if v.NewVersion? then NEW else if Stamped(v) then Versions.Freeze(v.version, v.stamps) else ""
  }

  function ThawVersion(s: string): Result<StateVersion>
  {
    if s == NEW then Ok(NewVersion)
    else
      var v := Versions.Thaw(s);
      if v.Err? then Err(v.error) else Ok(Known(v.value.parts, v.value.stamps))
  }

  const ProgramTexts: Texts := Texts(ShowVersion, ReadVersion, FreezeVersion, ThawVersion)

  /** With the printer and the parser of versions, every readable version without blanks in its text
      comes back, and so does the marker for a new one. */
  lemma VersionsComeBack(v: FileVersion)
    requires v.OfFile? ==> FileLists.Readable(v.version) && OneWord(Versions.Print(v.version))
    ensures Shows(ProgramTexts, v)
  {
    if v.OfFile? {
      FileLists.PrintedIsRead(v.version);
      Versions.PrintedFields(v.version, None);
    }
  }

  lemma FrozenVersionsComeBack(v: StateVersion)
    requires v.Known? ==>
               Stamped(v) && Versions.StampsOk(Some(v.stamps)) && OneWord(Versions.Freeze(v.version, v.stamps))
    ensures Freezes(ProgramTexts, v)
  {
    if v.Known? {
      Versions.ThawUndoesFreeze(v.version, v.stamps);
      Versions.PrintedFields(v.version, Some(v.stamps));
    }
  }
}
