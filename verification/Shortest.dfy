/** What can be read as a version at all, and that no text which is read as a version is shorter than the one
    that is printed: each part is abbreviated as far as its neighbours allow. */
module Shortest {
  import opened Text
  import opened Versions

  // ---------------------------------------------------------------- pieces of text

  /** A piece of a text holds nothing the text does not. */
  lemma {:induction false} PiecesFree(s: string, c: char, other: char)
    requires Free(s, other)
    ensures AllFree(Split(s, c), other)
  {
    if s != "" {
      PiecesFree(s[1..], c, other);
      if s[0] != c {
        assert Free([s[0]] + Split(s[1..], c)[0], other);
      }
    }
  }

  lemma {:induction false} OnePiece(s: string, c: char)
    ensures |Split(s, c)| == 1 <==> Free(s, c)
    ensures Free(s, c) ==> Split(s, c) == [s]
  {
    if Free(s, c) {
      SplitWhole(s, c);
    } else {
      JoinUndoesSplit(s, c);
    }
  }

  lemma TwoPieces(s: string, c: char)
    requires |Split(s, c)| == 2
    ensures s == Split(s, c)[0] + [c] + Split(s, c)[1] && Free(Split(s, c)[0], c) && Free(Split(s, c)[1], c)
  {
    JoinUndoesSplit(s, c);
    assert Split(s, c)[1..] == [Split(s, c)[1]];
  }

  // ---------------------------------------------------------------- labels

  /** The texts for a label: in full, or without what it shares with the template. */
  ghost predicate Spells(value: string, l: Label, template: Option<Label>)
  {
    || value == l.host + ['@'] + l.namespace + [':'] + l.branch
    || (&& template.Some? && template.value.host == l.host
        && (|| value == l.namespace + [':'] + l.branch
            || (value == l.branch && template.value.namespace == l.namespace)))
  }

  /** A label is read from exactly the texts that spell it, and only labels that can be printed are. */
  lemma LabelTexts(value: string, l: Label, template: Option<Label>)
    requires template.Some? ==> LabelOk(template.value)
    ensures ParseLabel(value, template) == Ok(l) <==> LabelOk(l) && Spells(value, l, template)
  {
    if LabelOk(l) && Spells(value, l, template) {
      SpelledIsRead(value, l, template);
    }
    if ParseLabel(value, template) == Ok(l) {
      ReadIsSpelled(value, l, template);
    }
  }

  lemma SpelledIsRead(value: string, l: Label, template: Option<Label>)
    requires LabelOk(l) && Spells(value, l, template)
    ensures ParseLabel(value, template) == Ok(l)
  {
    if value == l.host + ['@'] + l.namespace + [':'] + l.branch {
      FullLabelRoundTrip(l, template);
    } else if value == l.namespace + [':'] + l.branch {
      NamespaceRoundTrip(l, template.value);
    } else {
      LabelRoundTrip(l, template);
    }
  }

  lemma ReadIsSpelled(value: string, l: Label, template: Option<Label>)
    requires ParseLabel(value, template) == Ok(l)
    ensures Spells(value, l, template)
    ensures (template.Some? ==> LabelOk(template.value)) ==> LabelOk(l)
  {
    OnePiece(value, ':');
    OnePiece(value, '@');
    if Free(value, ':') {
    } else if Free(value, '@') {
      PairIsSpelled(value, l, template);
    } else {
      FullIsSpelled(value, l, template);
    }
  }

  lemma PairAllowed(a: string, c: char, b: string)
    requires NoneDisallowed(a + [c] + b)
    ensures NoneDisallowed(a) && NoneDisallowed(b)
  {
    var s := a + [c] + b;
    assert forall i :: 0 <= i < |a| ==> a[i] == s[i];
    assert forall i :: 0 <= i < |b| ==> b[i] == s[|a| + 1 + i];
  }

  lemma PairIsSpelled(value: string, l: Label, template: Option<Label>)
    requires ParseLabel(value, template) == Ok(l) && !Free(value, ':') && Free(value, '@')
    ensures template.Some? && template.value.host == l.host && value == l.namespace + [':'] + l.branch
    ensures LabelOk(template.value) ==> LabelOk(l)
  {
    OnePiece(value, ':');
    OnePiece(value, '@');
    TwoPieces(value, ':');
    PiecesFree(value, ':', '@');
    PairAllowed(l.namespace, ':', l.branch);
  }

  lemma FullIsSpelled(value: string, l: Label, template: Option<Label>)
    requires ParseLabel(value, template) == Ok(l) && !Free(value, ':') && !Free(value, '@')
    ensures value == l.host + ['@'] + l.namespace + [':'] + l.branch && LabelOk(l)
  {
    OnePiece(value, ':');
    OnePiece(value, '@');
    TwoPieces(value, '@');
    var rest := Split(value, '@')[1];
    TwoPieces(rest, ':');
    PiecesFree(rest, ':', '@');
    assert value == l.host + ['@'] + rest && rest == l.namespace + [':'] + l.branch;
    assert value == l.host + ['@'] + l.namespace + [':'] + l.branch;
    TwoPieces(value, ':');
    OneSeparator(Split(value, ':')[0], Split(value, ':')[1], l.host + ['@'] + l.namespace, l.branch, ':');
    PairAllowed(l.host, '@', rest);
    PairAllowed(l.namespace, ':', l.branch);
    assert Free(l.host, ':') by {
      assert forall i :: 0 <= i < |l.host| ==> l.host[i] == (l.host + ['@'] + l.namespace)[i];
    }
  }

  /** There is only one way to part a text at a separator that occurs once. */
  lemma OneSeparator(a: string, b: string, x: string, y: string, c: char)
    requires Free(a, c) && Free(b, c) && a + [c] + b == x + [c] + y
    ensures a == x && b == y
  {
    var s := a + [c] + b;
    assert s[|x|] == c;
    assert forall i :: 0 <= i < |s| && i != |a| ==> s[i] != c;
    assert |x| == |a|;
    assert a == s[..|a|] == x && b == s[|a| + 1..] == y;
  }

  /** The printed label is the shortest of them. */
  lemma LabelShortest(value: string, l: Label, versus: Option<Label>)
    requires ParseLabel(value, versus) == Ok(l)
    ensures |LabelString(l, versus)| <= |value|
  {
    ReadIsSpelled(value, l, versus);
  }

  // ---------------------------------------------------------------- serial numbers

  lemma {:induction false} StripLeftShorter(s: string)
    ensures |StripLeft(s)| <= |s|
  {
    if s != "" && IsSpace(s[0]) {
      StripLeftShorter(s[1..]);
    }
  }

  lemma {:induction false} StripRightShorter(s: string)
    ensures StripRight(s) <= s
  {
    if s != "" && IsSpace(s[|s| - 1]) {
      StripRightShorter(s[..|s| - 1]);
    }
  }

  lemma {:induction false} DigitsShortest(s: string)
    requires s != "" && AllDigits(s)
    ensures |Decimal(DigitsValue(s))| <= |s|
  {
    var front := s[..|s| - 1];
    if front == "" {
      assert DigitsValue(front) == 0;
    } else {
      DigitsShortest(front);
      var d := (s[|s| - 1] as int) - ('0' as int);
      assert IsDigit(s[|s| - 1]);
      assert DigitsValue(s) == DigitsValue(front) * 10 + d && DigitsValue(s) / 10 == DigitsValue(front);
    }
  }

  lemma IntShortest(s: string)
    requires ParseInt(s).Ok? && ParseInt(s).value >= 0
    ensures |Decimal(ParseInt(s).value)| <= |s|
  {
    StripLeftShorter(s);
    StripRightShorter(StripLeft(s));
    var t := Strip(s);
    var digits := if t != "" && (t[0] == '+' || t[0] == '-') then t[1..] else t;
    DigitsShortest(digits);
    if t[0] == '-' {
      assert DigitsValue(digits) == 0 && Decimal(0) == [DIGITS[0]];
    }
  }

  /** Nothing negative can be read without a hyphen. */
  lemma IntIsNat(s: string)
    requires Free(s, '-') && ParseInt(s).Ok?
    ensures ParseInt(s).value >= 0
  {
    StripFree(s);
  }

  lemma StripFree(s: string)
    requires Free(s, '-')
    ensures Free(Strip(s), '-')
  {
    StripLeftFree(s);
    StripRightShorter(StripLeft(s));
  }

  lemma {:induction false} StripLeftFree(s: string)
    requires Free(s, '-')
    ensures Free(StripLeft(s), '-')
  {
    if s != "" && IsSpace(s[0]) {
      StripLeftFree(s[1..]);
    }
  }

  /** The length of a text of these pieces, with a separator before each. */
  function Length(pieces: seq<string>): nat
  {
    if pieces == [] then 0 else 1 + |pieces[0]| + Length(pieces[1..])
  }

  lemma {:induction false} JoinLength(pieces: seq<string>, c: char)
    requires pieces != []
    ensures 1 + |Join(pieces, c)| == Length(pieces)
  {
    if |pieces| > 1 {
      JoinLength(pieces[1..], c);
    }
  }

  lemma {:induction false} IntsShortest(pieces: seq<string>)
    requires ParseInts(pieces).Ok? && forall i :: 0 <= i < |pieces| ==> Free(pieces[i], '-')
    ensures var s := ParseInts(pieces).value;
            && |s| == |pieces| && (forall i :: 0 <= i < |s| ==> s[i] >= 0) && Length(SerialParts(s)) <= Length(pieces)
  {
    if pieces != [] {
      IntIsNat(pieces[0]);
      IntShortest(pieces[0]);
      IntsShortest(pieces[1..]);
      var s := ParseInts(pieces).value;
      assert s[1..] == ParseInts(pieces[1..]).value;
      assert SerialParts(s)[0] == Decimal(s[0]) && SerialParts(s)[1..] == SerialParts(s[1..]);
    }
  }

  lemma SerialShortest(value: string)
    requires Free(value, '-') && ParseSerial(value).Ok?
    ensures SerialOk(ParseSerial(value).value)
    ensures |SerialString(ParseSerial(value).value)| <= |value|
  {
    var pieces, s := Split(value, '.'), ParseSerial(value).value;
    PiecesFree(value, '.', '-');
    JoinUndoesSplit(value, '.');
    IntsShortest(pieces);
    JoinLength(pieces, '.');
    assert SerialParts(s) != [];
    JoinLength(SerialParts(s), '.');
  }

  // ---------------------------------------------------------------- revisions

  lemma MadeOk(version: string, source: Option<string>, inherited: Option<Serial>, build: Option<string>)
    requires MakeRevision(version, source, inherited, build).Ok? && VersionText(version)
    requires (source.Some? ==> Free(source.value, '-')) && (build.Some? ==> Free(build.value, '-'))
    requires inherited.Some? ==> SerialOk(inherited.value)
    ensures var r := MakeRevision(version, source, inherited, build).value;
            && RevisionOk(r) && r.version == version
            && (source.Some? ==> |SerialString(r.sourceCount)| <= |source.value|)
            && (source.None? ==> Some(r.sourceCount) == inherited)
            && (build.Some? <==> r.buildCount.Some?)
            && (build.Some? ==> |SerialString(r.buildCount.value)| <= |build.value|)
  {
    if source.Some? {
      SerialShortest(source.value);
    }
    if build.Some? {
      SerialShortest(build.value);
    }
  }

  /** A revision that is read can be printed, and no text for it is shorter. */
  lemma RevisionShortest(value: string, template: Option<Revision>)
    requires ParseRevision(value, template).Ok? && (template.Some? ==> RevisionOk(template.value))
    ensures RevisionOk(ParseRevision(value, template).value)
    ensures |RevisionString(ParseRevision(value, template).value, template)| <= |value|
  {
    var fields := Split(value, '-');
    JoinUndoesSplit(value, '-');
    JoinLength(fields, '-');
    FieldsShortest(fields, template);
    JoinLength(RevisionFields(ParseRevision(value, template).value, template), '-');
  }

  lemma FieldsShortest(fields: seq<string>, template: Option<Revision>)
    requires fields != [] && AllFree(fields, '-') && RevisionOf(fields, template).Ok?
    requires template.Some? ==> RevisionOk(template.value)
    ensures RevisionOk(RevisionOf(fields, template).value)
    ensures Length(RevisionFields(RevisionOf(fields, template).value, template)) <= Length(fields)
  {
    FieldsLength(fields);
    if |fields| < 3 && template.Some? {
      var t := template.value;
      if t.buildCount.Some? {
        MadeOk(t.version, if |fields| == 2 then Some(fields[0]) else None, Some(t.sourceCount), Some(fields[|fields| - 1]));
      } else {
        MadeOk(if |fields| == 2 then fields[0] else t.version, Some(fields[|fields| - 1]), Some(t.sourceCount), None);
      }
    } else {
      MadeOk(fields[0], if |fields| >= 2 then Some(fields[1]) else None, None, if |fields| == 3 then Some(fields[2]) else None);
    }
    FieldsLength(RevisionFields(RevisionOf(fields, template).value, template));
  }

  lemma FieldsLength(fields: seq<string>)
    requires 1 <= |fields| <= 3
    ensures Length(fields) == |fields| + |fields[0]| + (if |fields| > 1 then |fields[1]| else 0)
                              + (if |fields| > 2 then |fields[2]| else 0)
  {
    if |fields| > 1 {
      assert fields[1..][0] == fields[1];
      if |fields| > 2 {
        assert fields[1..][1..] == [fields[2]];
      } else {
        assert fields[1..] == [fields[1]];
      }
    }
  }

  // ---------------------------------------------------------------- versions

  /** The serial numbers fit, after a blank that announces a shadow or not. */
  predicate FitsAfter(v: Version, expectLabel: bool, shadowCount: nat, justShadowed: bool)
  {
    if expectLabel && justShadowed then v == [] || (shadowCount > 0 && SerialsFit(v, false, shadowCount - 1))
    else SerialsFit(v, expectLabel, shadowCount)
  }

  /** The parts that are read can be printed, and not in fewer characters. */
  ghost predicate NoShorter(fields: seq<string>, v: Version, expectLabel: bool, lastLabel: Option<Label>,
                            lastVersion: Option<Revision>, shadowCount: nat, justShadowed: bool)
  {
    && PartsOk(v) && Follows(v, expectLabel) && FitsAfter(v, expectLabel, shadowCount, justShadowed)
    && Length(PrintParts(v, expectLabel, lastLabel, lastVersion, None)) <= Length(fields)
  }

  lemma ExtendIs(p: Part, stamp: seq<string>, rest: Result<Parsed>)
    requires Extend(Parsed([p], stamp), rest).Ok?
    ensures rest.Ok?
    ensures var v := Extend(Parsed([p], stamp), rest).value.parts; v[0] == p && v[1..] == rest.value.parts
  {
  }

  lemma LabelNoShorter(fields: seq<string>, l: Label, rest: Version, lastLabel: Option<Label>,
                       lastVersion: Option<Revision>, shadowCount: nat, justShadowed: bool)
    requires fields != [] && ParseLabel(fields[0], lastLabel) == Ok(l)
    requires (lastLabel.Some? ==> LabelOk(lastLabel.value)) && (justShadowed ==> shadowCount > 0)
    requires NoShorter(fields[1..], rest, false, Some(l), lastVersion, if justShadowed then shadowCount else 0, false)
    ensures NoShorter(fields, [L(l)] + rest, true, lastLabel, lastVersion, shadowCount, justShadowed)
  {
    var v := [L(l)] + rest;
    ReadIsSpelled(fields[0], l, lastLabel);
    LabelShortest(fields[0], l, lastLabel);
    assert v[1..] == rest;
    PrintUnfolds(v, true, lastLabel, lastVersion, None);
    LengthAppend([LabelString(l, lastLabel)], PrintParts(rest, false, Some(l), lastVersion, None));
  }

  lemma {:induction false} LengthAppend(a: seq<string>, b: seq<string>)
    ensures Length(a + b) == Length(a) + Length(b)
  {
    if a == [] {
      assert a + b == b;
    } else {
      assert (a + b)[1..] == a[1..] + b;
      LengthAppend(a[1..], b);
    }
  }

  lemma RevisionNoShorter(fields: seq<string>, r: Revision, rest: Version, lastLabel: Option<Label>,
                          lastVersion: Option<Revision>, shadowCount: nat)
    requires fields != [] && ParseRevision(fields[0], lastVersion) == Ok(r) && RevisionShadowCount(r) <= shadowCount
    requires lastVersion.Some? ==> RevisionOk(lastVersion.value)
    requires NoShorter(fields[1..], rest, true, lastLabel, Some(r), shadowCount, false)
    ensures NoShorter(fields, [R(r)] + rest, false, lastLabel, lastVersion, shadowCount, false)
  {
    var v := [R(r)] + rest;
    RevisionShortest(fields[0], lastVersion);
    assert v[1..] == rest;
    PrintUnfolds(v, false, lastLabel, lastVersion, None);
    LengthAppend([RevisionString(r, lastVersion)], PrintParts(rest, true, lastLabel, Some(r), None));
  }

  /** The blank before a shadow is printed as well. */
  lemma BlankNoShorter(fields: seq<string>, v: Version, lastLabel: Option<Label>, lastVersion: Option<Revision>,
                       shadowCount: nat)
    requires fields != [] && NoShorter(fields[1..], v, true, lastLabel, lastVersion, shadowCount + 1, true)
    ensures NoShorter(fields, v, false, lastLabel, lastVersion, shadowCount, false)
  {
    if v != [] {
      PrintUnfolds(v, true, lastLabel, lastVersion, None);
      PrintUnfolds(v, false, lastLabel, lastVersion, None);
      var rest := PrintParts(v[1..], false, Some(v[0].lab), lastVersion, None);
      var text := LabelString(v[0].lab, lastLabel);
      LengthAppend([text], rest);
      LengthAppend([""] + [text], rest);
      LengthAppend([""], [text]);
    }
  }

  lemma {:induction false} PartsShortest(fields: seq<string>, expectLabel: bool, lastLabel: Option<Label>,
                                         lastVersion: Option<Revision>, shadowCount: nat, justShadowed: bool)
    requires ParseParts(fields, false, expectLabel, lastLabel, lastVersion, shadowCount, justShadowed).Ok?
    requires (lastLabel.Some? ==> LabelOk(lastLabel.value)) && (lastVersion.Some? ==> RevisionOk(lastVersion.value))
    requires (justShadowed ==> shadowCount > 0) && (!expectLabel ==> !justShadowed)
    ensures NoShorter(fields, ParseParts(fields, false, expectLabel, lastLabel, lastVersion, shadowCount, justShadowed).value.parts,
                      expectLabel, lastLabel, lastVersion, shadowCount, justShadowed)
  {
    if fields == [] {
    } else if expectLabel {
      var l, depth := ParseLabel(fields[0], lastLabel).value, if justShadowed then shadowCount else 0;
      var rest := ParseParts(fields[1..], false, false, Some(l), lastVersion, depth, false);
      ExtendIs(L(l), [], rest);
      ReadIsSpelled(fields[0], l, lastLabel);
      PartsShortest(fields[1..], false, Some(l), lastVersion, depth, false);
      LabelNoShorter(fields, l, rest.value.parts, lastLabel, lastVersion, shadowCount, justShadowed);
    } else if fields[0] == "" {
      PartsShortest(fields[1..], true, lastLabel, lastVersion, shadowCount + 1, true);
      BlankNoShorter(fields, ParseParts(fields[1..], false, true, lastLabel, lastVersion, shadowCount + 1, true).value.parts,
                     lastLabel, lastVersion, shadowCount);
    } else {
      var r := ParseRevision(fields[0], lastVersion).value;
      var rest := ParseParts(fields[1..], false, true, lastLabel, Some(r), shadowCount, justShadowed);
      ExtendIs(R(r), [""], rest);
      RevisionShortest(fields[0], lastVersion);
      PartsShortest(fields[1..], true, lastLabel, Some(r), shadowCount, false);
      RevisionNoShorter(fields, r, rest.value.parts, lastLabel, lastVersion, shadowCount);
    }
  }

  lemma AfterSlash(text: string)
    requires text != "" && text[0] == '/'
    ensures var fields := Split(text, '/'); |fields| > 1 && Length(fields[1..]) == |text|
  {
    var fields := Split(text, '/');
    assert fields == [""] + Split(text[1..], '/');
    JoinUndoesSplit(text, '/');
    JoinLength(fields, '/');
  }

  lemma SomethingRead(fields: seq<string>)
    requires fields != [] && ParseParts(fields, false, true, None, None, 0, false).Ok?
    ensures ParseParts(fields, false, true, None, None, 0, false).value.parts != []
  {
    var l := ParseLabel(fields[0], None).value;
    ExtendIs(L(l), [], ParseParts(fields[1..], false, false, Some(l), None, 0, false));
  }

  lemma ReadFields(text: string)
    requires Parse(text).Ok?
    ensures NoShorter(Split(text, '/')[1..], Parse(text).value, true, None, None, 0, false)
    ensures Parse(text).value != [] && Length(Split(text, '/')[1..]) == |text|
  {
    var fields := Split(text, '/')[1..];
    AfterSlash(text);
    assert ParseParts(fields, false, true, None, None, 0, false).Ok?;
    SomethingRead(fields);
    PartsShortest(fields, true, None, None, 0, false);
  }

  /** Whatever is read as a version can be printed, has no more serial numbers than its shadows allow, and is read
      back from what is printed exactly if neighbouring revisions agree in kind. */
  lemma ReadIsPrintable(text: string)
    requires Parse(text).Ok?
    ensures var v := Parse(text).value;
            && Sequence(v) && PartsOk(v) && SerialsFit(v, true, 0)
            && (Parse(Print(v)) == Ok(v) <==> KindsAgree(v, None))
  {
    ReadFields(text);
    ParseUndoesPrint(Parse(text).value);
  }

  /** No text that is read as a version is shorter than the printed one. */
  lemma PrintIsShortest(text: string)
    requires Parse(text).Ok?
    ensures var v := Parse(text).value; Sequence(v) && PartsOk(v) && |Print(v)| <= |text|
  {
    ReadFields(text);
    var v := Parse(text).value;
    var pieces := PrintParts(v, true, None, None, None);
    JoinLength([""] + pieces, '/');
    LengthAppend([""], pieces);
  }
}
