/** Version strings: labels, revisions with multi-part serial numbers, and the printer and
    parser that abbreviate and expand each part against the previous one of its kind. */
module Versions {
  import opened Text

  /** The numbers of a `SerialNumber`, one for each level of shadowing. */
  type Serial = seq<int>

  datatype Label = Label(host: string, namespace: string, branch: string)

  /** A revision. Time stamps take no part in equality, so they are kept beside a version. */
  datatype Revision = Revision(version: string, sourceCount: Serial, buildCount: Option<Serial>)

  datatype Part = L(lab: Label) | R(rev: Revision)

  /** `VersionSequence.versions`; a Branch when it ends in a label, a Version otherwise. */
  type Version = seq<Part>

  // ---------------------------------------------------------------- serial numbers

  function SerialParts(s: Serial): seq<string>
    requires forall i :: 0 <= i < |s| ==> s[i] >= 0
  {
    if s == [] then [] else [Decimal(s[0])] + SerialParts(s[1..])
  }

  predicate SerialOk(s: Serial)
  {
    s != [] && forall i :: 0 <= i < |s| ==> s[i] >= 0
  }

  function SerialString(s: Serial): string
    requires SerialOk(s)
  {
    Join(SerialParts(s), '.')
  }

  function ParseInts(parts: seq<string>): Result<Serial>
  {
    if parts == [] then Ok([])
    else
      var first := ParseInt(parts[0]);
      var rest := ParseInts(parts[1..]);
      if first.Err? then Err(first.error)
      else if rest.Err? then rest
      else Ok([first.value] + rest.value)
  }

  /** `SerialNumber(value)` */
  function ParseSerial(value: string): Result<Serial>
  {
    ParseInts(Split(value, '.'))
  }

  predicate SerialChar(c: char)
  {
    IsDigit(c) || c == '.'
  }

  lemma {:induction false} SerialPartsText(s: Serial)
    requires forall i :: 0 <= i < |s| ==> s[i] >= 0
    ensures |SerialParts(s)| == |s|
    ensures forall i :: 0 <= i < |s| ==> SerialParts(s)[i] != "" && AllDigits(SerialParts(s)[i])
    ensures ParseInts(SerialParts(s)) == Ok(s)
  {
    if s != [] {
      SerialPartsText(s[1..]);
      ParseIntDecimal(s[0]);
      assert SerialParts(s)[1..] == SerialParts(s[1..]);
      assert [s[0]] + s[1..] == s;
    }
  }

  lemma {:induction false} JoinDigits(parts: seq<string>)
    requires parts != [] && forall i :: 0 <= i < |parts| ==> parts[i] != "" && AllDigits(parts[i])
    ensures Join(parts, '.') != ""
    ensures forall i :: 0 <= i < |Join(parts, '.')| ==> SerialChar(Join(parts, '.')[i])
  {
    if |parts| > 1 {
      JoinDigits(parts[1..]);
    }
  }

  /** A printed serial number reads back, and holds only digits and dots. */
  lemma SerialRoundTrip(s: Serial)
    requires SerialOk(s)
    ensures ParseSerial(SerialString(s)) == Ok(s)
    ensures SerialString(s) != ""
    ensures forall i :: 0 <= i < |SerialString(s)| ==> SerialChar(SerialString(s)[i])
  {
    SerialPartsText(s);
    JoinDigits(SerialParts(s));
    forall i | 0 <= i < |s|
      ensures Free(SerialParts(s)[i], '.')
    {
      assert AllDigits(SerialParts(s)[i]);
    }
    SplitJoin(SerialParts(s), '.');
  }

  // ---------------------------------------------------------------- labels

  predicate Disallowed(c: char)
  {
    c == '/' || c == '\'' || c == '"' || c == '\\' || c == '(' || c == ')' || c == '[' || c == ']' || c == '='
  }

  predicate NoneDisallowed(s: string)
  {
    forall i :: 0 <= i < |s| ==> !Disallowed(s[i])
  }

  predicate LabelText(s: string)
  {
    Free(s, ':') && Free(s, '@') && NoneDisallowed(s)
  }

  predicate LabelOk(l: Label)
  {
    LabelText(l.host) && LabelText(l.namespace) && LabelText(l.branch) && l.namespace != "" && l.branch != ""
  }

  /** `Label.asString(versus)` */
  function LabelString(l: Label, versus: Option<Label>): string
  {
    if versus.Some? && l.host == versus.value.host then
      if l.namespace == versus.value.namespace then l.branch
      else l.namespace + ":" + l.branch
    else
      l.host + "@" + l.namespace + ":" + l.branch
  }

  function Count(s: string, c: char): nat
  {
    |Split(s, c)| - 1
  }

  /** `s.find(c)` */
  function Find(s: string, c: char): int
  {
    if Free(s, c) then -1 else |Split(s, c)[0]|
  }

  /** `Label(value, template)` */
  function ParseLabel(value: string, template: Option<Label>): Result<Label>
  {
    if !NoneDisallowed(value) then
      Err("character should not appear in a label")
    else if Count(value, ':') > 1 then Err("unexpected colon")
    else if Count(value, '@') > 0 && Count(value, ':') == 0 then Err("@ sign can only be used with a colon")
    else if Count(value, '@') > 1 then Err("unexpected @ sign")
    else if Find(value, '@') > Find(value, ':') then Err("@ sign must occur before a colon")
    else if Find(value, ':') == -1 then
      if template.None? then Err("colon expected before branch name")
      else CheckLabel(Label(template.value.host, template.value.namespace, value))
    else if Find(value, '@') == -1 then
      if template.None? then Err("@ expected before label namespace")
      else
        var fields := Split(value, ':');
        if |fields| != 2 then Err("ValueError")
        else CheckLabel(Label(template.value.host, fields[0], fields[1]))
    else
      var fields := Split(value, '@');
      if |fields| != 2 then Err("ValueError")
      else
        var rest := Split(fields[1], ':');
        if |rest| != 2 then Err("ValueError")
        else CheckLabel(Label(fields[0], rest[0], rest[1]))
  }

  function CheckLabel(l: Label): Result<Label>
  {
    if l.namespace == "" then Err("namespace may not be empty")
    else if l.branch == "" then Err("branch tag may not be empty")
    else Ok(l)
  }

  /** Two fields around a separator that occurs in neither. */
  lemma SplitPair(a: string, b: string, c: char)
    requires Free(a, c) && Free(b, c)
    ensures Split(a + [c] + b, c) == [a, b]
    ensures !Free(a + [c] + b, c)
  {
    SplitFirst(a, b, c);
    SplitFirst(b, "", c);
    assert (a + [c] + b)[|a|] == c;
  }

  lemma SplitWhole(a: string, c: char)
    requires Free(a, c)
    ensures Split(a, c) == [a]
  {
    SplitFirst(a, "", c);
  }

  lemma NamespaceRoundTrip(l: Label, template: Label)
    requires LabelOk(l) && template.host == l.host
    ensures ParseLabel(l.namespace + [':'] + l.branch, Some(template)) == Ok(l)
  {
    var value := l.namespace + [':'] + l.branch;
    SplitPair(l.namespace, l.branch, ':');
    assert Free(value, '@');
    SplitWhole(value, '@');
    assert NoneDisallowed(value);
  }

  lemma FullLabelSplits(l: Label)
    requires LabelOk(l)
    ensures var value := l.host + ['@'] + l.namespace + [':'] + l.branch;
            && Split(value, '@') == [l.host, l.namespace + [':'] + l.branch]
            && Split(value, ':') == [l.host + ['@'] + l.namespace, l.branch]
            && !Free(value, '@') && !Free(value, ':') && NoneDisallowed(value)
  {
    var rest := l.namespace + [':'] + l.branch;
    SplitPair(l.host, rest, '@');
    SplitPair(l.host + ['@'] + l.namespace, l.branch, ':');
    assert l.host + ['@'] + rest == l.host + ['@'] + l.namespace + [':'] + l.branch;
  }

  lemma FullLabelRoundTrip(l: Label, template: Option<Label>)
    requires LabelOk(l)
    ensures ParseLabel(l.host + ['@'] + l.namespace + [':'] + l.branch, template) == Ok(l)
  {
    FullLabelSplits(l);
    SplitPair(l.namespace, l.branch, ':');
  }

  /** A printed label reads back against the label it was abbreviated against. */
  lemma LabelRoundTrip(l: Label, versus: Option<Label>)
    requires LabelOk(l)
    ensures ParseLabel(LabelString(l, versus), versus) == Ok(l)
    ensures LabelString(l, versus) != "" && Free(LabelString(l, versus), '/')
  {
    assert NoneDisallowed(LabelString(l, versus)) && Free(LabelString(l, versus), '/');
    if versus.Some? && l.host == versus.value.host {
      if l.namespace == versus.value.namespace {
        SplitWhole(l.branch, ':');
        SplitWhole(l.branch, '@');
      } else {
        NamespaceRoundTrip(l, versus.value);
      }
    } else {
      FullLabelRoundTrip(l, versus);
    }
  }

  // ---------------------------------------------------------------- revisions

  predicate VersionChar(c: char)
  {
    || 'A' <= c <= 'Z' || 'a' <= c <= 'z' || '0' <= c <= '9'
    || '(' <= c <= ')' || '+' <= c <= ',' || c == '.' || c == ';' || c == '_' || c == '~'
  }

  predicate VersionText(s: string)
  {
    forall i :: 0 <= i < |s| ==> VersionChar(s[i])
  }

  predicate RevisionOk(r: Revision)
  {
    && r.version != "" && VersionText(r.version)
    && SerialOk(r.sourceCount)
    && (r.buildCount.Some? ==> SerialOk(r.buildCount.value))
  }

  /** The fields which `Revision.asString(versus)` prints, to be joined by hyphens. */
  function RevisionFields(r: Revision, versus: Option<Revision>): (fields: seq<string>)
    requires RevisionOk(r)
    ensures 1 <= |fields| <= 3
  {
    var source := SerialString(r.sourceCount);
    var head :=
      if versus.Some? && r.version == versus.value.version then
        if r.sourceCount == versus.value.sourceCount then (if r.buildCount.None? then [source] else [])
        else [source]
      else
        [r.version, source];
    if r.buildCount.Some? then head + [SerialString(r.buildCount.value)] else head
  }

  function RevisionString(r: Revision, versus: Option<Revision>): string
    requires RevisionOk(r)
  {
    Join(RevisionFields(r, versus), '-')
  }

  /** `Revision(value, template)` */
  function ParseRevision(value: string, template: Option<Revision>): Result<Revision>
  {
    RevisionOf(Split(value, '-'), template)
  }

  function RevisionOf(fields: seq<string>, template: Option<Revision>): Result<Revision>
    requires fields != []
  {
    if |fields| > 3 then Err("too many '-' characters in release string")
    else if !VersionText(fields[0]) then Err("release strings may not contain character")
    else if |fields| < 3 && template.Some? then
      var t := template.value;
      if t.buildCount.Some? then
        MakeRevision(t.version, if |fields| == 2 then Some(fields[0]) else None, Some(t.sourceCount),
                     Some(fields[|fields| - 1]))
      else
        MakeRevision(if |fields| == 2 then fields[0] else t.version, Some(fields[|fields| - 1]),
                     Some(t.sourceCount), None)
    else
      MakeRevision(fields[0], if |fields| >= 2 then Some(fields[1]) else None, None,
                   if |fields| == 3 then Some(fields[2]) else None)
  }

  /** The end of `Revision.__init__`: the texts that were found, over the template's source count. */
  function MakeRevision(version: string, source: Option<string>, inherited: Option<Serial>, build: Option<string>)
    : (r: Result<Revision>)
    ensures r.Ok? ==> r.value.version == version && (r.value.buildCount.Some? <==> build.Some?)
  {
    if version == "" then Err("bad release string")
    else if source.Some? && ParseSerial(source.value).Err? then Err("invalid source version string")
    else if build.Some? && ParseSerial(build.value).Err? then Err("build count numbers must be all numeric")
    else if source.None? && inherited.None? then Err("bad release string")
    else
      Ok(Revision(version,
                  if source.Some? then ParseSerial(source.value).value else inherited.value,
                  if build.Some? then Some(ParseSerial(build.value).value) else None))
  }

  /** A revision printed against `t` says enough to be read back against `t`. */
  predicate Compatible(t: Revision, r: Revision)
  {
    || (t.buildCount.Some? <==> r.buildCount.Some?)
    || (t.buildCount.None? && r.buildCount.Some? && t.version != r.version)
  }

  lemma SerialIsVersionText(s: Serial)
    requires SerialOk(s)
    ensures VersionText(SerialString(s)) && Free(SerialString(s), '-') && SerialString(s) != ""
    ensures ParseSerial(SerialString(s)) == Ok(s)
  {
    SerialRoundTrip(s);
    forall i | 0 <= i < |SerialString(s)|
      ensures VersionChar(SerialString(s)[i])
    {
      assert SerialChar(SerialString(s)[i]);
    }
  }

  lemma RevisionFieldsText(r: Revision, versus: Option<Revision>)
    requires RevisionOk(r)
    ensures AllFree(RevisionFields(r, versus), '-')
    ensures forall i :: 0 <= i < |RevisionFields(r, versus)| ==>
              RevisionFields(r, versus)[i] != "" && VersionText(RevisionFields(r, versus)[i])
  {
    SerialIsVersionText(r.sourceCount);
    if r.buildCount.Some? {
      SerialIsVersionText(r.buildCount.value);
      assert FieldText(SerialString(r.buildCount.value));
    }
    assert FieldText(SerialString(r.sourceCount)) && FieldText(r.version);
    var fields := RevisionFields(r, versus);
    assert forall i :: 0 <= i < |fields| ==> FieldText(fields[i]);
  }

  /** A field of a revision; it cannot hold a hyphen. */
  predicate FieldText(s: string)
  {
    s != "" && VersionText(s) && Free(s, '-')
  }

  /** A printed revision reads back against the revision it was abbreviated against exactly
      when the two are both source, both binary, or a binary after a source of another version. */
  lemma RevisionRoundTrip(r: Revision, versus: Option<Revision>)
    requires RevisionOk(r)
    ensures (ParseRevision(RevisionString(r, versus), versus) == Ok(r))
            <==> (versus.None? || Compatible(versus.value, r))
  {
    RevisionFieldsText(r, versus);
    SplitJoin(RevisionFields(r, versus), '-');
    FieldsBack(r, versus);
  }

  lemma FieldsBack(r: Revision, versus: Option<Revision>)
    requires RevisionOk(r)
    ensures RevisionOf(RevisionFields(r, versus), versus) == Ok(r) <==> (versus.None? || Compatible(versus.value, r))
  {
    SerialIsVersionText(r.sourceCount);
    if r.buildCount.Some? {
      SerialIsVersionText(r.buildCount.value);
    }
  }

  /** The printed text never looks like the blank before a shadow, nor spans two parts. */
  lemma RevisionStringText(r: Revision, versus: Option<Revision>)
    requires RevisionOk(r)
    ensures RevisionString(r, versus) != ""
    ensures Free(RevisionString(r, versus), '/') && Free(RevisionString(r, versus), ':')
  {
    RevisionFieldsText(r, versus);
    JoinFree(RevisionFields(r, versus), '-', '/');
    JoinFree(RevisionFields(r, versus), '-', ':');
  }

  lemma {:induction false} JoinFree(parts: seq<string>, sep: char, c: char)
    requires parts != [] && sep != c
    requires forall i :: 0 <= i < |parts| ==> parts[i] != "" && Free(parts[i], c)
    ensures Join(parts, sep) != "" && Free(Join(parts, sep), c)
  {
    if |parts| > 1 {
      JoinFree(parts[1..], sep, c);
    }
  }

  // ---------------------------------------------------------------- version sequences

  /** A sequence starts with a label, and a revision is never followed by another one. */
  predicate Sequence(v: Version)
  {
    v != [] && Follows(v, true)
  }

  predicate PartsOk(v: Version)
  {
    forall i :: 0 <= i < |v| ==> PartOk(v[i])
  }

  predicate PartOk(p: Part)
  {
    match p
    case L(l) => LabelOk(l)
    case R(r) => RevisionOk(r)
  }

  /** `v` can come after a revision (or nothing) if a label is expected, after a label if not. */
  predicate Follows(v: Version, expectLabel: bool)
  {
    v == [] || ((expectLabel ==> v[0].L?) && Follows(v[1..], v[0].R?))
  }

  function RevisionCount(v: Version): nat
  {
    if v == [] then 0 else (if v[0].R? then 1 else 0) + RevisionCount(v[1..])
  }

  /** The frozen time stamps of the revisions, in order, or None for a string without them. */
  type Stamps = Option<seq<string>>

  predicate StampsFor(stamps: Stamps, v: Version)
  {
    stamps.Some? ==> |stamps.value| == RevisionCount(v)
  }

  function NextStamps(stamps: Stamps): Stamps
    requires stamps.Some? ==> stamps.value != []
  {
    if stamps.Some? then Some(stamps.value[1..]) else None
  }

  /** `Revision.asString(versus, frozen)` */
  function StampedString(r: Revision, versus: Option<Revision>, stamps: Stamps): string
    requires RevisionOk(r) && (stamps.Some? ==> stamps.value != [])
  {
    if stamps.Some? then stamps.value[0] + [':'] + RevisionString(r, versus) else RevisionString(r, versus)
  }

  /** What one round of the loop of `asString` appends. Between two labels it puts the blank
      which marks a shadow. */
  function PrintPart(p: Part, expectLabel: bool, lastLabel: Option<Label>, lastVersion: Option<Revision>,
                     stamps: Stamps): seq<string>
    requires PartOk(p) && (p.R? && stamps.Some? ==> stamps.value != [])
  {
    match p
    case L(l) => (if expectLabel then [] else [""]) + [LabelString(l, lastLabel)]
    case R(r) => [StampedString(r, lastVersion, stamps)]
  }

  function PrintParts(v: Version, expectLabel: bool, lastLabel: Option<Label>, lastVersion: Option<Revision>,
                      stamps: Stamps): seq<string>
    requires PartsOk(v) && Follows(v, expectLabel) && StampsFor(stamps, v)
  {
    if v == [] then []
    else
      match v[0]
      case L(l) =>
        PrintPart(v[0], expectLabel, lastLabel, lastVersion, stamps)
        + PrintParts(v[1..], false, Some(l), lastVersion, stamps)
      case R(r) =>
        PrintPart(v[0], expectLabel, lastLabel, lastVersion, stamps)
        + PrintParts(v[1..], true, lastLabel, Some(r), NextStamps(stamps))
  }

  /** `asString(frozen)`, as a function. */
  function PrintWith(v: Version, stamps: Stamps): string
    requires Sequence(v) && PartsOk(v) && StampsFor(stamps, v)
  {
    Join([""] + PrintParts(v, true, None, None, stamps), '/')
  }

  /** `asString()` */
  function Print(v: Version): string
    requires Sequence(v) && PartsOk(v)
  {
    PrintWith(v, None)
  }

  /** `freeze()` */
  function Freeze(v: Version, stamps: seq<string>): string
    requires Sequence(v) && PartsOk(v) && |stamps| == RevisionCount(v)
  {
    PrintWith(v, Some(stamps))
  }

  /** `VersionSequence.asString`: the loop over the parts. */
  method AsString(v: Version, stamps: Stamps) returns (s: string)
    requires Sequence(v) && PartsOk(v) && StampsFor(stamps, v)
    ensures s == PrintWith(v, stamps)
  {
    var strL := [""];
    var lastLabel: Option<Label>, lastVersion: Option<Revision> := None, None;
    var expectLabel, left := true, stamps;
    ghost var all := [""] + PrintParts(v, true, None, None, stamps);
    assert v[0..] == v;
    for i := 0 to |v|
      invariant PartsOk(v[i..]) && Follows(v[i..], expectLabel) && StampsFor(left, v[i..])
      invariant all == strL + PrintParts(v[i..], expectLabel, lastLabel, lastVersion, left)
    {
      PrintFirst(v, i, expectLabel, lastLabel, lastVersion, left, strL);
      match v[i] {
        case L(l) =>
          if !expectLabel {
            strL := strL + [""];
          }
          strL := strL + [LabelString(l, lastLabel)];
          lastLabel, expectLabel := Some(l), false;
        case R(r) =>
          strL := strL + [StampedString(r, lastVersion, left)];
          lastVersion, expectLabel, left := Some(r), true, NextStamps(left);
      }
    }
    assert strL + [] == strL;
    s := Join(strL, '/');
  }

  /** One round of the loop, for whatever has been printed `before`. */
  lemma {:induction false} PrintFirst(v: Version, i: nat, expectLabel: bool, lastLabel: Option<Label>, lastVersion: Option<Revision>,
                   stamps: Stamps, before: seq<string>)
    requires i < |v| && PartsOk(v[i..]) && Follows(v[i..], expectLabel) && StampsFor(stamps, v[i..])
    ensures PartOk(v[i]) && (v[i].R? && stamps.Some? ==> stamps.value != [])
    ensures PartsOk(v[i + 1..]) && Follows(v[i + 1..], v[i].R?)
    ensures StampsFor(if v[i].R? then NextStamps(stamps) else stamps, v[i + 1..])
    ensures var text := if v[i].L? then LabelString(v[i].lab, lastLabel)
                        else StampedString(v[i].rev, lastVersion, stamps);
            before + PrintParts(v[i..], expectLabel, lastLabel, lastVersion, stamps) ==
            (if v[i].L? && !expectLabel then before + [""] + [text] else before + [text]) +
            PrintParts(v[i + 1..], v[i].R?, if v[i].L? then Some(v[i].lab) else lastLabel,
                       if v[i].R? then Some(v[i].rev) else lastVersion,
                       if v[i].R? then NextStamps(stamps) else stamps)
  {
    assert v[i..][0] == v[i] && v[i..][1..] == v[i + 1..];
    PrintTail(v[i..], expectLabel, stamps);
    PrintUnfolds(v[i..], expectLabel, lastLabel, lastVersion, stamps);
    PrintAppends(before, v[i], expectLabel, lastLabel, lastVersion, stamps,
                 PrintParts(v[i + 1..], v[i].R?, if v[i].L? then Some(v[i].lab) else lastLabel,
                            if v[i].R? then Some(v[i].rev) else lastVersion,
                            if v[i].R? then NextStamps(stamps) else stamps));
  }

  /** What can be printed can be printed without its first part. */
  lemma PrintTail(v: Version, expectLabel: bool, stamps: Stamps)
    requires v != [] && PartsOk(v) && Follows(v, expectLabel) && StampsFor(stamps, v)
    ensures PartOk(v[0]) && (v[0].R? && stamps.Some? ==> stamps.value != [])
    ensures PartsOk(v[1..]) && Follows(v[1..], v[0].R?)
    ensures StampsFor(if v[0].R? then NextStamps(stamps) else stamps, v[1..])
  {
  }

  lemma PrintAppends(before: seq<string>, p: Part, expectLabel: bool, lastLabel: Option<Label>, lastVersion: Option<Revision>,
                     stamps: Stamps, rest: seq<string>)
    requires PartOk(p) && (p.R? && stamps.Some? ==> stamps.value != [])
    ensures var text := if p.L? then LabelString(p.lab, lastLabel) else StampedString(p.rev, lastVersion, stamps);
            before + (PrintPart(p, expectLabel, lastLabel, lastVersion, stamps) + rest)
            == (if p.L? && !expectLabel then before + [""] + [text] else before + [text]) + rest
  {
  }

  lemma PrintUnfolds(v: Version, expectLabel: bool, lastLabel: Option<Label>, lastVersion: Option<Revision>, stamps: Stamps)
    requires v != [] && PartsOk(v) && Follows(v, expectLabel) && StampsFor(stamps, v)
    ensures PrintParts(v, expectLabel, lastLabel, lastVersion, stamps)
         == PrintPart(v[0], expectLabel, lastLabel, lastVersion, stamps)
            + PrintParts(v[1..], v[0].R?, if v[0].L? then Some(v[0].lab) else lastLabel,
                         if v[0].R? then Some(v[0].rev) else lastVersion,
                         if v[0].R? then NextStamps(stamps) else stamps)
  {
  }

  /** `Revision.shadowCount` */
  function RevisionShadowCount(r: Revision): int
  {
    if |r.sourceCount| - 1 != 0 then |r.sourceCount| - 1
    else if r.buildCount.Some? && Truth(r.buildCount.value) then |r.buildCount.value| - 1
    else 0
  }

  /** `SerialNumber.__nonzero__` */
  predicate Truth(s: Serial)
  {
    s != [] && s != [0]
  }

  /** A parsed version with the text of its time stamps; "" is a stamp of 0. */
  datatype Parsed = Parsed(parts: Version, stamps: seq<string>)

  /** The stamp and the rest of `value.split(':', 1)`. */
  function SplitStamp(value: string, frozen: bool): Result<(string, string)>
  {
    if !frozen then Ok(("", value))
    else
      var fields := Split(value, ':');
      if |fields| < 2 then Err("ValueError") else Ok((fields[0], Join(fields[1..], ':')))
  }

  function ParseParts(parts: seq<string>, frozen: bool, expectLabel: bool,
                      lastLabel: Option<Label>, lastVersion: Option<Revision>,
                      shadowCount: nat, justShadowed: bool): Result<Parsed>
  {
    if parts == [] then Ok(Parsed([], []))
    else if expectLabel then
      var l := ParseLabel(parts[0], lastLabel);
      if l.Err? then Err(l.error)
      else
        Extend(Parsed([L(l.value)], []),
               ParseParts(parts[1..], frozen, false, Some(l.value), lastVersion,
                          if justShadowed then shadowCount else 0, false))
    else if parts[0] == "" then
      ParseParts(parts[1..], frozen, true, lastLabel, lastVersion, shadowCount + 1, true)
    else
      var text := SplitStamp(parts[0], frozen);
      if text.Err? then Err(text.error)
      else
        var r := ParseRevision(text.value.1, lastVersion);
        if r.Err? then Err(r.error)
        else if RevisionShadowCount(r.value) > shadowCount then Err("too many shadow serial numbers")
        else
          Extend(Parsed([R(r.value)], [text.value.0]),
                 ParseParts(parts[1..], frozen, true, lastLabel, Some(r.value), shadowCount, justShadowed))
  }

  function Extend(before: Parsed, rest: Result<Parsed>): Result<Parsed>
  {
    if rest.Err? then rest else Ok(Parsed(before.parts + rest.value.parts, before.stamps + rest.value.stamps))
  }

  /** `_VersionFromString(ver, frozen)`, as a function. The empty string is an IndexError. */
  function ParseWith(ver: string, frozen: bool): Result<Parsed>
  {
    if ver == "" then Err("IndexError")
    else if ver[0] != '/' then Err("Expected full version")
    else ParseParts(Split(ver, '/')[1..], frozen, true, None, None, 0, false)
  }

  /** `VersionFromString(ver)` */
  function Parse(ver: string): (r: Result<Version>)
    ensures r.Ok? <==> ParseWith(ver, false).Ok?
  {
    var r := ParseWith(ver, false);
    if r.Err? then Err(r.error) else Ok(r.value.parts)
  }

  /** `ThawVersion(ver)` */
  function Thaw(ver: string): Result<Parsed>
  {
    ParseWith(ver, true)
  }

  /** `_VersionFromString`: the loop over the fields between slashes. */
  method VersionFromString(ver: string, frozen: bool) returns (r: Result<Parsed>)
    ensures r == ParseWith(ver, frozen)
  {
    if ver == "" {
      return Err("IndexError");
    }
    if ver[0] != '/' {
      return Err("Expected full version");
    }
    var parts := Split(ver, '/')[1..];
    var vList := Parsed([], []);
    var lastVersion: Option<Revision>, lastBranch: Option<Label> := None, None;
    var expectLabel, justShadowed, shadowCount: nat := true, false, 0;
    assert parts[0..] == parts;
    ExtendNothing(ParseWith(ver, frozen));
    for i := 0 to |parts|
      invariant ParseWith(ver, frozen) ==
                Extend(vList, ParseParts(parts[i..], frozen, expectLabel, lastBranch, lastVersion,
                                         shadowCount, justShadowed))
    {
      var part := parts[i];
      assert parts[i..][1..] == parts[i + 1..];
      if expectLabel {
        var l := ParseLabel(part, lastBranch);
        if l.Err? {
          return Err(l.error);
        }
        lastBranch := Some(l.value);
        ExtendTwice(vList, Parsed([L(l.value)], []),
                    ParseParts(parts[i + 1..], frozen, false, lastBranch, lastVersion,
                               if justShadowed then shadowCount else 0, false));
        vList := Parsed(vList.parts + [L(l.value)], vList.stamps + []);
        expectLabel := false;
        if justShadowed {
          justShadowed := false;
        } else {
          shadowCount := 0;
        }
      } else if part == "" {
        expectLabel, shadowCount, justShadowed := true, shadowCount + 1, true;
      } else {
        expectLabel := true;
        var text := SplitStamp(part, frozen);
        if text.Err? {
          return Err(text.error);
        }
        var rev := ParseRevision(text.value.1, lastVersion);
        if rev.Err? {
          return Err(rev.error);
        }
        lastVersion := Some(rev.value);
        if RevisionShadowCount(rev.value) > shadowCount {
          return Err("too many shadow serial numbers");
        }
        ExtendTwice(vList, Parsed([R(rev.value)], [text.value.0]),
                    ParseParts(parts[i + 1..], frozen, true, lastBranch, lastVersion, shadowCount, justShadowed));
        vList := Parsed(vList.parts + [R(rev.value)], vList.stamps + [text.value.0]);
      }
    }
    assert parts[|parts|..] == [];
    assert vList.parts + [] == vList.parts && vList.stamps + [] == vList.stamps;
    r := Ok(vList);
  }

  lemma ExtendNothing(rest: Result<Parsed>)
    ensures Extend(Parsed([], []), rest) == rest
  {
    if rest.Ok? {
      assert [] + rest.value.parts == rest.value.parts && [] + rest.value.stamps == rest.value.stamps;
    }
  }

  lemma ExtendTwice(a: Parsed, b: Parsed, rest: Result<Parsed>)
    ensures Extend(a, Extend(b, rest)) == Extend(Parsed(a.parts + b.parts, a.stamps + b.stamps), rest)
  {
    if rest.Ok? {
      assert a.parts + (b.parts + rest.value.parts) == a.parts + b.parts + rest.value.parts;
      assert a.stamps + (b.stamps + rest.value.stamps) == a.stamps + b.stamps + rest.value.stamps;
    }
  }

  // ---------------------------------------------------------------- parsing undoes printing

  /** Every revision can be read back against the revision before it. */
  predicate KindsAgree(v: Version, last: Option<Revision>)
  {
    if v == [] then true
    else
      match v[0]
      case L(_) => KindsAgree(v[1..], last)
      case R(r) => (last.None? || Compatible(last.value, r)) && KindsAgree(v[1..], Some(r))
  }

  /** No revision has more serial numbers than its shadow depth, as the parser counts both. */
  predicate SerialsFit(v: Version, expectLabel: bool, depth: nat)
  {
    if v == [] then true
    else
      match v[0]
      case L(_) => SerialsFit(v[1..], false, if expectLabel then 0 else depth + 1)
      case R(r) => RevisionShadowCount(r) <= depth && SerialsFit(v[1..], true, depth)
  }

  predicate StampText(t: string)
  {
    Free(t, ':') && Free(t, '/')
  }

  predicate StampsOk(stamps: Stamps)
  {
    stamps.Some? ==> forall i :: 0 <= i < |stamps.value| ==> StampText(stamps.value[i])
  }

  /** The stamps the parser returns for a printed string. */
  function StampList(v: Version, stamps: Stamps): seq<string>
    requires StampsFor(stamps, v)
  {
    if stamps.Some? then stamps.value else seq(RevisionCount(v), i => "")
  }

  lemma StampedRoundTrip(r: Revision, versus: Option<Revision>, stamps: Stamps)
    requires RevisionOk(r) && StampsOk(stamps) && (stamps.Some? ==> stamps.value != [])
    ensures var text := StampedString(r, versus, stamps);
            && text != "" && Free(text, '/')
            && SplitStamp(text, stamps.Some?) ==
                 Ok((if stamps.Some? then stamps.value[0] else "", RevisionString(r, versus)))
  {
    RevisionStringText(r, versus);
    if stamps.Some? {
      assert StampText(stamps.value[0]);
      SplitPair(stamps.value[0], RevisionString(r, versus), ':');
    }
  }

  lemma LabelPartFree(v: Version, expectLabel: bool, lastLabel: Option<Label>, lastVersion: Option<Revision>,
                      stamps: Stamps)
    requires v != [] && v[0].L? && PartsOk(v) && Follows(v, expectLabel) && StampsFor(stamps, v)
    ensures AllFree(PrintPart(v[0], expectLabel, lastLabel, lastVersion, stamps), '/')
  {
    LabelRoundTrip(v[0].lab, lastLabel);
  }

  lemma RevisionPartFree(v: Version, expectLabel: bool, lastLabel: Option<Label>, lastVersion: Option<Revision>,
                         stamps: Stamps)
    requires v != [] && v[0].R? && PartsOk(v) && Follows(v, expectLabel) && StampsFor(stamps, v) && StampsOk(stamps)
    ensures AllFree(PrintPart(v[0], expectLabel, lastLabel, lastVersion, stamps), '/')
  {
    StampedRoundTrip(v[0].rev, lastVersion, stamps);
  }

  lemma {:induction false} PartsFree(v: Version, expectLabel: bool, lastLabel: Option<Label>, lastVersion: Option<Revision>,
                  stamps: Stamps)
    requires PartsOk(v) && Follows(v, expectLabel) && StampsFor(stamps, v) && StampsOk(stamps)
    ensures AllFree(PrintParts(v, expectLabel, lastLabel, lastVersion, stamps), '/')
  {
    if v != [] {
      match v[0] {
        case L(l) =>
          LabelPartFree(v, expectLabel, lastLabel, lastVersion, stamps);
          PartsFree(v[1..], false, Some(l), lastVersion, stamps);
        case R(r) =>
          RevisionPartFree(v, expectLabel, lastLabel, lastVersion, stamps);
          PartsFree(v[1..], true, lastLabel, Some(r), NextStamps(stamps));
      }
    }
  }

  /** Reading back the printed parts gives `v` exactly when its kinds agree and its serials fit. */
  ghost predicate RoundTrips(v: Version, expectLabel: bool, lastLabel: Option<Label>, lastVersion: Option<Revision>,
                             stamps: Stamps, depth: nat)
    requires PartsOk(v) && Follows(v, expectLabel) && StampsFor(stamps, v)
  {
    var back := ParseParts(PrintParts(v, expectLabel, lastLabel, lastVersion, stamps), stamps.Some?,
                           expectLabel, lastLabel, lastVersion, depth, false);
    && (KindsAgree(v, lastVersion) && SerialsFit(v, expectLabel, depth) ==> back == Ok(Parsed(v, StampList(v, stamps))))
    && (back.Ok? && back.value.parts == v ==> KindsAgree(v, lastVersion) && SerialsFit(v, expectLabel, depth))
  }

  lemma ParseLabelText(text: string, l: Label, rest: seq<string>, frozen: bool,
                       lastLabel: Option<Label>, lastVersion: Option<Revision>, depth: nat, justShadowed: bool)
    requires ParseLabel(text, lastLabel) == Ok(l)
    ensures ParseParts([text] + rest, frozen, true, lastLabel, lastVersion, depth, justShadowed)
            == Extend(Parsed([L(l)], []),
                      ParseParts(rest, frozen, false, Some(l), lastVersion, if justShadowed then depth else 0, false))
  {
    assert ([text] + rest)[1..] == rest;
  }

  lemma ParseBlank(rest: seq<string>, frozen: bool, lastLabel: Option<Label>, lastVersion: Option<Revision>, depth: nat)
    ensures ParseParts([""] + rest, frozen, false, lastLabel, lastVersion, depth, false)
            == ParseParts(rest, frozen, true, lastLabel, lastVersion, depth + 1, true)
  {
    assert ([""] + rest)[1..] == rest;
  }

  lemma ExtendFirst(p: Part, stamp: seq<string>, rest: Result<Parsed>, v: Version)
    requires v != []
    ensures var all := Extend(Parsed([p], stamp), rest);
            && (all.Ok? && all.value.parts == v <==> rest.Ok? && p == v[0] && rest.value.parts == v[1..])
            && (rest.Ok? ==> all.value.stamps == stamp + rest.value.stamps)
  {
    if rest.Ok? {
      var all := Extend(Parsed([p], stamp), rest).value.parts;
      assert all[0] == p && all[1..] == rest.value.parts;
      assert v == [v[0]] + v[1..];
    }
  }

  lemma LabelStep(v: Version, expectLabel: bool, lastLabel: Option<Label>, lastVersion: Option<Revision>,
                  stamps: Stamps, depth: nat)
    requires PartsOk(v) && Follows(v, expectLabel) && StampsFor(stamps, v) && v != [] && v[0].L?
    requires RoundTrips(v[1..], false, Some(v[0].lab), lastVersion, stamps, if expectLabel then 0 else depth + 1)
    ensures RoundTrips(v, expectLabel, lastLabel, lastVersion, stamps, depth)
  {
    var l, next := v[0].lab, if expectLabel then 0 else depth + 1;
    var text, rest := LabelString(l, lastLabel), PrintParts(v[1..], false, Some(l), lastVersion, stamps);
    LabelRoundTrip(l, lastLabel);
    LabelThenRest(text, l, rest, stamps.Some?, expectLabel, lastLabel, lastVersion, depth);
    var back := ParseParts(rest, stamps.Some?, false, Some(l), lastVersion, next, false);
    ExtendFirst(v[0], [], back, v);
    assert back.Ok? ==> [] + back.value.stamps == back.value.stamps;
  }

  /** A label, behind the blank that marks a shadow if no label is expected. */
  lemma LabelThenRest(text: string, l: Label, rest: seq<string>, frozen: bool, expectLabel: bool,
                      lastLabel: Option<Label>, lastVersion: Option<Revision>, depth: nat)
    requires text != "" && ParseLabel(text, lastLabel) == Ok(l)
    ensures ParseParts((if expectLabel then [] else [""]) + [text] + rest, frozen, expectLabel, lastLabel, lastVersion, depth,
                       false)
         == Extend(Parsed([L(l)], []),
                   ParseParts(rest, frozen, false, Some(l), lastVersion, if expectLabel then 0 else depth + 1, false))
  {
    if expectLabel {
      ParseLabelText(text, l, rest, frozen, lastLabel, lastVersion, depth, false);
      assert [] + [text] + rest == [text] + rest;
    } else {
      ShadowLabelText(text, l, rest, frozen, lastLabel, lastVersion, depth);
    }
  }

  lemma ShadowLabelText(text: string, l: Label, rest: seq<string>, frozen: bool,
                        lastLabel: Option<Label>, lastVersion: Option<Revision>, depth: nat)
    requires text != "" && ParseLabel(text, lastLabel) == Ok(l)
    ensures ParseParts([""] + [text] + rest, frozen, false, lastLabel, lastVersion, depth, false)
         == Extend(Parsed([L(l)], []), ParseParts(rest, frozen, false, Some(l), lastVersion, depth + 1, false))
  {
    var tail := [text] + rest;
    assert [""] + [text] + rest == [""] + tail;
    ParseBlank(tail, frozen, lastLabel, lastVersion, depth);
    ParseLabelText(text, l, rest, frozen, lastLabel, lastVersion, depth + 1, true);
  }

  lemma ParseRevisionText(text: string, value: string, stamp: string, rest: seq<string>, frozen: bool,
                          lastLabel: Option<Label>, lastVersion: Option<Revision>, depth: nat)
    requires text != "" && SplitStamp(text, frozen) == Ok((stamp, value))
    ensures var r := ParseRevision(value, lastVersion);
            ParseParts([text] + rest, frozen, false, lastLabel, lastVersion, depth, false)
            == if r.Err? then Err(r.error)
               else if RevisionShadowCount(r.value) > depth then Err("too many shadow serial numbers")
               else Extend(Parsed([R(r.value)], [stamp]),
                           ParseParts(rest, frozen, true, lastLabel, Some(r.value), depth, false))
  {
    assert ([text] + rest)[1..] == rest;
  }

  /** One revision and the rest: both must read back. */
  lemma RevisionThenRest(v: Version, text: string, value: string, stamp: string, rest: seq<string>, frozen: bool,
                         lastLabel: Option<Label>, lastVersion: Option<Revision>, depth: nat,
                         restReadable: bool, restStamps: seq<string>)
    requires v != [] && v[0].R?
    requires text != "" && SplitStamp(text, frozen) == Ok((stamp, value))
    requires var back := ParseParts(rest, frozen, true, lastLabel, Some(v[0].rev), depth, false);
             && (restReadable ==> back == Ok(Parsed(v[1..], restStamps)))
             && (back.Ok? && back.value.parts == v[1..] ==> restReadable)
    ensures var back := ParseParts([text] + rest, frozen, false, lastLabel, lastVersion, depth, false);
            var readable := ParseRevision(value, lastVersion) == Ok(v[0].rev)
                            && RevisionShadowCount(v[0].rev) <= depth && restReadable;
            && (readable ==> back == Ok(Parsed(v, [stamp] + restStamps)))
            && (back.Ok? && back.value.parts == v ==> readable)
  {
    ParseRevisionText(text, value, stamp, rest, frozen, lastLabel, lastVersion, depth);
    var first := ParseRevision(value, lastVersion);
    if first.Ok? {
      ExtendFirst(R(first.value), [stamp],
                  ParseParts(rest, frozen, true, lastLabel, Some(first.value), depth, false), v);
    }
  }

  lemma StampListFirst(v: Version, stamps: Stamps)
    requires StampsFor(stamps, v) && v != [] && v[0].R?
    ensures StampList(v, stamps)
            == [if stamps.Some? then stamps.value[0] else ""] + StampList(v[1..], NextStamps(stamps))
  {
  }

  lemma RevisionStep(v: Version, lastLabel: Option<Label>, lastVersion: Option<Revision>, stamps: Stamps, depth: nat)
    requires PartsOk(v) && Follows(v, false) && StampsFor(stamps, v) && StampsOk(stamps) && v != [] && v[0].R?
    requires RoundTrips(v[1..], true, lastLabel, Some(v[0].rev), NextStamps(stamps), depth)
    ensures RoundTrips(v, false, lastLabel, lastVersion, stamps, depth)
  {
    var r, frozen := v[0].rev, stamps.Some?;
    var text := StampedString(r, lastVersion, stamps);
    var rest := PrintParts(v[1..], true, lastLabel, Some(r), NextStamps(stamps));
    var stamp, restStamps := if frozen then stamps.value[0] else "", StampList(v[1..], NextStamps(stamps));
    StampedRoundTrip(r, lastVersion, stamps);
    RevisionRoundTrip(r, lastVersion);
    RevisionThenRest(v, text, RevisionString(r, lastVersion), stamp, rest, frozen, lastLabel, lastVersion, depth,
                     KindsAgree(v[1..], Some(r)) && SerialsFit(v[1..], true, depth), restStamps);
    assert PrintParts(v, false, lastLabel, lastVersion, stamps) == [text] + rest;
    StampListFirst(v, stamps);
  }

  lemma {:induction false} PartsRoundTrip(v: Version, expectLabel: bool, lastLabel: Option<Label>,
                                          lastVersion: Option<Revision>, stamps: Stamps, depth: nat)
    requires PartsOk(v) && Follows(v, expectLabel) && StampsFor(stamps, v) && StampsOk(stamps)
    ensures RoundTrips(v, expectLabel, lastLabel, lastVersion, stamps, depth)
  {
    if v == [] {
      assert StampList(v, stamps) == [];
    } else {
      match v[0] {
        case L(l) =>
          PartsRoundTrip(v[1..], false, Some(l), lastVersion, stamps, if expectLabel then 0 else depth + 1);
          LabelStep(v, expectLabel, lastLabel, lastVersion, stamps, depth);
        case R(r) =>
          PartsRoundTrip(v[1..], true, lastLabel, Some(r), NextStamps(stamps), depth);
          RevisionStep(v, lastLabel, lastVersion, stamps, depth);
      }
    }
  }

  /** What the printer writes between slashes is what the parser and `strToFrozen` find there. */
  lemma PrintedFields(v: Version, stamps: Stamps)
    requires Sequence(v) && PartsOk(v) && StampsFor(stamps, v) && StampsOk(stamps)
    ensures var text := PrintWith(v, stamps);
            && text != "" && text[0] == '/'
            && Split(text, '/') == [""] + PrintParts(v, true, None, None, stamps)
  {
    var fields := [""] + PrintParts(v, true, None, None, stamps);
    PartsFree(v, true, None, None, stamps);
    SplitJoin(fields, '/');
    assert |fields| > 1 && Join(fields, '/') == "" + ['/'] + Join(fields[1..], '/');
  }

  /** Parsing undoes printing for exactly those versions whose neighbouring revisions agree in
      kind and whose serial numbers fit the shadow depth. */
  lemma ParseUndoesPrint(v: Version)
    requires Sequence(v) && PartsOk(v)
    ensures (Parse(Print(v)) == Ok(v)) <==> (KindsAgree(v, None) && SerialsFit(v, true, 0))
  {
    PrintedFields(v, None);
    PartsRoundTrip(v, true, None, None, None, 0);
    assert ([""] + PrintParts(v, true, None, None, None))[1..] == PrintParts(v, true, None, None, None);
  }

  /** Thawing undoes freezing, time stamps included, on the same versions. */
  lemma ThawUndoesFreeze(v: Version, stamps: seq<string>)
    requires Sequence(v) && PartsOk(v) && |stamps| == RevisionCount(v) && StampsOk(Some(stamps))
    ensures (Thaw(Freeze(v, stamps)) == Ok(Parsed(v, stamps))) <==> (KindsAgree(v, None) && SerialsFit(v, true, 0))
  {
    PrintedFields(v, Some(stamps));
    PartsRoundTrip(v, true, None, None, Some(stamps), 0);
    assert ([""] + PrintParts(v, true, None, None, Some(stamps)))[1..] == PrintParts(v, true, None, None, Some(stamps));
  }

  /** All source or all binary is enough for the kinds. */
  lemma {:induction false} OneKindAgrees(v: Version, last: Option<Revision>, binary: bool)
    requires forall i :: 0 <= i < |v| && v[i].R? ==> (v[i].rev.buildCount.Some? <==> binary)
    requires last.Some? ==> (last.value.buildCount.Some? <==> binary)
    ensures KindsAgree(v, last)
  {
    if v != [] {
      assert forall i :: 0 <= i < |v[1..]| ==> v[1..][i] == v[i + 1];
      OneKindAgrees(v[1..], if v[0].R? then Some(v[0].rev) else last, binary);
    }
  }

  // ---------------------------------------------------------------- strToFrozen

  /** `strToFrozen`, as a function over the fields between slashes: it knows a revision only as
      the second field in a row that is not empty. Too few stamps is an IndexError, too many
      an AssertionError. */
  function StampFields(fields: seq<string>, nextIsVer: bool, stamps: seq<string>): Result<seq<string>>
  {
    if fields == [] then (if stamps == [] then Ok([]) else Err("AssertionError"))
    else if fields[0] == "" then Cons("", StampFields(fields[1..], false, stamps))
    else if !nextIsVer then Cons(fields[0], StampFields(fields[1..], true, stamps))
    else if stamps == [] then Err("IndexError")
    else Cons(stamps[0] + [':'] + fields[0], StampFields(fields[1..], false, stamps[1..]))
  }

  function Cons(first: string, rest: Result<seq<string>>): Result<seq<string>>
  {
    if rest.Err? then rest else Ok([first] + rest.value)
  }

  function Stamped(verStr: string, stamps: seq<string>): Result<string>
  {
    var fields := StampFields(Split(verStr, '/'), false, stamps);
    if fields.Err? then Err(fields.error) else Ok(Join(fields.value, '/'))
  }

  method StrToFrozen(verStr: string, timeStamps: seq<string>) returns (r: Result<string>)
    ensures r == Stamped(verStr, timeStamps)
  {
    var spl := Split(verStr, '/');
    var nextIsVer, ts := false, 0;
    ghost var fields := spl;
    ghost var all := StampFields(fields, false, timeStamps);
    assert spl[..0] == [] && fields[0..] == fields && timeStamps[0..] == timeStamps;
    assert all.Ok? ==> [] + all.value == all.value;
    for i := 0 to |spl|
      invariant ts <= |timeStamps| && |spl| == |fields|
      invariant spl[i..] == fields[i..]
      invariant all == Prefixed(spl[..i], StampFields(fields[i..], nextIsVer, timeStamps[ts..]))
    {
      var s := spl[i];
      assert fields[i..][0] == s && fields[i..][1..] == fields[i + 1..];
      ghost var before := spl[..i];
      if s == "" {
        nextIsVer := false;
      } else if !nextIsVer {
        nextIsVer := true;
      } else {
        nextIsVer := false;
        if ts == |timeStamps| {
          return Err("IndexError");
        }
        assert timeStamps[ts..][1..] == timeStamps[ts + 1..];
        spl := spl[i := timeStamps[ts] + [':'] + s];
        ts := ts + 1;
      }
      assert spl[..i] == before;
      PrefixedOne(before, spl[i], StampFields(fields[i + 1..], nextIsVer, timeStamps[ts..]));
      assert spl[..i + 1] == before + [spl[i]];
    }
    assert spl[..|spl|] == spl && spl + [] == spl;
    if ts != |timeStamps| {
      return Err("AssertionError");
    }
    r := Ok(Join(spl, '/'));
  }

  function Prefixed(before: seq<string>, rest: Result<seq<string>>): Result<seq<string>>
  {
    if rest.Err? then rest else Ok(before + rest.value)
  }

  lemma PrefixedOne(before: seq<string>, s: string, rest: Result<seq<string>>)
    ensures Prefixed(before, Cons(s, rest)) == Prefixed(before + [s], rest)
  {
    if rest.Ok? {
      assert before + ([s] + rest.value) == before + [s] + rest.value;
    }
  }

  lemma StampLabel(text: string, expectLabel: bool, rest: seq<string>, stamps: seq<string>, stamped: seq<string>)
    requires text != "" && StampFields(rest, true, stamps) == Ok(stamped)
    ensures var head := (if expectLabel then [] else [""]) + [text];
            StampFields(head + rest, !expectLabel, stamps) == Ok(head + stamped)
  {
    assert ([text] + rest)[1..] == rest;
    if expectLabel {
      assert [] + [text] == [text];
    } else {
      assert [""] + [text] + rest == [""] + ([text] + rest);
      assert ([""] + ([text] + rest))[1..] == [text] + rest;
      assert [""] + [text] + stamped == [""] + ([text] + stamped);
    }
  }

  lemma StampRevision(text: string, rest: seq<string>, stamps: seq<string>, stamped: seq<string>)
    requires text != "" && stamps != [] && StampFields(rest, false, stamps[1..]) == Ok(stamped)
    ensures StampFields([text] + rest, true, stamps) == Ok([stamps[0] + [':'] + text] + stamped)
  {
    assert ([text] + rest)[1..] == rest;
  }

  lemma {:induction false} StampsFindRevisions(v: Version, expectLabel: bool, lastLabel: Option<Label>,
                                               lastVersion: Option<Revision>, stamps: seq<string>)
    requires PartsOk(v) && Follows(v, expectLabel) && |stamps| == RevisionCount(v)
    ensures StampFields(PrintParts(v, expectLabel, lastLabel, lastVersion, None), !expectLabel, stamps)
            == Ok(PrintParts(v, expectLabel, lastLabel, lastVersion, Some(stamps)))
  {
    if v != [] {
      match v[0] {
        case L(l) =>
          LabelRoundTrip(l, lastLabel);
          StampsFindRevisions(v[1..], false, Some(l), lastVersion, stamps);
          StampLabel(LabelString(l, lastLabel), expectLabel, PrintParts(v[1..], false, Some(l), lastVersion, None),
                     stamps, PrintParts(v[1..], false, Some(l), lastVersion, Some(stamps)));
        case R(r) =>
          RevisionStringText(r, lastVersion);
          StampsFindRevisions(v[1..], true, lastLabel, Some(r), stamps[1..]);
          StampRevision(RevisionString(r, lastVersion), PrintParts(v[1..], true, lastLabel, Some(r), None),
                        stamps, PrintParts(v[1..], true, lastLabel, Some(r), Some(stamps[1..])));
      }
    }
  }

  lemma StampLabelErr(text: string, expectLabel: bool, rest: seq<string>, stamps: seq<string>, error: string)
    requires text != "" && StampFields(rest, true, stamps) == Err(error)
    ensures var head := (if expectLabel then [] else [""]) + [text];
            StampFields(head + rest, !expectLabel, stamps) == Err(error)
  {
    assert ([text] + rest)[1..] == rest;
    if expectLabel {
      assert [] + [text] == [text];
    } else {
      assert [""] + [text] + rest == [""] + ([text] + rest);
      assert ([""] + ([text] + rest))[1..] == [text] + rest;
    }
  }

  lemma {:induction false} StampsMiscounted(v: Version, expectLabel: bool, lastLabel: Option<Label>,
                                            lastVersion: Option<Revision>, stamps: seq<string>)
    requires PartsOk(v) && Follows(v, expectLabel) && |stamps| != RevisionCount(v)
    ensures StampFields(PrintParts(v, expectLabel, lastLabel, lastVersion, None), !expectLabel, stamps)
            == Err(if |stamps| < RevisionCount(v) then "IndexError" else "AssertionError")
  {
    if v != [] {
      match v[0] {
        case L(l) =>
          LabelRoundTrip(l, lastLabel);
          StampsMiscounted(v[1..], false, Some(l), lastVersion, stamps);
          StampLabelErr(LabelString(l, lastLabel), expectLabel, PrintParts(v[1..], false, Some(l), lastVersion, None),
                        stamps, if |stamps| < RevisionCount(v) then "IndexError" else "AssertionError");
        case R(r) =>
          RevisionStringText(r, lastVersion);
          var text, rest := RevisionString(r, lastVersion), PrintParts(v[1..], true, lastLabel, Some(r), None);
          assert ([text] + rest)[1..] == rest;
          if stamps != [] {
            StampsMiscounted(v[1..], true, lastLabel, Some(r), stamps[1..]);
          }
      }
    }
  }

  /** With too few stamps for the revisions it runs out of them, and with too many its assertion fails. */
  lemma StrToFrozenMiscounted(v: Version, stamps: seq<string>)
    requires Sequence(v) && PartsOk(v) && |stamps| != RevisionCount(v)
    ensures Stamped(Print(v), stamps) == Err(if |stamps| < RevisionCount(v) then "IndexError" else "AssertionError")
  {
    PrintedFields(v, None);
    StampsMiscounted(v, true, None, None, stamps);
    var parts := PrintParts(v, true, None, None, None);
    assert ([""] + parts)[1..] == parts;
  }

  /** Stamping the printed string gives the frozen one, for any mix of branches and shadows. */
  lemma StrToFrozenIsFreeze(v: Version, stamps: seq<string>)
    requires Sequence(v) && PartsOk(v) && |stamps| == RevisionCount(v)
    ensures Stamped(Print(v), stamps) == Ok(Freeze(v, stamps))
  {
    PrintedFields(v, None);
    StampsFindRevisions(v, true, None, None, stamps);
    var parts := PrintParts(v, true, None, None, None);
    assert ([""] + parts)[1..] == parts;
  }
}
