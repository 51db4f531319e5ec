/** The algebra of branches and shadows: what creating a branch or a shadow, counting up and
    going back to the parent do to a version, and how they undo each other. */
module Shadows {
  import opened Text
  import opened Versions

  // ---------------------------------------------------------------- serial numbers

  function Zeros(n: int): (s: Serial)
    ensures |s| == (if n > 0 then n else 0) && forall i :: 0 <= i < |s| ==> s[i] == 0
  {
    if n <= 0 then [] else Zeros(n - 1) + [0]
  }

  predicate AllZero(s: Serial)
  {
    forall i :: 0 <= i < |s| ==> s[i] == 0
  }

  function StripZeros(s: Serial): Serial
  {
    if |s| > 1 && s[|s| - 1] == 0 then StripZeros(s[..|s| - 1]) else s
  }

  /** `truncateShadowCount(count, fromEnd)` */
  function Truncated(s: Serial, count: nat, fromEnd: bool): Serial
  {
    if |s| <= count + 1 then s
    else StripZeros(if fromEnd then s[|s| - (count + 1)..] else s[..count + 1])
  }

  /** `increment(listLen)` */
  function Incremented(s: Serial, listLen: int): Serial
    requires s != []
  {
    var padded := s + Zeros(listLen + 1 - |s|);
    padded[|padded| - 1 := padded[|padded| - 1] + 1]
  }

  /** `SerialNumber`: the numbers, updated in place. */
  class SerialNumber {
    var numList: Serial

    constructor (numbers: Serial)
      ensures numList == numbers
    {
      numList := numbers;
    }

    method TruncateShadowCount(count: nat, fromEnd: bool)
      modifies this
      ensures numList == Truncated(old(numList), count, fromEnd)
    {
      var n := count + 1;
      if |numList| <= n {
        return;
      }
      if fromEnd {
        numList := numList[|numList| - n..];
      } else {
        numList := numList[..n];
      }
      ghost var cut := numList;
      while |numList| > 1 && numList[|numList| - 1] == 0
        invariant StripZeros(numList) == StripZeros(cut)
        decreases |numList|
      {
        numList := numList[..|numList| - 1];
      }
    }

    method Increment(listLen: int)
      requires numList != []
      modifies this
      ensures numList == Incremented(old(numList), listLen)
    {
      numList := numList + Zeros(listLen + 1 - |numList|);
      numList := numList[|numList| - 1 := numList[|numList| - 1] + 1];
    }

    /** `__cmp__` */
    method Compare(other: SerialNumber) returns (r: int)
      ensures r == Cmp(numList, other.numList)
    {
      var n := if |numList| < |other.numList| then |numList| else |other.numList|;
      var i := 0;
      assert numList[0..] == numList && other.numList[0..] == other.numList;
      while i < n
        invariant 0 <= i <= n
        invariant Cmp(numList, other.numList) == Cmp(numList[i..], other.numList[i..])
      {
        if numList[i] != other.numList[i] {
          return if numList[i] < other.numList[i] then -1 else 1;
        }
        assert numList[i..][1..] == numList[i + 1..] && other.numList[i..][1..] == other.numList[i + 1..];
        i := i + 1;
      }
      return if |numList| < |other.numList| then -1 else if |numList| > |other.numList| then 1 else 0;
    }
  }

  /** The order of serial numbers: number by number, then by length. */
  function Cmp(a: Serial, b: Serial): int
  {
    if a == [] || b == [] then (if |a| < |b| then -1 else if |a| > |b| then 1 else 0)
    else if a[0] != b[0] then (if a[0] < b[0] then -1 else 1)
    else Cmp(a[1..], b[1..])
  }

  /** It is a total order which agrees with equality. */
  lemma {:induction false} CmpTotal(a: Serial, b: Serial)
    ensures Cmp(a, b) == 0 <==> a == b
    ensures Cmp(a, b) == -Cmp(b, a)
  {
    if a != [] && b != [] && a[0] == b[0] {
      CmpTotal(a[1..], b[1..]);
      assert a == [a[0]] + a[1..] && b == [b[0]] + b[1..];
    }
  }

  lemma {:induction false} CmpTransitive(a: Serial, b: Serial, c: Serial)
    requires Cmp(a, b) < 0 && Cmp(b, c) < 0
    ensures Cmp(a, c) < 0
  {
    if a != [] && b != [] && c != [] && a[0] == b[0] == c[0] {
      CmpTransitive(a[1..], b[1..], c[1..]);
    }
  }

  lemma {:induction false} CmpPrefix(p: Serial, a: Serial, b: Serial)
    ensures Cmp(p + a, p + b) == Cmp(a, b)
  {
    if p == [] {
      assert p + a == a && p + b == b;
    } else {
      assert (p + a)[1..] == p[1..] + a && (p + b)[1..] == p[1..] + b;
      CmpPrefix(p[1..], a, b);
    }
  }

  /** Counting up gives a later serial number, whether or not it makes it longer. */
  lemma IncrementedIsLater(s: Serial, listLen: int)
    requires s != []
    ensures Cmp(s, Incremented(s, listLen)) < 0
  {
    var next := Incremented(s, listLen);
    if listLen + 1 > |s| {
      assert next == s + next[|s|..];
      CmpPrefix(s, [], next[|s|..]);
      assert s + [] == s;
    } else {
      var p := s[..|s| - 1];
      assert s == p + [s[|s| - 1]];
      assert next == p + [s[|s| - 1] + 1];
      CmpPrefix(p, [s[|s| - 1]], [s[|s| - 1] + 1]);
    }
  }

  /** `t` is `s` padded with zeros to the length `n`, and counted up by one at the end. */
  ghost predicate CountedUp(s: Serial, n: nat, t: Serial)
  {
    |t| == n > 0 && forall i :: 0 <= i < n ==> t[i] == (if i < |s| then s[i] else 0) + (if i == n - 1 then 1 else 0)
  }

  lemma IncrementedIs(s: Serial, listLen: int)
    requires s != []
    ensures CountedUp(s, if listLen + 1 > |s| then listLen + 1 else |s|, Incremented(s, listLen))
  {
  }

  /** Only zeros at the end are stripped, and all of them but a first number. */
  ghost predicate Stripped(s: Serial, t: Serial)
  {
    && t != [] && t <= s && (forall i :: |t| <= i < |s| ==> s[i] == 0)
    && (|t| > 1 ==> t[|t| - 1] != 0)
  }

  lemma {:induction false} StripZerosIs(s: Serial)
    requires s != []
    ensures Stripped(s, StripZeros(s))
  {
    if |s| > 1 && s[|s| - 1] == 0 {
      StripZerosIs(s[..|s| - 1]);
    }
  }

  /** A serial number that is short enough stays; else the wanted end of it does, without its last zeros. */
  lemma TruncatedIs(s: Serial, count: nat, fromEnd: bool)
    requires s != []
    ensures if |s| <= count + 1 then Truncated(s, count, fromEnd) == s
            else Stripped(if fromEnd then s[|s| - (count + 1)..] else s[..count + 1], Truncated(s, count, fromEnd))
  {
    if |s| > count + 1 {
      StripZerosIs(if fromEnd then s[|s| - (count + 1)..] else s[..count + 1]);
    }
  }

  // ---------------------------------------------------------------- versions

  /** A sequence which ends in a revision, on some label. */
  predicate IsVersion(v: Version)
  {
    |v| >= 2 && v[|v| - 1].R? && v[|v| - 2].L?
  }

  function Trailing(v: Version): Revision
    requires IsVersion(v)
  {
    v[|v| - 1].rev
  }

  /** How many labels `v` ends in. */
  function TrailingLabels(v: Version): nat
  {
    if v == [] || v[|v| - 1].R? then 0 else 1 + TrailingLabels(v[..|v| - 1])
  }

  /** `shadowLength` */
  function ShadowLength(v: Version): nat
    requires IsVersion(v)
  {
    TrailingLabels(v[..|v| - 1]) - 1
  }

  /** `shadowLength`: the loop backwards over the parts. */
  method ComputeShadowLength(v: Version) returns (count: nat)
    requires IsVersion(v)
    ensures count == ShadowLength(v)
  {
    count := 0;
    var expectVersion := false;
    var i := |v| - 1;
    while i > 0
      invariant 0 <= i < |v|
      invariant !expectVersion ==> i == |v| - 1 && count == 0
      invariant expectVersion ==> TrailingLabels(v[..|v| - 1]) == count + 1 + TrailingLabels(v[..i])
    {
      i := i - 1;
      assert v[..i + 1][..i] == v[..i];
      if expectVersion && v[i].R? {
        return;
      } else if expectVersion {
        count := count + 1;
      } else {
        expectVersion := true;
      }
    }
  }

  /** `shadowChangedUpstreamVersion` */
  predicate ChangedUpstream(r: Revision, shadowLength: nat)
  {
    shadowLength != 0 && |r.sourceCount| >= shadowLength && r.sourceCount[..shadowLength] == Zeros(shadowLength)
  }

  /** The last revision among `v`, if any. */
  function LastRevision(v: Version): Option<Revision>
  {
    if v == [] then None
    else
      match v[|v| - 1]
      case R(r) => Some(r)
      case L(_) => LastRevision(v[..|v| - 1])
  }

  /** `hasParentVersion` */
  predicate HasParentVersion(v: Version)
    requires IsVersion(v)
  {
    if |v| < 3 then false
    else
      var t := Trailing(v);
      if t.buildCount.None? then !ChangedUpstream(t, ShadowLength(v))
      else
        match LastRevision(v[..|v| - 1])
        case None =>
          |t.sourceCount| - 1 < ShadowLength(v) && |t.buildCount.value| - 1 < ShadowLength(v)
        case Some(item) =>
          item.buildCount.Some? && Truth(item.buildCount.value)
          && |item.buildCount.value| == |t.buildCount.value|
  }

  /** `parentVersion` */
  function ParentVersion(v: Version): Version
    requires IsVersion(v) && HasParentVersion(v)
  {
    if v[|v| - 3].R? then v[..|v| - 2]
    else
      assert v[..|v| - 1][..|v| - 2] == v[..|v| - 2];
      assert TrailingLabels(v[..|v| - 2]) >= 1;
      var t, count := Trailing(v), ShadowLength(v) - 1;
      v[..|v| - 2] +
      [R(Revision(t.version, Truncated(t.sourceCount, count, false),
                  if t.buildCount.Some? && Truth(t.buildCount.value)
                  then Some(Truncated(t.buildCount.value, count, false)) else t.buildCount))]
  }

  /** `createShadow` */
  function CreateShadow(v: Version, lab: Label): Result<Version>
    requires IsVersion(v)
  {
    if L(lab) in v then Err("VersionStringError")
    else Ok(v[..|v| - 1] + [L(lab), v[|v| - 1]])
  }

  /** `freshlyBranched` */
  function FreshlyBranched(r: Revision): Revision
  {
    r.(sourceCount := Truncated(r.sourceCount, 0, true),
       buildCount := if r.buildCount.Some? && Truth(r.buildCount.value)
                     then Some(Truncated(r.buildCount.value, 0, true)) else r.buildCount)
  }

  /** `createBranch(withVerRel = True)` */
  function CreateBranch(v: Version, lab: Label): Result<Version>
    requires IsVersion(v)
  {
    if v[|v| - 2] == L(lab) then Err("AssertionError")
    else Ok(v + [L(lab), R(FreshlyBranched(Trailing(v)))])
  }

  function WithTrailing(v: Version, r: Revision): Version
    requires IsVersion(v)
  {
    v[|v| - 1 := R(r)]
  }

  /** `incrementSourceCount` */
  function SourceIncremented(v: Version): Version
    requires IsVersion(v) && Trailing(v).sourceCount != []
  {
    WithTrailing(v, Trailing(v).(sourceCount := Incremented(Trailing(v).sourceCount, ShadowLength(v))))
  }

  /** A commit counts the source up at the depth of the shadow, and changes nothing else. */
  lemma CommitCounts(v: Version)
    requires IsVersion(v) && Trailing(v).sourceCount != []
    ensures var w, s, depth := SourceIncremented(v), Trailing(v).sourceCount, ShadowLength(v);
            && IsVersion(w) && w[..|w| - 1] == v[..|v| - 1]
            && Trailing(w).version == Trailing(v).version && Trailing(w).buildCount == Trailing(v).buildCount
            && CountedUp(s, if depth + 1 > |s| then depth + 1 else |s|, Trailing(w).sourceCount)
  {
    IncrementedIs(Trailing(v).sourceCount, ShadowLength(v));
  }

  /** The new build count of `incrementBuildCount`. */
  function NextBuildCount(r: Revision, shadowLength: nat): Serial
  {
    var counted := r.buildCount.Some? && Truth(r.buildCount.value);
    if |r.sourceCount| - 1 == shadowLength then
      if counted then Incremented(r.buildCount.value, |r.buildCount.value| - 1) else [1]
    else
      if counted then Incremented(r.buildCount.value, shadowLength) else Zeros(shadowLength) + [1]
  }

  /** Counting builds up gives a later serial number as well, whichever of the four cases applies. */
  lemma NextBuildIsLater(r: Revision, shadowLength: nat)
    requires r.buildCount.Some? && Truth(r.buildCount.value)
    ensures Cmp(r.buildCount.value, NextBuildCount(r, shadowLength)) < 0
  {
    var count := r.buildCount.value;
    if |r.sourceCount| - 1 == shadowLength {
      IncrementedIsLater(count, |count| - 1);
    } else {
      IncrementedIsLater(count, shadowLength);
    }
  }

  /** On a shadow with its own source count a build count keeps its length, or starts as the single number 1. On one
      without, it gets a number for each depth of the shadow. */
  lemma NextBuildIs(r: Revision, shadowLength: nat)
    ensures var old_ := if r.buildCount.Some? && Truth(r.buildCount.value) then r.buildCount.value else [];
            var least := if |r.sourceCount| == shadowLength + 1 then 1 else shadowLength + 1;
            CountedUp(old_, if |old_| < least then least else |old_|, NextBuildCount(r, shadowLength))
  {
    if r.buildCount.Some? && Truth(r.buildCount.value) {
      IncrementedIs(r.buildCount.value,
                    if |r.sourceCount| - 1 == shadowLength then |r.buildCount.value| - 1 else shadowLength);
    }
  }

  /** `incrementBuildCount` */
  function BuildIncremented(v: Version): Version
    requires IsVersion(v)
  {
    WithTrailing(v, Trailing(v).(buildCount := Some(NextBuildCount(Trailing(v), ShadowLength(v)))))
  }

  /** A version whose trailing revision is counted up in place. */
  class VersionObject {
    var versions: Version

    constructor (v: Version)
      ensures versions == v
    {
      versions := v;
    }

    method IncrementSourceCount()
      requires IsVersion(versions) && Trailing(versions).sourceCount != []
      modifies this
      ensures versions == SourceIncremented(old(versions))
    {
      var shadowLength := ComputeShadowLength(versions);
      var r := versions[|versions| - 1].rev;
      var serial := new SerialNumber(r.sourceCount);
      serial.Increment(shadowLength);
      versions := versions[|versions| - 1 := R(r.(sourceCount := serial.numList))];
    }

    method IncrementBuildCount()
      requires IsVersion(versions)
      modifies this
      ensures versions == BuildIncremented(old(versions))
    {
      var shadowLength := ComputeShadowLength(versions);
      var r := versions[|versions| - 1].rev;
      var counted := r.buildCount.Some? && Truth(r.buildCount.value);
      var build := new SerialNumber(if r.buildCount.Some? then r.buildCount.value else []);
      if |r.sourceCount| - 1 == shadowLength {
        if counted {
          build.Increment(|build.numList| - 1);
        } else {
          build := new SerialNumber([1]);
        }
      } else {
        if counted {
          build.Increment(shadowLength);
        } else {
          build := new SerialNumber(Zeros(shadowLength) + [1]);
        }
      }
      versions := versions[|versions| - 1 := R(r.(buildCount := Some(build.numList)))];
    }
  }

  // ---------------------------------------------------------------- shadowing is undone by the parent

  /** `n` increments of the source count. */
  function SourceIncrementedTimes(v: Version, n: nat): (w: Version)
    requires IsVersion(v) && Trailing(v).sourceCount != []
    ensures IsVersion(w) && Trailing(w).sourceCount != []
  {
    if n == 0 then v else SourceIncremented(SourceIncrementedTimes(v, n - 1))
  }

  /** What `n` increments at depth `d` make of a serial number. */
  function Counted(s: Serial, d: nat, n: nat): Serial
    requires s != []
  {
    if n == 0 then s
    else
      var padded := s + Zeros(d + 1 - |s|);
      padded[|padded| - 1 := padded[|padded| - 1] + n]
  }

  lemma CountedOnce(s: Serial, d: nat, n: nat)
    requires s != []
    ensures Incremented(Counted(s, d, n), d) == Counted(s, d, n + 1)
  {
    var c := Counted(s, d, n);
    if n > 0 {
      assert |c| >= d + 1 && c + Zeros(d + 1 - |c|) == c;
    }
  }

  lemma WithTrailingTwice(v: Version, r: Revision, r': Revision)
    requires IsVersion(v)
    ensures var w := WithTrailing(v, r);
            && IsVersion(w) && Trailing(w) == r && ShadowLength(w) == ShadowLength(v)
            && WithTrailing(w, r') == WithTrailing(v, r')
  {
    assert WithTrailing(v, r)[..|v| - 1] == v[..|v| - 1];
  }

  lemma {:induction false} SourceIncrementedTimesIs(v: Version, n: nat)
    requires IsVersion(v) && Trailing(v).sourceCount != []
    ensures SourceIncrementedTimes(v, n)
            == WithTrailing(v, Trailing(v).(sourceCount := Counted(Trailing(v).sourceCount, ShadowLength(v), n)))
  {
    if n == 0 {
      assert v[|v| - 1 := v[|v| - 1]] == v;
    } else {
      SourceIncrementedTimesIs(v, n - 1);
      CountedOnce(Trailing(v).sourceCount, ShadowLength(v), n - 1);
      var r := Trailing(v).(sourceCount := Counted(Trailing(v).sourceCount, ShadowLength(v), n - 1));
      WithTrailingTwice(v, r, r.(sourceCount := Incremented(r.sourceCount, ShadowLength(v))));
    }
  }

  lemma {:induction false} StripZerosPadding(s: Serial, n: int)
    requires s != [] && s[|s| - 1] != 0
    ensures StripZeros(s + Zeros(n)) == s
  {
    if n <= 0 {
      assert s + Zeros(n) == s;
    } else {
      assert s + Zeros(n) == s + Zeros(n - 1) + [0];
      assert (s + Zeros(n))[..|s + Zeros(n)| - 1] == s + Zeros(n - 1);
      StripZerosPadding(s, n - 1);
    }
  }

  /** A stripped serial number does not end in zero, unless it is a single one. */
  lemma {:induction false} StripZerosEnds(s: Serial)
    requires s != []
    ensures StripZeros(s) != [] && (|StripZeros(s)| > 1 ==> StripZeros(s)[|StripZeros(s)| - 1] != 0)
    ensures AllZero(s) ==> StripZeros(s) == [0]
  {
    if |s| > 1 && s[|s| - 1] == 0 {
      StripZerosEnds(s[..|s| - 1]);
    }
  }

  lemma ShadowDeeper(v: Version, lab: Label)
    requires IsVersion(v) && CreateShadow(v, lab).Ok?
    ensures var w := CreateShadow(v, lab).value;
            && IsVersion(w) && |w| == |v| + 1 && ShadowLength(w) == ShadowLength(v) + 1
            && Trailing(w) == Trailing(v) && w[|w| - 3].L? && w[..|w| - 2] == v[..|v| - 1]
  {
    var w := CreateShadow(v, lab).value;
    assert w[..|w| - 1] == v[..|v| - 1] + [L(lab)];
    assert w[..|w| - 1][..|w| - 2] == v[..|v| - 1];
  }

  /** Shadowing a source version onto a new label, committing to the shadow any number of times,
      and going back to the parent gives the version that was shadowed, as long as its serial
      number does not end in zero. */
  lemma ShadowThenParent(v: Version, lab: Label, n: nat)
    requires IsVersion(v) && Trailing(v).buildCount.None? && CreateShadow(v, lab).Ok?
    requires var s := Trailing(v).sourceCount;
             s != [] && |s| <= ShadowLength(v) + 1 && s[|s| - 1] != 0
    ensures IsVersion(CreateShadow(v, lab).value)
    ensures var w := SourceIncrementedTimes(CreateShadow(v, lab).value, n);
            HasParentVersion(w) && ParentVersion(w) == v
  {
    var w0 := CreateShadow(v, lab).value;
    ShadowDeeper(v, lab);
    SourceIncrementedTimesIs(w0, n);
    var s, d := Trailing(v).sourceCount, ShadowLength(v);
    ParentSerial(s, d, n);
    WithTrailingParent(w0, Trailing(v).(sourceCount := Counted(s, d + 1, n)));
    assert v == v[..|v| - 1] + [v[|v| - 1]];
  }

  /** The parent of a source version on a shadow. */
  lemma WithTrailingParent(w0: Version, r: Revision)
    requires IsVersion(w0) && |w0| >= 3 && w0[|w0| - 3].L? && ShadowLength(w0) >= 1
    requires r.buildCount.None? && !ChangedUpstream(r, ShadowLength(w0))
    ensures var w := WithTrailing(w0, r);
            && HasParentVersion(w)
            && ParentVersion(w) == w0[..|w0| - 2] +
                 [R(r.(sourceCount := Truncated(r.sourceCount, ShadowLength(w0) - 1, false)))]
  {
    var w := WithTrailing(w0, r);
    assert w[..|w| - 1] == w0[..|w0| - 1];
    assert w[..|w| - 2] == w0[..|w0| - 2];
  }

  /** Counting up at depth d + 1 leaves the first d + 1 numbers alone. */
  lemma CountedPrefix(s: Serial, d: nat, n: nat)
    requires s != [] && |s| <= d + 1 && n > 0
    ensures |Counted(s, d + 1, n)| == d + 2
    ensures Counted(s, d + 1, n)[..d + 1] == s + Zeros(d + 1 - |s|)
  {
    assert Zeros(d + 2 - |s|) == Zeros(d + 1 - |s|) + [0];
  }

  lemma ParentSerial(s: Serial, d: nat, n: nat)
    requires s != [] && |s| <= d + 1 && s[|s| - 1] != 0
    ensures var c := Counted(s, d + 1, n);
            && Truncated(c, d, false) == s
            && !(|c| >= d + 1 && c[..d + 1] == Zeros(d + 1))
  {
    if n > 0 {
      CountedPrefix(s, d, n);
      StripZerosPadding(s, d + 1 - |s|);
      assert (s + Zeros(d + 1 - |s|))[|s| - 1] != 0;
    }
  }

  /** Exactly when the parent is the version that was shadowed: after at least one commit to the shadow, if its
      serial number does not end in zero; before any, unless it is all zeros and counts for this depth. */
  lemma ShadowThenParentExactly(v: Version, lab: Label, n: nat)
    requires IsVersion(v) && Trailing(v).buildCount.None? && CreateShadow(v, lab).Ok?
    requires var s := Trailing(v).sourceCount; s != [] && |s| <= ShadowLength(v) + 1
    ensures IsVersion(CreateShadow(v, lab).value)
    ensures var w, s := SourceIncrementedTimes(CreateShadow(v, lab).value, n), Trailing(v).sourceCount;
            (HasParentVersion(w) && ParentVersion(w) == v)
            <==> if n == 0 then !(AllZero(s) && |s| == ShadowLength(v) + 1) else s[|s| - 1] != 0
  {
    if n == 0 {
      ShadowDeeper(v, lab);
      ParentLifts(CreateShadow(v, lab).value);
      LiftedShadow(v, lab);
    } else if Trailing(v).sourceCount[|Trailing(v).sourceCount| - 1] != 0 {
      ShadowThenParent(v, lab, n);
    } else {
      ShadowThenOther(v, lab, n);
    }
  }

  lemma ShadowThenOther(v: Version, lab: Label, n: nat)
    requires IsVersion(v) && Trailing(v).buildCount.None? && CreateShadow(v, lab).Ok? && n > 0
    requires var s := Trailing(v).sourceCount; s != [] && |s| <= ShadowLength(v) + 1 && s[|s| - 1] == 0
    ensures IsVersion(CreateShadow(v, lab).value)
    ensures var w := SourceIncrementedTimes(CreateShadow(v, lab).value, n);
            !(HasParentVersion(w) && ParentVersion(w) == v)
  {
    var s, d := Trailing(v).sourceCount, ShadowLength(v);
    ShadowDeeper(v, lab);
    SourceIncrementedTimesIs(CreateShadow(v, lab).value, n);
    var w := SourceIncrementedTimes(CreateShadow(v, lab).value, n);
    assert w[..|w| - 1] == CreateShadow(v, lab).value[..|w| - 1];
    ParentSerialEndsInZero(s, d, n);
    if HasParentVersion(w) {
      assert Trailing(ParentVersion(w)).sourceCount == Truncated(Counted(s, d + 1, n), d, false);
    }
  }

  lemma ParentSerialEndsInZero(s: Serial, d: nat, n: nat)
    requires s != [] && |s| <= d + 1 && s[|s| - 1] == 0 && n > 0
    ensures var c := Counted(s, d + 1, n);
            Truncated(c, d, false) != s || (|c| >= d + 1 && c[..d + 1] == Zeros(d + 1))
  {
    CountedPrefix(s, d, n);
    var p := s + Zeros(d + 1 - |s|);
    StripZerosEnds(p);
    if StripZeros(p) == s {
      assert s == [0];
      assert p == Zeros(d + 1) by {
        ZerosAppend(1, d);
      }
    }
  }

  lemma {:induction false} ZerosAppend(m: nat, n: nat)
    ensures Zeros(m) + Zeros(n) == Zeros(m + n)
  {
    if n == 0 {
      assert Zeros(m) + [] == Zeros(m);
    } else {
      ZerosAppend(m, n - 1);
      assert Zeros(m) + Zeros(n) == Zeros(m) + Zeros(n - 1) + [0];
    }
  }

  lemma BranchIs(v: Version, lab: Label, r: Revision)
    requires IsVersion(v)
    ensures var w := v + [L(lab), R(r)];
            && IsVersion(w) && ShadowLength(w) == 0 && Trailing(w) == r
            && (r.buildCount.None? ==> HasParentVersion(w) && ParentVersion(w) == v)
  {
    var w, u := v + [L(lab), R(r)], v + [L(lab)];
    assert w[..|w| - 1] == u && u[..|u| - 1] == v && w[..|w| - 2] == v;
    assert TrailingLabels(v) == 0 && TrailingLabels(u) == 1;
  }

  /** Branching and committing to the branch is undone in the same way, for every source version. */
  lemma BranchThenParent(v: Version, lab: Label, n: nat)
    requires IsVersion(v) && Trailing(v).buildCount.None? && CreateBranch(v, lab).Ok?
    requires Trailing(v).sourceCount != []
    ensures var w0 := CreateBranch(v, lab).value;
            && IsVersion(w0) && ShadowLength(w0) == 0
            && Trailing(w0).sourceCount == [Trailing(v).sourceCount[|Trailing(v).sourceCount| - 1]]
            && var w := SourceIncrementedTimes(w0, n);
            && HasParentVersion(w) && ParentVersion(w) == v
  {
    var r := FreshlyBranched(Trailing(v));
    var w0 := v + [L(lab), R(r)];
    BranchIs(v, lab, r);
    TruncatedToOne(Trailing(v).sourceCount);
    SourceIncrementedTimesIs(w0, n);
    var r' := r.(sourceCount := Counted(r.sourceCount, 0, n));
    BranchIs(v, lab, r');
    assert WithTrailing(w0, r') == v + [L(lab), R(r')];
  }

  /** The parent of a shadow is one label up, with its counts cut to what fits there. */
  lemma ParentOfShadow(v: Version)
    requires IsVersion(v) && HasParentVersion(v) && v[|v| - 3].L?
    requires Trailing(v).sourceCount != []
    ensures ShadowLength(v) >= 1 && IsVersion(ParentVersion(v))
    ensures var p, t, depth := ParentVersion(v), Trailing(v), ShadowLength(v);
            && p[..|p| - 1] == v[..|v| - 2] && ShadowLength(p) == depth - 1
            && Trailing(p).version == t.version
            && CutTo(t.sourceCount, depth, Trailing(p).sourceCount)
            && (if t.buildCount.Some? && Truth(t.buildCount.value)
                then Trailing(p).buildCount.Some? && CutTo(t.buildCount.value, depth, Trailing(p).buildCount.value)
                else Trailing(p).buildCount == t.buildCount)
  {
    var t, u := Trailing(v), v[..|v| - 1];
    assert u[..|u| - 1] == v[..|v| - 2];
    assert u[|u| - 1].L? && u[|u| - 2].L?;
    var w, depth := v[..|v| - 2], ShadowLength(v);
    assert TrailingLabels(w) >= 1 && depth == TrailingLabels(w);
    var p := ParentVersion(v);
    assert p[..|p| - 1] == w;
    TruncatedIs(t.sourceCount, depth - 1, false);
    if t.buildCount.Some? && Truth(t.buildCount.value) {
      TruncatedIs(t.buildCount.value, depth - 1, false);
    }
  }

  /** `t` is `s` if that has no more than `n` numbers, and else the first `n` without their last zeros. */
  ghost predicate CutTo(s: Serial, n: nat, t: Serial)
  {
    if |s| <= n then t == s else Stripped(s[..n], t)
  }

  lemma TruncatedToOne(s: Serial)
    requires s != []
    ensures Truncated(s, 0, true) == [s[|s| - 1]]
  {
    TruncatedIs(s, 0, true);
  }

  // ---------------------------------------------------------------- canonical versions

  /** `n` steps to the parent; the assertion in `parentVersion` is the error. */
  function Ancestor(v: Version, n: nat): Result<Version>
    requires IsVersion(v)
    decreases n
  {
    if n == 0 then Ok(v)
    else if !HasParentVersion(v) then Err("AssertionError")
    else
      var parent := ParentVersion(v);
      if IsVersion(parent) then Ancestor(parent, n - 1) else Err("IndexError")
  }

  /** How many shadows `canonicalVersion` strips. */
  function StripCount(v: Version): int
    requires IsVersion(v)
  {
    var r := Trailing(v);
    var source := |r.sourceCount| - 1;
    ShadowLength(v)
    - (if r.buildCount.Some? && Truth(r.buildCount.value) && |r.buildCount.value| - 1 > source
       then |r.buildCount.value| - 1 else source)
  }

  /** `canonicalVersion`, as a function. */
  function Canonical(v: Version): Result<Version>
    requires IsVersion(v)
  {
    if StripCount(v) <= 0 then Ok(v) else Ancestor(v, StripCount(v))
  }

  /** `canonicalVersion`: the loop which goes to the parent. */
  method CanonicalVersion(v: Version) returns (r: Result<Version>)
    requires IsVersion(v)
    ensures r == Canonical(v)
  {
    var w := v;
    var stripCount := StripCount(v);
    var i := 0;
    while i < stripCount
      invariant IsVersion(w)
      invariant 0 <= i && (stripCount > 0 ==> i <= stripCount && Ancestor(w, stripCount - i) == Ancestor(v, stripCount))
      invariant stripCount <= 0 ==> w == v
    {
      if !HasParentVersion(w) {
        return Err("AssertionError");
      }
      w := ParentVersion(w);
      if !IsVersion(w) {
        return Err("IndexError");
      }
      i := i + 1;
    }
    r := Ok(w);
  }

  /** `v` without its last `m` labels. */
  function Lifted(v: Version, m: nat): (w: Version)
    requires IsVersion(v) && m <= ShadowLength(v)
    ensures m + 2 <= |v| && |w| == |v| - m
  {
    LabelsBelow(v[..|v| - 1], m);
    v[..|v| - 1 - m] + [v[|v| - 1]]
  }

  lemma {:induction false} LabelsBelow(u: Version, m: nat)
    requires m < TrailingLabels(u)
    ensures m < |u| && TrailingLabels(u[..|u| - m]) == TrailingLabels(u) - m
    ensures u[|u| - m - 1].L?
  {
    if m == 0 {
      assert u[..|u|] == u;
    } else {
      LabelsBelow(u[..|u| - 1], m - 1);
      assert u[..|u| - 1][..|u| - 1 - (m - 1)] == u[..|u| - m];
    }
  }

  lemma LiftedIsVersion(v: Version, m: nat)
    requires IsVersion(v) && m <= ShadowLength(v)
    ensures var w := Lifted(v, m);
            IsVersion(w) && Trailing(w) == Trailing(v) && ShadowLength(w) == ShadowLength(v) - m
  {
    LabelsBelow(v[..|v| - 1], m);
    var w := Lifted(v, m);
    assert w[..|w| - 1] == v[..|v| - 1 - m] == v[..|v| - 1][..|v| - 1 - m];
  }

  lemma LiftedTwice(v: Version, a: nat, b: nat)
    requires IsVersion(v) && a + b <= ShadowLength(v)
    ensures IsVersion(Lifted(v, a)) && b <= ShadowLength(Lifted(v, a))
    ensures Lifted(Lifted(v, a), b) == Lifted(v, a + b)
  {
    LiftedIsVersion(v, a);
    LiftedIsVersion(v, a + b);
    var w := Lifted(v, a);
    assert w[..|w| - 1 - b] == v[..|v| - 1 - (a + b)];
  }

  /** A source version that was not committed to at its depth has for parent the same revision one
      label up, unless all its numbers are zero and it sits just below the depth they count for. */
  lemma ParentLifts(v: Version)
    requires IsVersion(v) && Trailing(v).buildCount.None?
    requires 0 < |Trailing(v).sourceCount| <= ShadowLength(v)
    ensures var s := Trailing(v).sourceCount;
            && (HasParentVersion(v) <==> !(AllZero(s) && |s| == ShadowLength(v)))
            && (HasParentVersion(v) ==> ParentVersion(v) == Lifted(v, 1))
  {
    var s, d := Trailing(v).sourceCount, ShadowLength(v);
    LabelsBelow(v[..|v| - 1], 1);
    assert v[|v| - 3].L?;
    if |s| == d {
      assert s[..d] == s;
      assert s == Zeros(d) <==> AllZero(s);
    }
  }

  // Binary versions. Here the revision before the trailing one decides, if there is one.

  /** The last revision before the trailing one. */
  ghost predicate RevisionBefore(v: Version, i: int)
  {
    0 <= i < |v| - 1 && v[i].R? && forall k :: i < k < |v| - 1 ==> v[k].L?
  }

  /** It has been built, with as many numbers in its build count as the trailing one. */
  ghost predicate BuiltAlike(v: Version, i: int)
    requires IsVersion(v) && 0 <= i < |v| && v[i].R?
  {
    var before, build := v[i].rev.buildCount, Trailing(v).buildCount;
    before.Some? && build.Some? && Truth(before.value) && |before.value| == |build.value|
  }

  ghost predicate ComesFromBuild(v: Version)
    requires IsVersion(v)
  {
    forall i :: RevisionBefore(v, i) ==> BuiltAlike(v, i)
  }

  lemma {:induction false} LastRevisionIs(v: Version)
    ensures LastRevision(v).None? ==> forall k :: 0 <= k < |v| ==> v[k].L?
    ensures LastRevision(v).Some? ==>
              exists i :: 0 <= i < |v| && v[i] == R(LastRevision(v).value) && forall k :: i < k < |v| ==> v[k].L?
  {
    if v != [] && v[|v| - 1].L? {
      LastRevisionIs(v[..|v| - 1]);
      if LastRevision(v).Some? {
        var u := v[..|v| - 1];
        var i :| 0 <= i < |u| && u[i] == R(LastRevision(u).value) && forall k :: i < k < |u| ==> u[k].L?;
        assert v[i] == u[i];
      }
    }
  }

  lemma HasParentIfBuilt(v: Version)
    requires IsVersion(v) && |v| >= 3 && Trailing(v).buildCount.Some?
    ensures if exists i :: RevisionBefore(v, i) then HasParentVersion(v) <==> ComesFromBuild(v)
            else HasParentVersion(v) <==>
                   |Trailing(v).sourceCount| <= ShadowLength(v) && |Trailing(v).buildCount.value| <= ShadowLength(v)
  {
    var u := v[..|v| - 1];
    LastRevisionIs(u);
    if LastRevision(u).Some? {
      var i :| 0 <= i < |u| && u[i] == R(LastRevision(u).value) && forall k :: i < k < |u| ==> u[k].L?;
      assert RevisionBefore(v, i);
      assert v[i].rev == LastRevision(u).value;
      if BuiltAlike(v, i) {
        forall j | RevisionBefore(v, j)
          ensures j == i
        {
          OneBefore(v, i, j);
        }
      }
    } else {
      assert forall k :: 0 <= k < |v| - 1 ==> v[k] == u[k];
    }
  }

  lemma OneBefore(v: Version, i: int, j: int)
    requires RevisionBefore(v, i) && RevisionBefore(v, j)
    ensures i == j
  {
  }

  /** Numbers made at this depth or above. */
  ghost predicate MadeAbove(v: Version, depth: nat)
    requires IsVersion(v)
  {
    var r := Trailing(v);
    r.buildCount.Some? && |r.sourceCount| <= depth && |r.buildCount.value| <= depth
  }

  /** A shadowed binary version has the same revision one label up for its parent, if it comes from a build or no
      branch is involved. */
  lemma BinaryParentLifts(v: Version)
    requires IsVersion(v) && ShadowLength(v) >= 1 && MadeAbove(v, ShadowLength(v))
    ensures HasParentVersion(v) <==> ComesFromBuild(v)
    ensures HasParentVersion(v) ==> ParentVersion(v) == Lifted(v, 1)
  {
    LabelsBelow(v[..|v| - 1], 1);
    assert v[|v| - 3].L?;
    HasParentIfBuilt(v);
  }

  /** Shadows do not change that. */
  lemma LiftedComesFromBuild(v: Version, m: nat)
    requires IsVersion(v) && m <= ShadowLength(v)
    ensures IsVersion(Lifted(v, m)) && (ComesFromBuild(Lifted(v, m)) <==> ComesFromBuild(v))
  {
    LiftedIsVersion(v, m);
    var w := Lifted(v, m);
    forall i
      ensures RevisionBefore(w, i) <==> RevisionBefore(v, i)
      ensures RevisionBefore(v, i) ==> v[i] == w[i]
    {
      LabelsLifted(v, m, i);
    }
  }

  lemma LabelsLifted(v: Version, m: nat, i: int)
    requires IsVersion(v) && m <= ShadowLength(v)
    ensures RevisionBefore(Lifted(v, m), i) <==> RevisionBefore(v, i)
    ensures RevisionBefore(v, i) ==> i < |v| - m - 1
  {
    var w := Lifted(v, m);
    assert forall k :: 0 <= k < |w| - 1 ==> w[k] == v[k];
    forall k | |v| - 1 - m <= k < |v| - 1
      ensures v[k].L?
    {
      LabelsBelow(v[..|v| - 1], |v| - 2 - k);
    }
  }

  lemma {:induction false} BinaryAncestorLifts(v: Version, n: nat)
    requires IsVersion(v) && 0 < n <= ShadowLength(v) && MadeAbove(v, ShadowLength(v) - n + 1)
    ensures Ancestor(v, n) == if ComesFromBuild(v) then Ok(Lifted(v, n)) else Err("AssertionError")
    decreases n
  {
    var w := Lifted(v, 1);
    BinaryParentLifts(v);
    LiftedIsVersion(v, 1);
    LiftedComesFromBuild(v, 1);
    AncestorStep(v, n, w);
    if n > 1 {
      BinaryAncestorLifts(w, n - 1);
      LiftedTwice(v, 1, n - 1);
    } else {
      assert Ancestor(w, 0) == Ok(w);
    }
  }

  lemma AncestorStep(v: Version, n: nat, parent: Version)
    requires IsVersion(v) && n > 0 && IsVersion(parent)
    ensures !HasParentVersion(v) ==> Ancestor(v, n) == Err("AssertionError")
    ensures HasParentVersion(v) && ParentVersion(v) == parent ==> Ancestor(v, n) == Ancestor(parent, n - 1)
  {
  }

  lemma {:induction false} AncestorLifts(v: Version, n: nat)
    requires IsVersion(v) && Trailing(v).buildCount.None?
    requires n > 0 && |Trailing(v).sourceCount| > 0 && n == ShadowLength(v) - (|Trailing(v).sourceCount| - 1)
    ensures Ancestor(v, n)
            == if AllZero(Trailing(v).sourceCount) then Err("AssertionError") else Ok(Lifted(v, n))
    decreases n
  {
    var w := Lifted(v, 1);
    ParentLifts(v);
    LiftedIsVersion(v, 1);
    AncestorStep(v, n, w);
    if n > 1 {
      AncestorLifts(w, n - 1);
      LiftedTwice(v, 1, n - 1);
    } else {
      assert Ancestor(w, 0) == Ok(w);
    }
  }

  /** For a source version, `canonicalVersion` trips the assertion of `parentVersion` exactly when
      it is below the depth its numbers count for and they are all zero. Otherwise it strips the
      shadows it was not committed to: same revision, at the depth of that revision, once and for all. */
  lemma CanonicalOfSource(v: Version)
    requires IsVersion(v) && Trailing(v).buildCount.None? && Trailing(v).sourceCount != []
    ensures var s, d := Trailing(v).sourceCount, ShadowLength(v);
            && (Canonical(v).Err? <==> d > |s| - 1 && AllZero(s))
            && (Canonical(v).Ok? ==>
                  var w := Canonical(v).value;
                  && IsVersion(w) && Trailing(w) == Trailing(v)
                  && ShadowLength(w) == (if d < |s| - 1 then d else |s| - 1)
                  && Canonical(w) == Ok(w))
  {
    var s, d := Trailing(v).sourceCount, ShadowLength(v);
    var n := d - (|s| - 1);
    if n > 0 {
      AncestorLifts(v, n);
      LiftedIsVersion(v, n);
      if !AllZero(s) {
        CanonicalHere(Lifted(v, n));
      }
    } else {
      CanonicalHere(v);
    }
  }

  lemma CanonicalHere(v: Version)
    requires IsVersion(v) && Trailing(v).buildCount.None? && ShadowLength(v) <= |Trailing(v).sourceCount| - 1
    ensures Canonical(v) == Ok(v)
  {
  }

  lemma CanonicalIsLifted(v: Version, n: nat)
    requires IsVersion(v) && Trailing(v).buildCount.None? && Trailing(v).sourceCount != []
    requires n == ShadowLength(v) - (|Trailing(v).sourceCount| - 1) && !AllZero(Trailing(v).sourceCount)
    ensures n <= ShadowLength(v) && Canonical(v) == Ok(Lifted(v, n))
  {
    if n > 0 {
      AncestorLifts(v, n);
    } else {
      LiftedNot(v);
    }
  }

  /** `v` shadowed onto each of `labs` in turn. */
  function ShadowedOnto(v: Version, labs: seq<Label>): (w: Result<Version>)
    requires IsVersion(v)
    ensures w.Ok? ==> IsVersion(w.value)
    decreases |labs|
  {
    if labs == [] then Ok(v)
    else
      var w := CreateShadow(v, labs[0]);
      if w.Err? then w
      else
        assert IsVersion(w.value) by { ShadowDeeper(v, labs[0]); }
        ShadowedOnto(w.value, labs[1..])
  }

  lemma {:induction false} ShadowedOntoIs(v: Version, labs: seq<Label>)
    requires IsVersion(v) && ShadowedOnto(v, labs).Ok?
    ensures var w := ShadowedOnto(v, labs).value;
            && Trailing(w) == Trailing(v) && ShadowLength(w) == ShadowLength(v) + |labs|
            && |labs| <= ShadowLength(w) && Lifted(w, |labs|) == v
    decreases |labs|
  {
    if labs == [] {
      LiftedNot(v);
    } else {
      var w1 := CreateShadow(v, labs[0]).value;
      ShadowDeeper(v, labs[0]);
      ShadowedOntoIs(w1, labs[1..]);
      LiftedShadow(v, labs[0]);
      LiftedTwice(ShadowedOnto(v, labs).value, |labs| - 1, 1);
    }
  }

  lemma LiftedNot(v: Version)
    requires IsVersion(v)
    ensures Lifted(v, 0) == v
  {
    assert v == v[..|v| - 1] + [v[|v| - 1]];
  }

  /** Lifting undoes shadowing. */
  lemma LiftedShadow(v: Version, lab: Label)
    requires IsVersion(v) && CreateShadow(v, lab).Ok?
    ensures var w := CreateShadow(v, lab).value;
            IsVersion(w) && ShadowLength(w) >= 1 && Lifted(w, 1) == v
  {
    ShadowDeeper(v, lab);
    assert v == v[..|v| - 1] + [v[|v| - 1]];
  }

  /** Any number of shadows of a source version last committed to at its own depth leads back to it. */
  lemma CanonicalOfShadows(v: Version, labs: seq<Label>)
    requires IsVersion(v) && Trailing(v).buildCount.None?
    requires |Trailing(v).sourceCount| == ShadowLength(v) + 1 && !AllZero(Trailing(v).sourceCount)
    requires ShadowedOnto(v, labs).Ok?
    ensures Canonical(ShadowedOnto(v, labs).value) == Ok(v)
  {
    ShadowedOntoIs(v, labs);
    CanonicalIsLifted(ShadowedOnto(v, labs).value, |labs|);
  }

  /** Any number of shadows of a binary version touched last at its own depth lead back to it, if and only if it comes
      from a build or no branch is involved; else the assertion of `parentVersion` fails. */
  lemma CanonicalOfBinaryShadows(v: Version, labs: seq<Label>)
    requires IsVersion(v) && Trailing(v).sourceCount != [] && MadeAbove(v, ShadowLength(v) + 1) && labs != []
    requires
      || |Trailing(v).sourceCount| == ShadowLength(v) + 1
      || (Truth(Trailing(v).buildCount.value) && |Trailing(v).buildCount.value| == ShadowLength(v) + 1)
    requires ShadowedOnto(v, labs).Ok?
    ensures Canonical(ShadowedOnto(v, labs).value) == if ComesFromBuild(v) then Ok(v) else Err("AssertionError")
  {
    var w := ShadowedOnto(v, labs).value;
    ShadowedOntoIs(v, labs);
    assert StripCount(w) == |labs|;
    BinaryAncestorLifts(w, |labs|);
    LiftedComesFromBuild(w, |labs|);
  }

  /** A binary version on a branch starts with the last of its numbers each. It has the version it was branched from for
      its parent, if that was built with a single number; else it has none. */
  lemma BinaryBranchThenParent(v: Version, lab: Label)
    requires IsVersion(v) && Trailing(v).buildCount.Some? && Trailing(v).buildCount.value != []
    requires CreateBranch(v, lab).Ok? && Trailing(v).sourceCount != []
    ensures var w, t := CreateBranch(v, lab).value, Trailing(v);
            && IsVersion(w) && w[..|w| - 1] == v + [L(lab)]
            && Trailing(w) == Revision(t.version, [t.sourceCount[|t.sourceCount| - 1]],
                                       if Truth(t.buildCount.value) then Some([t.buildCount.value[|t.buildCount.value| - 1]])
                                       else t.buildCount)
            && (HasParentVersion(w) <==> Truth(Trailing(v).buildCount.value) && |Trailing(v).buildCount.value| == 1)
            && (HasParentVersion(w) ==> ParentVersion(w) == v)
  {
    var r := FreshlyBranched(Trailing(v));
    var w := v + [L(lab), R(r)];
    BranchIs(v, lab, r);
    assert w[..|w| - 2] == v;
    var build := Trailing(v).buildCount.value;
    TruncatedToOne(Trailing(v).sourceCount);
    if Truth(build) {
      TruncatedToOne(build);
    }
    HasParentIfBuilt(w);
    assert RevisionBefore(w, |v| - 1);
    if BuiltAlike(w, |v| - 1) {
      forall i | RevisionBefore(w, i)
        ensures i == |v| - 1
      {
        OneBefore(w, i, |v| - 1);
      }
    }
  }

  /** Counting a build on a shadow makes it belong to that shadow. */
  lemma BuildBelongsHere(v: Version)
    requires IsVersion(v) && Trailing(v).sourceCount != [] && |Trailing(v).sourceCount| <= ShadowLength(v) + 1
    requires Trailing(v).buildCount.Some? ==> |Trailing(v).buildCount.value| <= ShadowLength(v) + 1
    ensures IsVersion(BuildIncremented(v)) && Canonical(BuildIncremented(v)) == Ok(BuildIncremented(v))
  {
    var r, depth := Trailing(v), ShadowLength(v);
    NextBuildIs(r, depth);
    var next := NextBuildCount(r, depth);
    WithTrailingTwice(v, r.(buildCount := Some(next)), r);
    if |r.sourceCount| < depth + 1 {
      assert |next| == depth + 1 > 1;
    }
  }

  /** And built binaries have no parent version, unless they come from a build on another branch with as many numbers. */
  lemma BuiltHasNoParent(v: Version)
    requires IsVersion(v) && |v| >= 3
    requires |Trailing(v).sourceCount| <= ShadowLength(v) + 1
    requires Trailing(v).buildCount.Some? ==> |Trailing(v).buildCount.value| <= ShadowLength(v) + 1
    ensures var w := BuildIncremented(v);
            IsVersion(w) && (HasParentVersion(w) <==> ComesFromBuild(w) && exists i :: RevisionBefore(w, i))
  {
    var r, depth := Trailing(v), ShadowLength(v);
    NextBuildIs(r, depth);
    WithTrailingTwice(v, r.(buildCount := Some(NextBuildCount(r, depth))), r);
    HasParentIfBuilt(BuildIncremented(v));
  }

  // ---------------------------------------------------------------- every version that can be reached

  datatype Operation =
    | Branch(lab: Label)
    | Shadow(lab: Label)
    | CountSource
    | CountBuild
    | Parent

  function Apply(op: Operation, v: Version): Result<Version>
    requires Sound(v)
  {
    match op
    case Branch(lab) => CreateBranch(v, lab)
    case Shadow(lab) => CreateShadow(v, lab)
    case CountSource => Ok(SourceIncremented(v))
    case CountBuild => Ok(BuildIncremented(v))
    case Parent => if HasParentVersion(v) then Ok(ParentVersion(v)) else Err("AssertionError")
  }

  predicate OperationOk(op: Operation)
  {
    (op.Branch? || op.Shadow?) ==> LabelOk(op.lab)
  }

  /** A serial number has at most as many parts as there are labels in a row before it. */
  predicate RevisionFits(r: Revision, labels: nat)
  {
    |r.sourceCount| <= labels && (r.buildCount.Some? ==> |r.buildCount.value| <= labels)
  }

  predicate FitsAt(v: Version, i: int)
  {
    0 <= i < |v| && v[i].R? ==> RevisionFits(v[i].rev, TrailingLabels(v[..i]))
  }

  predicate NotTwoRevisions(v: Version, i: int)
  {
    0 <= i < |v| - 1 && v[i].R? ==> v[i + 1].L?
  }

  /** What every operation keeps: a well-formed version, each of its serial numbers no longer
      than the shadow depth plus one. */
  predicate Sound(v: Version)
  {
    && IsVersion(v) && v[0].L?
    && PartsOk(v)
    && (forall i :: 0 <= i < |v| ==> NotTwoRevisions(v, i))
    && (forall i :: 0 <= i < |v| ==> FitsAt(v, i))
  }

  lemma SoundTrailing(v: Version)
    requires Sound(v)
    ensures RevisionOk(Trailing(v)) && RevisionFits(Trailing(v), ShadowLength(v) + 1)
  {
    assert PartOk(v[|v| - 1]) && FitsAt(v, |v| - 1);
  }

  /** Replacing what comes after the first `n` parts of a sound version by labels and a revision
      that fits. */
  lemma SoundExtension(v: Version, n: nat, labs: seq<Label>, r: Revision)
    requires Sound(v) && 0 < n <= |v| && |labs| <= 1
    requires labs != [] ==> LabelOk(labs[0])
    requires labs == [] ==> v[n - 1].L?
    requires RevisionOk(r)
    requires RevisionFits(r, if labs == [] then TrailingLabels(v[..n]) else 1 + TrailingLabels(v[..n]))
    ensures Sound(v[..n] + (if labs == [] then [] else [L(labs[0])]) + [R(r)])
  {
    var middle := if labs == [] then [] else [L(labs[0])];
    var w := v[..n] + middle + [R(r)];
    forall i | 0 <= i < |w|
      ensures PartOk(w[i]) && NotTwoRevisions(w, i) && FitsAt(w, i)
    {
      if i < n {
        assert PartOk(v[i]) && NotTwoRevisions(v, i) && FitsAt(v, i);
        assert w[..i] == v[..i];
      } else if i == |w| - 1 {
        assert w[..i] == v[..n] + middle;
        if labs == [] {
          assert v[..n] + middle == v[..n];
        } else {
          assert (v[..n] + middle)[..n] == v[..n];
        }
      }
    }
  }

  lemma {:induction false} StripZerosPrefix(s: Serial)
    requires s != []
    ensures StripZeros(s) != [] && StripZeros(s) <= s
  {
    if |s| > 1 && s[|s| - 1] == 0 {
      StripZerosPrefix(s[..|s| - 1]);
    }
  }

  lemma TruncatedOk(s: Serial, count: nat, fromEnd: bool)
    requires SerialOk(s)
    ensures SerialOk(Truncated(s, count, fromEnd)) && |Truncated(s, count, fromEnd)| <= count + 1
  {
    if |s| > count + 1 {
      StripZerosPrefix(if fromEnd then s[|s| - (count + 1)..] else s[..count + 1]);
    }
  }

  lemma IncrementedOk(s: Serial, listLen: int)
    requires SerialOk(s)
    ensures SerialOk(Incremented(s, listLen))
    ensures |Incremented(s, listLen)| == if listLen + 1 > |s| then listLen + 1 else |s|
  {
  }

  lemma SoundBranch(v: Version, lab: Label)
    requires Sound(v) && LabelOk(lab) && CreateBranch(v, lab).Ok?
    ensures Sound(CreateBranch(v, lab).value)
  {
    SoundTrailing(v);
    var r := Trailing(v);
    TruncatedOk(r.sourceCount, 0, true);
    if r.buildCount.Some? {
      TruncatedOk(r.buildCount.value, 0, true);
    }
    assert v[..|v|] == v;
    assert v + [L(lab), R(FreshlyBranched(r))] == v + [L(lab)] + [R(FreshlyBranched(r))];
    SoundExtension(v, |v|, [lab], FreshlyBranched(r));
  }

  lemma SoundShadow(v: Version, lab: Label)
    requires Sound(v) && LabelOk(lab) && CreateShadow(v, lab).Ok?
    ensures Sound(CreateShadow(v, lab).value)
  {
    SoundTrailing(v);
    assert v[..|v| - 1] + [L(lab), v[|v| - 1]] == v[..|v| - 1] + [L(lab)] + [R(Trailing(v))];
    SoundExtension(v, |v| - 1, [lab], Trailing(v));
  }

  lemma SoundWithTrailing(v: Version, r: Revision)
    requires Sound(v) && RevisionOk(r) && RevisionFits(r, ShadowLength(v) + 1)
    ensures Sound(WithTrailing(v, r))
  {
    SoundExtension(v, |v| - 1, [], r);
    assert WithTrailing(v, r) == v[..|v| - 1] + [] + [R(r)];
  }

  lemma SoundCounts(v: Version)
    requires Sound(v)
    ensures Trailing(v).sourceCount != []
    ensures Sound(SourceIncremented(v)) && Sound(BuildIncremented(v))
  {
    SoundTrailing(v);
    var r, d := Trailing(v), ShadowLength(v);
    IncrementedOk(r.sourceCount, d);
    SoundWithTrailing(v, r.(sourceCount := Incremented(r.sourceCount, d)));
    if r.buildCount.Some? {
      IncrementedOk(r.buildCount.value, d);
      IncrementedOk(r.buildCount.value, |r.buildCount.value| - 1);
    }
    assert SerialOk(NextBuildCount(r, d)) && |NextBuildCount(r, d)| <= d + 1;
    SoundWithTrailing(v, r.(buildCount := Some(NextBuildCount(r, d))));
  }

  lemma SoundParentOfBranch(v: Version)
    requires Sound(v) && HasParentVersion(v) && v[|v| - 3].R?
    ensures Sound(ParentVersion(v))
  {
    var w := v[..|v| - 2];
    assert NotTwoRevisions(v, |v| - 4);
    forall i | 0 <= i < |w|
      ensures PartOk(w[i]) && NotTwoRevisions(w, i) && FitsAt(w, i)
    {
      assert NotTwoRevisions(v, i) && FitsAt(v, i) && w[..i] == v[..i];
    }
  }

  lemma SoundParentOfShadow(v: Version)
    requires Sound(v) && HasParentVersion(v) && v[|v| - 3].L?
    ensures Sound(ParentVersion(v))
  {
    SoundTrailing(v);
    var n, r, d := |v|, Trailing(v), ShadowLength(v);
    assert v[..n - 1][..n - 2] == v[..n - 2];
    assert d == TrailingLabels(v[..n - 2]) && d >= 1;
    TruncatedOk(r.sourceCount, d - 1, false);
    if r.buildCount.Some? {
      TruncatedOk(r.buildCount.value, d - 1, false);
    }
    var parent := Trailing(ParentVersion(v));
    SoundExtension(v, n - 2, [], parent);
    assert ParentVersion(v) == v[..n - 2] + [] + [R(parent)];
  }

  lemma ApplyKeepsSound(op: Operation, v: Version)
    requires Sound(v) && OperationOk(op) && Apply(op, v).Ok?
    ensures Sound(Apply(op, v).value)
  {
    match op {
      case Branch(lab) => SoundBranch(v, lab);
      case Shadow(lab) => SoundShadow(v, lab);
      case CountSource => SoundCounts(v);
      case CountBuild => SoundCounts(v);
      case Parent =>
        if v[|v| - 3].R? {
          SoundParentOfBranch(v);
        } else {
          SoundParentOfShadow(v);
        }
    }
  }

  /** `w` can be reached from `v` by `ops`, none of which raises. */
  ghost predicate Reaches(v: Version, ops: seq<Operation>, w: Version)
    decreases |ops|
  {
    if ops == [] then v == w
    else
      Sound(v) && OperationOk(ops[0]) && Apply(ops[0], v).Ok? && Reaches(Apply(ops[0], v).value, ops[1..], w)
  }

  /** Every version that can be reached is sound: the parser's limit on serial numbers never turns
      it away, and it is read back from its string whenever neighbouring revisions agree in kind. */
  lemma {:induction false} ReachedVersionsParse(v: Version, ops: seq<Operation>, w: Version)
    requires Sound(v) && Reaches(v, ops, w)
    ensures Sound(w) && Sequence(w) && PartsOk(w)
    ensures SerialsFit(w, true, 0)
    ensures (Parse(Print(w)) == Ok(w)) <==> KindsAgree(w, None)
    decreases |ops|
  {
    if ops == [] {
      SoundFollows(w, 0);
      SoundFits(w, 0, true, 0);
      assert w[0..] == w;
      ParseUndoesPrint(w);
    } else {
      ApplyKeepsSound(ops[0], v);
      ReachedVersionsParse(Apply(ops[0], v).value, ops[1..], w);
    }
  }

  lemma {:induction false} SoundFollows(v: Version, i: nat)
    requires Sound(v) && i <= |v|
    ensures Follows(v[i..], i == 0 || v[i - 1].R?)
    decreases |v| - i
  {
    if i < |v| {
      SoundFollows(v, i + 1);
      assert v[i..][1..] == v[i + 1..];
      assert NotTwoRevisions(v, i - 1);
    }
  }

  lemma {:induction false} SoundFits(v: Version, i: nat, expectLabel: bool, depth: nat)
    requires Sound(v) && i <= |v|
    requires expectLabel <==> (i == 0 || v[i - 1].R?)
    requires !expectLabel ==> depth + 1 == TrailingLabels(v[..i])
    ensures SerialsFit(v[i..], expectLabel, depth)
    decreases |v| - i
  {
    if i < |v| {
      assert v[i..][1..] == v[i + 1..] && v[..i + 1][..i] == v[..i];
      assert NotTwoRevisions(v, i - 1) && FitsAt(v, i);
      if v[i].L? {
        assert expectLabel ==> TrailingLabels(v[..i]) == 0;
        SoundFits(v, i + 1, false, if expectLabel then 0 else depth + 1);
      } else {
        SoundFits(v, i + 1, true, depth);
      }
    }
  }

  // ---------------------------------------------------------------- how many serial numbers can be read

  /** The source count has no more numbers than there are labels in a row, and neither has the build count if the source
      count is a single number. A build count of 0 does not matter. */
  predicate CountsFit(r: Revision, labels: nat)
  {
    && |r.sourceCount| <= labels
    && (|r.sourceCount| == 1 && r.buildCount.Some? && r.buildCount.value != [] && r.buildCount.value != [0] ==>
          |r.buildCount.value| <= labels)
  }

  ghost predicate CountsFitAt(v: Version, k: int)
  {
    0 <= k < |v| && v[k].R? ==> CountsFit(v[k].rev, TrailingLabels(v[..k]))
  }

  lemma {:induction false} SerialsFitFrom(v: Version, i: nat, expectLabel: bool, depth: nat)
    requires PartsOk(v) && i <= |v| && Follows(v[i..], expectLabel)
    requires expectLabel <==> (i == 0 || v[i - 1].R?)
    requires !expectLabel ==> depth + 1 == TrailingLabels(v[..i])
    ensures SerialsFit(v[i..], expectLabel, depth) <==> forall k :: i <= k ==> CountsFitAt(v, k)
    decreases |v| - i
  {
    if i < |v| {
      assert v[i..][0] == v[i] && v[i..][1..] == v[i + 1..] && v[..i + 1][..i] == v[..i];
      if v[i].L? {
        assert expectLabel ==> TrailingLabels(v[..i]) == 0;
        SerialsFitFrom(v, i + 1, false, if expectLabel then 0 else depth + 1);
        assert CountsFitAt(v, i);
      } else {
        assert PartOk(v[i]);
        SerialsFitFrom(v, i + 1, true, depth);
        assert RevisionShadowCount(v[i].rev) <= depth <==> CountsFitAt(v, i);
      }
      assert (forall k :: i <= k ==> CountsFitAt(v, k)) <==>
          CountsFitAt(v, i) && forall k :: i + 1 <= k ==> CountsFitAt(v, k);
    }
  }

  /** The limit of the parser, said of each revision of a version by itself. */
  lemma {:induction false} SerialsFitIs(v: Version)
    requires Sequence(v) && PartsOk(v)
    ensures SerialsFit(v, true, 0) <==> forall k :: CountsFitAt(v, k)
  {
    assert v[0..] == v;
    SerialsFitFrom(v, 0, true, 0);
  }
}
