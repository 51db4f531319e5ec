/** Matching versions of troves whose name and flavor are already paired: the three passes of
    `_versionMatch`, and the closeness measure of the second one. */
module VersionMatch {
  import opened Text
  import opened Versions
  import opened Pairing
  import Shadows

  type Flavor = string

  /** A trove of a known name. */
  datatype Info = Info(version: Version, flavor: Flavor)

  /** The time stamp of `trailingRevision()`; it takes no part in equality. */
  type Stamp = Info -> real

  /** `trailingLabel()` */
  function TrailingLabel(v: Version): Option<Part>
  {
    if |v| >= 2 then Some(v[|v| - 2]) else None
  }

  predicate SameLabel(a: Info, b: Info)
  {
    TrailingLabel(a.version) == TrailingLabel(b.version)
  }

  // ---------------------------------------------------------------- closeness

  /** What `_buildSet` collects: the parts, and which label follows which. */
  datatype Item = Element(part: Part) | Transition(before: Label, after: Label)

  function Labels(v: Version): seq<Label>
  {
    if v == [] then [] else (if v[0].L? then [v[0].lab] else []) + Labels(v[1..])
  }

  function ItemSet(v: Version): set<Item>
  {
    (set p | p in v :: Element(p)) + Transitions(Labels(v))
  }

  function Transitions(labels: seq<Label>): set<Item>
  {
    if |labels| < 2 then {} else {Transition(labels[0], labels[1])} + Transitions(labels[1..])
  }

  /** `closeness`; None is the ZeroDivisionError. */
  function Closeness(a: Version, b: Version): Option<real>
  {
    var ours, theirs := ItemSet(a), ItemSet(b);
    var common := |ours * theirs|;
    var distance := |ours| + |theirs| - common * 2;
    if distance == 0 then None else Some(common as real / distance as real)
  }

  /** The measure divides by zero exactly when the two collect the same items. */
  lemma ClosenessDefined(a: Version, b: Version)
    ensures Closeness(a, b).None? <==> ItemSet(a) == ItemSet(b)
  {
    var ours, theirs := ItemSet(a), ItemSet(b);
    var common := ours * theirs;
    assert ours == (ours - theirs) + common && theirs == (theirs - ours) + common;
    assert |ours| == |ours - theirs| + |common| && |theirs| == |theirs - ours| + |common|;
    if ours == theirs {
      assert common == ours;
    } else if ours - theirs == {} {
      assert theirs - ours != {};
    }
  }

  /** What two troves have in common, and what only one of them has. */
  function Common(p: Pair<Info, Info>): set<Item>
  {
    ItemSet(p.left.version) * ItemSet(p.right.version)
  }

  function Apart(p: Pair<Info, Info>): set<Item>
  {
    (ItemSet(p.left.version) - ItemSet(p.right.version)) + (ItemSet(p.right.version) - ItemSet(p.left.version))
  }

  /** `p` has at least as many common items for each differing one as `q`. */
  predicate AtLeastAsClose(p: Pair<Info, Info>, q: Pair<Info, Info>)
  {
    |Common(p)| * |Apart(q)| >= |Common(q)| * |Apart(p)|
  }

  lemma Differing(ours: set<Item>, theirs: set<Item>)
    ensures |(theirs - ours) + (ours - theirs)| == |ours| + |theirs| - |ours * theirs| * 2
    ensures ours != theirs ==> (theirs - ours) + (ours - theirs) != {}
  {
    var common := ours * theirs;
    assert ours == (ours - theirs) + common && theirs == (theirs - ours) + common;
    assert |ours| == |ours - theirs| + |common| && |theirs| == |theirs - ours| + |common|;
    if (theirs - ours) + (ours - theirs) == {} {
      assert ours - theirs == {} && theirs - ours == {};
      assert ours == theirs;
    }
  }

  lemma ScoreIsRatio(p: Pair<Info, Info>)
    requires ItemSet(p.left.version) != ItemSet(p.right.version)
    ensures |Apart(p)| > 0 && Score(p) == |Common(p)| as real / |Apart(p)| as real
  {
    var ours, theirs := ItemSet(p.right.version), ItemSet(p.left.version);
    Differing(ours, theirs);
    assert ours * theirs == Common(p);
  }

  /** The measure is zero exactly for troves with nothing in common. */
  lemma ScoreIsCommon(p: Pair<Info, Info>)
    requires ItemSet(p.left.version) != ItemSet(p.right.version)
    ensures Score(p) != 0.0 <==> Common(p) != {}
  {
    ScoreIsRatio(p);
    QuotientIsZero(|Common(p)| as real, |Apart(p)| as real);
  }

  lemma QuotientIsZero(a: real, b: real)
    requires b > 0.0
    ensures a / b == 0.0 <==> a == 0.0
  {
    assert a == a / b * b;
  }

  /** And it orders troves by their common items over their differing ones. */
  lemma ScoreIsCloseness(p: Pair<Info, Info>, q: Pair<Info, Info>)
    requires ItemSet(p.left.version) != ItemSet(p.right.version) && ItemSet(q.left.version) != ItemSet(q.right.version)
    ensures Score(p) >= Score(q) <==> AtLeastAsClose(p, q)
  {
    ScoreIsRatio(p);
    ScoreIsRatio(q);
    Crosswise(|Common(p)|, |Apart(p)|, |Common(q)|, |Apart(q)|);
  }

  lemma Crosswise(a: nat, b: nat, c: nat, d: nat)
    requires b > 0 && d > 0
    ensures a as real / b as real >= c as real / d as real <==> a * d >= c * b
  {
    var x, y := a as real / b as real, c as real / d as real;
    assert x * b as real == a as real && y * d as real == c as real;
    assert x * (b * d) as real == (a * d) as real;
    assert y * (b * d) as real == (c * b) as real;
    assert (b * d) as real > 0.0;
    Scaled(x, y, (b * d) as real);
  }

  lemma Scaled(x: real, y: real, k: real)
    requires k > 0.0
    ensures x >= y <==> x * k >= y * k
  {
  }

  /** `l` and `m` are labels of `v`, in this order, with no label between. */
  ghost predicate FollowedBy(v: Version, l: Label, m: Label, i: int, j: int)
  {
    0 <= i < j < |v| && v[i] == L(l) && v[j] == L(m) && forall k :: i < k < j ==> v[k].R?
  }

  /** What the measure collects: each part, and each two labels that follow one another. */
  lemma ItemsCollected(v: Version)
    ensures forall p :: Element(p) in ItemSet(v) <==> p in v
    ensures forall l, m :: Transition(l, m) in ItemSet(v) <==> exists i, j :: FollowedBy(v, l, m, i, j)
  {
    forall p
      ensures Element(p) in ItemSet(v) <==> p in v
    {
      NoElements(Labels(v), p);
    }
    forall l, m
      ensures Transition(l, m) in ItemSet(v) <==> exists i, j :: FollowedBy(v, l, m, i, j)
    {
      TransitionsAre(v, l, m);
    }
  }

  lemma {:induction false} TransitionsAre(v: Version, l: Label, m: Label)
    ensures Transition(l, m) in Transitions(Labels(v)) <==> exists i, j :: FollowedBy(v, l, m, i, j)
  {
    if v != [] {
      var rest := v[1..];
      TransitionsAre(rest, l, m);
      if exists i, j :: FollowedBy(rest, l, m, i, j) {
        var i, j :| FollowedBy(rest, l, m, i, j);
        assert FollowedBy(v, l, m, i + 1, j + 1);
      }
      if exists i, j :: FollowedBy(v, l, m, i, j) && i > 0 {
        var i, j :| FollowedBy(v, l, m, i, j) && i > 0;
        assert FollowedBy(rest, l, m, i - 1, j - 1);
      }
      if v[0].L? {
        FirstLabel(rest);
        assert Labels(v) == [v[0].lab] + Labels(rest);
        assert Labels(v)[1..] == Labels(rest);
        FirstTransition(v, l, m);
      } else {
        assert Labels(v) == [] + Labels(rest) == Labels(rest);
      }
    }
  }

  /** Where the first label of `v` is. */
  ghost predicate FirstAt(v: Version, j: int)
  {
    0 <= j < |v| && v[j].L? && Labels(v) != [] && v[j].lab == Labels(v)[0] && forall k :: 0 <= k < j ==> v[k].R?
  }

  lemma {:induction false} FirstLabel(v: Version)
    ensures if Labels(v) == [] then forall k :: 0 <= k < |v| ==> v[k].R? else exists j :: FirstAt(v, j)
  {
    if v != [] && v[0].L? {
      assert FirstAt(v, 0);
    } else if v != [] {
      var rest := v[1..];
      assert Labels(v) == [] + Labels(rest) == Labels(rest);
      assert forall k :: 0 < k < |v| ==> v[k] == rest[k - 1];
      FirstLabel(rest);
      if Labels(rest) != [] {
        var j :| FirstAt(rest, j);
        assert FirstAt(v, j + 1);
      }
    }
  }

  lemma FirstTransition(v: Version, l: Label, m: Label)
    requires v != [] && v[0].L? && Labels(v) == [v[0].lab] + Labels(v[1..])
    ensures (l == v[0].lab && Labels(v[1..]) != [] && m == Labels(v[1..])[0]) <==> exists j :: FollowedBy(v, l, m, 0, j)
  {
    var rest := v[1..];
    FirstLabel(rest);
    if Labels(rest) != [] {
      var j :| FirstAt(rest, j);
      assert forall k :: 0 < k < j + 1 ==> v[k] == rest[k - 1];
      if l == v[0].lab && m == Labels(rest)[0] {
        assert FollowedBy(v, l, m, 0, j + 1);
      }
      if exists i :: FollowedBy(v, l, m, 0, i) {
        var i :| FollowedBy(v, l, m, 0, i);
        assert v[j + 1] == rest[j];
        assert v[i] == rest[i - 1];
      }
    }
  }

  predicate DistinctLabels(v: Version)
  {
    forall i, j :: 0 <= i < j < |Labels(v)| ==> Labels(v)[i] != Labels(v)[j]
  }

  /** The label which no other label follows is the last one. */
  lemma {:induction false} LastHasNoTransition(labels: seq<Label>, l: Label)
    requires forall i, j :: 0 <= i < j < |labels| ==> labels[i] != labels[j]
    requires l in labels
    ensures (exists m :: Transition(l, m) in Transitions(labels)) <==> l != labels[|labels| - 1]
  {
    if |labels| > 1 {
      var rest := labels[1..];
      assert forall i :: 0 <= i < |rest| ==> rest[i] == labels[i + 1];
      if l == labels[0] {
        assert Transition(l, labels[1]) in Transitions(labels);
      } else {
        assert l in rest;
        LastHasNoTransition(rest, l);
        assert forall m :: Transition(l, m) in Transitions(labels) <==> Transition(l, m) in Transitions(rest);
      }
    }
  }

  lemma {:induction false} LabelsOf(v: Version, l: Label)
    ensures l in Labels(v) <==> L(l) in v
  {
    if v != [] {
      LabelsOf(v[1..], l);
      assert v == [v[0]] + v[1..];
    }
  }

  lemma {:induction false} LabelsLast(v: Version)
    requires |v| >= 2 && v[|v| - 1].R? && v[|v| - 2].L?
    ensures Labels(v) != [] && L(Labels(v)[|Labels(v)| - 1]) == v[|v| - 2]
  {
    if |v| == 2 {
      assert Labels(v[1..]) == [] + Labels(v[1..][1..]);
      assert v[1..][1..] == [];
    } else {
      LabelsLast(v[1..]);
    }
  }

  /** So versions which end on different labels and use no label twice are never measured as equal. */
  lemma DistinctLabelsAreTold(a: Version, b: Version)
    requires |a| >= 2 && a[|a| - 1].R? && a[|a| - 2].L? && DistinctLabels(a)
    requires |b| >= 2 && b[|b| - 1].R? && b[|b| - 2].L? && DistinctLabels(b)
    requires TrailingLabel(a) != TrailingLabel(b)
    ensures ItemSet(a) != ItemSet(b)
  {
    if ItemSet(a) == ItemSet(b) {
      LabelsLast(a);
      LabelsLast(b);
      var la, lb := Labels(a), Labels(b);
      var l := la[|la| - 1];
      LabelsOf(a, l);
      assert Element(L(l)) in ItemSet(a);
      NoElements(lb, L(l));
      assert L(l) in b;
      LabelsOf(b, l);
      LastHasNoTransition(la, l);
      LastHasNoTransition(lb, l);
      SameTransitions(a, b);
    }
  }

  lemma {:induction false} NoElements(labels: seq<Label>, p: Part)
    ensures Element(p) !in Transitions(labels)
  {
    if |labels| >= 2 {
      NoElements(labels[1..], p);
    }
  }

  lemma SameTransitions(a: Version, b: Version)
    requires ItemSet(a) == ItemSet(b)
    ensures forall l, m :: Transition(l, m) in Transitions(Labels(a)) <==> Transition(l, m) in Transitions(Labels(b))
  {
    forall l, m
      ensures Transition(l, m) in Transitions(Labels(a)) <==> Transition(l, m) in Transitions(Labels(b))
    {
      assert Transition(l, m) in ItemSet(a) <==> Transition(l, m) in Transitions(Labels(a));
      assert Transition(l, m) in ItemSet(b) <==> Transition(l, m) in Transitions(Labels(b));
    }
  }

  lemma LabelsOfPair(x: Label, r: Revision, rest: Version)
    ensures Labels([L(x), R(r)] + rest) == [x] + Labels(rest)
    ensures rest == [] ==> [L(x), R(r)] + rest == [L(x), R(r)]
  {
    var v := [L(x), R(r)] + rest;
    assert v[1..] == [R(r)] + rest && v[1..][1..] == rest;
  }

  lemma TwoTransitions(x: Label, y: Label, z: Label)
    ensures Transitions([x, y, z]) == {Transition(x, y), Transition(y, z)}
  {
    assert [x, y, z][1..] == [y, z];
    assert Transitions([y, z]) == {Transition(y, z)} + Transitions([y, z][1..]);
  }

  lemma LabelsOfThree(x: Label, y: Label, z: Label, r: Revision)
    ensures Labels([L(x), R(r), L(y), R(r), L(z), R(r)]) == [x, y, z]
  {
    var v3, v2 := [L(z), R(r)], [L(y), R(r), L(z), R(r)];
    LabelsOfPair(z, r, []);
    LabelsOfPair(y, r, v3);
    LabelsOfPair(x, r, v2);
    assert v3 == [L(z), R(r)] + [] && v2 == [L(y), R(r)] + v3;
    assert [L(x), R(r), L(y), R(r), L(z), R(r)] == [L(x), R(r)] + v2;
  }

  lemma ItemsOfThree(x: Label, y: Label, z: Label, r: Revision)
    ensures ItemSet([L(x), R(r), L(y), R(r), L(z), R(r)])
            == {Element(L(x)), Element(L(y)), Element(L(z)), Element(R(r)), Transition(x, y), Transition(y, z)}
  {
    var v := [L(x), R(r), L(y), R(r), L(z), R(r)];
    LabelsOfThree(x, y, z, r);
    TwoTransitions(x, y, z);
    assert forall p :: p in v <==> p == L(x) || p == L(y) || p == L(z) || p == R(r);
  }

  /** Going back to a label is enough to confuse it: these two end on different labels. */
  lemma RepeatedLabelsAreNotTold(x: Label, y: Label, r: Revision)
    requires x != y
    ensures var a, b := [L(x), R(r), L(y), R(r), L(x), R(r)], [L(y), R(r), L(x), R(r), L(y), R(r)];
            TrailingLabel(a) != TrailingLabel(b) && Closeness(a, b).None?
  {
    ItemsOfThree(x, y, x, r);
    ItemsOfThree(y, x, y, r);
    ClosenessDefined([L(x), R(r), L(y), R(r), L(x), R(r)], [L(y), R(r), L(x), R(r), L(y), R(r)]);
  }

  lemma {:induction false} LabelsConcat(u: Version, v: Version)
    ensures Labels(u + v) == Labels(u) + Labels(v)
  {
    if u == [] {
      assert u + v == v;
    } else {
      assert (u + v)[1..] == u[1..] + v;
      LabelsConcat(u[1..], v);
      var first := if u[0].L? then [u[0].lab] else [];
      assert Labels(u + v) == first + (Labels(u[1..]) + Labels(v)) == first + Labels(u[1..]) + Labels(v);
    }
  }

  lemma LabelsOfShadow(v: Version, lab: Label)
    requires Shadows.IsVersion(v)
    ensures Labels(v[..|v| - 1] + [L(lab), v[|v| - 1]]) == Labels(v) + [lab]
  {
    var u, r := v[..|v| - 1], v[|v| - 1];
    assert v == u + [r];
    LabelsConcat(u, [r]);
    LabelsConcat(u, [L(lab), r]);
    assert [L(lab), r][1..] == [r] && [r][1..] == [];
    assert Labels([r]) == [] + Labels([r][1..]) == [];
    assert Labels([L(lab), r]) == [lab] + Labels([L(lab), r][1..]) == [lab];
  }

  /** `createShadow` refuses exactly the labels it would repeat. */
  lemma ShadowsRepeatNothing(v: Version, lab: Label)
    requires Shadows.IsVersion(v) && DistinctLabels(v)
    ensures var w := v[..|v| - 1] + [L(lab), v[|v| - 1]];
            Shadows.CreateShadow(v, lab) == if DistinctLabels(w) then Ok(w) else Err("VersionStringError")
  {
    var w := v[..|v| - 1] + [L(lab), v[|v| - 1]];
    LabelsOfShadow(v, lab);
    LabelsOf(v, lab);
    if lab in Labels(v) {
      var i :| 0 <= i < |Labels(v)| && Labels(v)[i] == lab;
      assert Labels(w)[i] == lab && Labels(w)[|Labels(v)|] == lab;
    }
  }

  /** So versions that differ by shadows alone are always told apart, if they end on different labels. */
  lemma {:induction false} ShadowedStayDistinct(v: Version, labs: seq<Label>)
    requires Shadows.IsVersion(v) && DistinctLabels(v) && Shadows.ShadowedOnto(v, labs).Ok?
    ensures DistinctLabels(Shadows.ShadowedOnto(v, labs).value)
    decreases |labs|
  {
    if labs != [] {
      ShadowsRepeatNothing(v, labs[0]);
      Shadows.ShadowDeeper(v, labs[0]);
      ShadowedStayDistinct(Shadows.CreateShadow(v, labs[0]).value, labs[1..]);
    }
  }

  predicate NoneFollowsItself(v: Version)
  {
    forall i, j :: 0 <= i < |Labels(v)| && j == i + 1 < |Labels(v)| ==> Labels(v)[i] != Labels(v)[j]
  }

  /** `createBranch` only refuses to follow a label by itself. */
  lemma BranchesFollowNothingTwice(v: Version, lab: Label, r: Revision)
    requires Shadows.IsVersion(v) && NoneFollowsItself(v)
    ensures Shadows.CreateBranch(v, lab).Ok? <==> NoneFollowsItself(v + [L(lab), R(r)])
  {
    LabelsLast(v);
    LabelsConcat(v, [L(lab), R(r)]);
    assert [L(lab), R(r)][1..] == [R(r)] && [R(r)][1..] == [];
    assert Labels([R(r)]) == [] + Labels([R(r)][1..]) == [];
    assert Labels([L(lab), R(r)]) == [lab] + Labels([L(lab), R(r)][1..]) == [lab];
    var n, labels := |Labels(v)|, Labels(v + [L(lab), R(r)]);
    assert labels == Labels(v) + [lab] && labels[n] == lab;
    assert forall i :: 0 <= i < n ==> labels[i] == Labels(v)[i];
    if NoneFollowsItself(v + [L(lab), R(r)]) {
      assert labels[n - 1] != labels[n];
    }
  }

  // ---------------------------------------------------------------- pass 1: the same label

  type Matches = seq<Pair<Info, Info>>

  ghost predicate NoneOnLabel(n: Info, olds: set<Info>)
  {
    forall o :: o in olds ==> !SameLabel(o, n)
  }

  ghost predicate NewestOnLabel(o: Info, olds: set<Info>, stamp: Stamp)
  {
    forall other :: other in olds && SameLabel(other, o) ==> stamp(other) <= stamp(o)
  }

  /** The `k`-th match is on one label, and nothing newer on that label is left. */
  ghost predicate NewestTaken(matches: Matches, oldLeft: set<Info>, stamp: Stamp, k: int)
  {
    0 <= k < |matches| ==>
      SameLabel(matches[k].left, matches[k].right) && NewestOnLabel(matches[k].left, oldLeft, stamp)
  }

  /** On one label, the newer of two added troves gets the newer of the two removed ones. */
  ghost predicate InOrder(matches: Matches, stamp: Stamp, k: int, l: int)
  {
    0 <= k < l < |matches| && SameLabel(matches[k].left, matches[l].left) ==>
      && stamp(matches[k].left) >= stamp(matches[l].left)
      && stamp(matches[k].right) >= stamp(matches[l].right)
  }

  ghost predicate NoneShared(olds: set<Info>, news: set<Info>)
  {
    forall n :: n in news ==> NoneOnLabel(n, olds)
  }

  /** No added trove left on the label of the `k`-th match is newer than the one in it. */
  ghost predicate NewestGiven(matches: Matches, newLeft: set<Info>, stamp: Stamp, k: int)
  {
    0 <= k < |matches| ==> NewestOnLabel(matches[k].right, newLeft, stamp)
  }

  /** What pass 1 settles: its matches are on one label, newest first, and nothing newer than them is left on
      either side. What is left shares no label. */
  ghost predicate SameLabelDone(olds: set<Info>, news: set<Info>, stamp: Stamp, matches: Matches)
  {
    && NoneShared(olds - Lefts(matches), news - Rights(matches))
    && (forall k :: NewestTaken(matches, olds - Lefts(matches), stamp, k))
    && (forall k :: NewestGiven(matches, news - Rights(matches), stamp, k))
    && (forall k, l :: InOrder(matches, stamp, k, l))
  }

  /** The `k`-th added trove in turn was matched or found nothing on its label. */
  ghost predicate TurnDone(order: seq<Info>, i: nat, oldLeft: set<Info>, newLeft: set<Info>, k: int)
    requires i <= |order|
  {
    0 <= k < i && order[k] in newLeft ==> NoneOnLabel(order[k], oldLeft)
  }

  ghost predicate AddedInTurn(matches: Matches, order: seq<Info>, i: nat, k: int)
    requires i <= |order|
  {
    0 <= k < |matches| ==> exists j :: 0 <= j < i && order[j] == matches[k].right
  }

  /** The `m`-th added trove in turn, if it was left, is not newer than the one of the `k`-th match on its label. */
  ghost predicate LeftNotNewer(matches: Matches, order: seq<Info>, i: nat, newLeft: set<Info>, stamp: Stamp, k: int, m: int)
    requires i <= |order|
  {
    0 <= k < |matches| && 0 <= m < i && order[m] in newLeft && SameLabel(matches[k].right, order[m]) ==>
      stamp(order[m]) <= stamp(matches[k].right)
  }

  ghost predicate SameLabelSoFar(order: seq<Info>, i: nat, matches: Matches, oldLeft: set<Info>, newLeft: set<Info>,
                                 stamp: Stamp)
    requires i <= |order|
  {
    && (forall k :: NewestTaken(matches, oldLeft, stamp, k))
    && (forall k, l :: InOrder(matches, stamp, k, l))
    && (forall k :: TurnDone(order, i, oldLeft, newLeft, k))
    && (forall k :: AddedInTurn(matches, order, i, k))
    && (forall k, m :: LeftNotNewer(matches, order, i, newLeft, stamp, k, m))
  }

  lemma AddedInTurnMore(matches: Matches, order: seq<Info>, i: nat, k: int)
    requires i < |order| && AddedInTurn(matches, order, i, k)
    ensures AddedInTurn(matches, order, i + 1, k)
  {
    if 0 <= k < |matches| {
      var j :| 0 <= j < i && order[j] == matches[k].right;
      assert j < i + 1;
    }
  }

  lemma SkipNew(order: seq<Info>, i: nat, matches: Matches, oldLeft: set<Info>, newLeft: set<Info>, stamp: Stamp)
    requires i < |order| && Descending(order, stamp)
    requires SameLabelSoFar(order, i, matches, oldLeft, newLeft, stamp)
    requires NoneOnLabel(order[i], oldLeft)
    ensures SameLabelSoFar(order, i + 1, matches, oldLeft, newLeft, stamp)
  {
    var next := i + 1;
    forall k
      ensures TurnDone(order, next, oldLeft, newLeft, k)
    {
      assert TurnDone(order, i, oldLeft, newLeft, k);
    }
    forall k
      ensures AddedInTurn(matches, order, next, k)
    {
      AddedInTurnMore(matches, order, i, k);
    }
    forall k, m
      ensures LeftNotNewer(matches, order, next, newLeft, stamp, k, m)
    {
      assert LeftNotNewer(matches, order, i, newLeft, stamp, k, m);
      if 0 <= k < |matches| && m == i {
        assert AddedInTurn(matches, order, i, k);
        var j :| 0 <= j < i && order[j] == matches[k].right;
        assert stamp(order[j]) >= stamp(order[i]);
      }
    }
  }

  lemma TakeNew(order: seq<Info>, i: nat, matches: Matches, oldLeft: set<Info>, newLeft: set<Info>, stamp: Stamp,
                o: Info)
    requires i < |order| && Descending(order, stamp)
    requires SameLabelSoFar(order, i, matches, oldLeft, newLeft, stamp)
    requires o in oldLeft && SameLabel(o, order[i]) && NewestOnLabel(o, oldLeft, stamp)
    ensures SameLabelSoFar(order, i + 1, matches + [Pair(o, order[i])], oldLeft - {o}, newLeft - {order[i]}, stamp)
  {
    var next, n := i + 1, order[i];
    var more, olds, news := matches + [Pair(o, n)], oldLeft - {o}, newLeft - {n};
    forall k
      ensures NewestTaken(more, olds, stamp, k)
    {
      assert NewestTaken(matches, oldLeft, stamp, k);
    }
    forall k, l
      ensures InOrder(more, stamp, k, l)
    {
      assert InOrder(matches, stamp, k, l);
      if 0 <= k < l == |matches| && SameLabel(more[k].left, more[l].left) {
        assert NewestTaken(matches, oldLeft, stamp, k) && AddedInTurn(matches, order, i, k);
        var j :| 0 <= j < i && order[j] == matches[k].right;
        assert stamp(order[j]) >= stamp(order[i]);
      }
    }
    forall k
      ensures TurnDone(order, next, olds, news, k)
    {
      assert TurnDone(order, i, oldLeft, newLeft, k);
    }
    forall k
      ensures AddedInTurn(more, order, next, k)
    {
      assert AddedInTurn(matches, order, i, k);
      if 0 <= k < |matches| {
        AddedInTurnMore(matches, order, i, k);
      } else if k == |matches| {
        assert order[i] == more[k].right;
      }
    }
    forall k, m
      ensures LeftNotNewer(more, order, next, news, stamp, k, m)
    {
      assert LeftNotNewer(matches, order, i, newLeft, stamp, k, m);
      assert TurnDone(order, i, oldLeft, newLeft, m);
    }
  }

  /** The first of `byNewest`, which holds the removed troves on the label of `newInfo` by falling
      time stamp, that has not been matched yet. */
  method FirstLeft(byNewest: seq<Info>, oldLeft: set<Info>, ghost newInfo: Info, ghost olds: set<Info>,
                   ghost stamp: Stamp)
    returns (r: Option<Info>)
    requires Descending(byNewest, stamp) && oldLeft <= olds
    requires forall o :: o in byNewest <==> o in OnLabel(newInfo, olds)
    ensures r.None? ==> NoneOnLabel(newInfo, oldLeft)
    ensures r.Some? ==> r.value in oldLeft && SameLabel(r.value, newInfo) && NewestOnLabel(r.value, oldLeft, stamp)
  {
    for j := 0 to |byNewest|
      invariant forall k :: 0 <= k < j ==> byNewest[k] !in oldLeft
    {
      if byNewest[j] in oldLeft {
        assert byNewest[j] in byNewest;
        forall other | other in oldLeft && SameLabel(other, byNewest[j])
          ensures stamp(other) <= stamp(byNewest[j])
        {
          assert other in OnLabel(newInfo, olds);
          assert other in byNewest;
          var k :| 0 <= k < |byNewest| && byNewest[k] == other;
        }
        return Some(byNewest[j]);
      }
    }
    forall o | o in oldLeft
      ensures !SameLabel(o, newInfo)
    {
      assert o in byNewest <==> o in OnLabel(newInfo, olds);
    }
    return None;
  }

  function OnLabel(n: Info, olds: set<Info>): set<Info>
  {
    set o | o in olds && SameLabel(o, n)
  }

  /** The removed troves on the label of each added one that has any. */
  method ByLabel(olds: set<Info>, news: set<Info>) returns (byLabel: map<Info, set<Info>>)
    ensures forall n :: n in byLabel <==> n in news && OnLabel(n, olds) != {}
    ensures forall n :: n in byLabel ==> byLabel[n] == OnLabel(n, olds)
  {
    byLabel := map[];
    var newsToDo := news;
    while newsToDo != {}
      invariant newsToDo <= news
      invariant forall n :: n in byLabel <==> n in news && n !in newsToDo && OnLabel(n, olds) != {}
      invariant forall n :: n in byLabel ==> byLabel[n] == OnLabel(n, olds)
      decreases |newsToDo|
    {
      var newInfo :| newInfo in newsToDo;
      if OnLabel(newInfo, olds) != {} {
        byLabel := byLabel[newInfo := OnLabel(newInfo, olds)];
      }
      newsToDo := newsToDo - {newInfo};
    }
  }

  /** One round of pass 1: the added trove whose turn it is. */
  method MatchOnLabel(ghost olds: set<Info>, ghost news: set<Info>, stamp: Stamp, order: seq<Info>, i: nat,
                      onLabel: set<Info>, matches0: Matches, oldLeft0: set<Info>, newLeft0: set<Info>)
    returns (matches: Matches, oldLeft: set<Info>, newLeft: set<Info>)
    requires i < |order| && Descending(order, stamp) && order[i] in news && order[i] !in Rights(matches0)
    requires onLabel == OnLabel(order[i], olds)
    requires Pairs(matches0, olds, news)
    requires oldLeft0 == olds - Lefts(matches0) && newLeft0 == news - Rights(matches0)
    requires SameLabelSoFar(order, i, matches0, oldLeft0, newLeft0, stamp)
    ensures Pairs(matches, olds, news)
    ensures oldLeft == olds - Lefts(matches) && newLeft == news - Rights(matches)
    ensures SameLabelSoFar(order, i + 1, matches, oldLeft, newLeft, stamp)
  {
    matches, oldLeft, newLeft := matches0, oldLeft0, newLeft0;
    var oldInfoList := SortDescending(onLabel, stamp);
    var oldInfo := FirstLeft(oldInfoList, oldLeft, order[i], olds, stamp);
    if oldInfo.Some? {
      TakeNew(order, i, matches, oldLeft, newLeft, stamp, oldInfo.value);
      PairsAppend(matches, oldInfo.value, order[i], olds, news);
      matches := matches + [Pair(oldInfo.value, order[i])];
      oldLeft, newLeft := oldLeft - {oldInfo.value}, newLeft - {order[i]};
    } else {
      SkipNew(order, i, matches, oldLeft, newLeft, stamp);
    }
  }

  /** Pass 1 of `_versionMatch`: newest added first, each with the newest removed trove on its
      label that is left. Afterwards no two leftovers share a label. */
  method SameLabelPass(olds: set<Info>, news: set<Info>, stamp: Stamp)
    returns (matches: Matches, oldLeft: set<Info>, newLeft: set<Info>)
    ensures Pairs(matches, olds, news)
    ensures oldLeft == olds - Lefts(matches) && newLeft == news - Rights(matches)
    ensures SameLabelDone(olds, news, stamp, matches)
  {
    var byLabel := ByLabel(olds, news);
    var order := SortDescending(byLabel.Keys, stamp);
    matches, oldLeft, newLeft := [], olds, news;
    for i := 0 to |order|
      invariant Pairs(matches, olds, news)
      invariant oldLeft == olds - Lefts(matches) && newLeft == news - Rights(matches)
      invariant SameLabelSoFar(order, i, matches, oldLeft, newLeft, stamp)
    {
      assert order[i] in byLabel;
      StillToCome(order, i, matches, byLabel.Keys);
      matches, oldLeft, newLeft :=
        MatchOnLabel(olds, news, stamp, order, i, byLabel[order[i]], matches, oldLeft, newLeft);
    }
    forall n | n in news && OnLabel(n, olds) != {}
      ensures n in order
    {
      assert n in byLabel;
    }
    AllHadTheirTurn(olds, news, order, matches, oldLeft, newLeft, stamp);
    NoneNewerLeft(olds, news, order, matches, oldLeft, newLeft, stamp);
  }

  lemma NoneNewerLeft(olds: set<Info>, news: set<Info>, order: seq<Info>, matches: Matches,
                      oldLeft: set<Info>, newLeft: set<Info>, stamp: Stamp)
    requires newLeft <= news && Pairs(matches, olds, news)
    requires forall n :: n in news && OnLabel(n, olds) != {} ==> n in order
    requires SameLabelSoFar(order, |order|, matches, oldLeft, newLeft, stamp)
    ensures forall k :: NewestGiven(matches, newLeft, stamp, k)
  {
    forall k, n | 0 <= k < |matches| && n in newLeft && SameLabel(n, matches[k].right)
      ensures stamp(n) <= stamp(matches[k].right)
    {
      PairAt(matches, olds, news, k);
      assert NewestTaken(matches, oldLeft, stamp, k);
      assert matches[k].left in OnLabel(n, olds);
      var m :| 0 <= m < |order| && order[m] == n;
      assert LeftNotNewer(matches, order, |order|, newLeft, stamp, k, m);
    }
  }

  lemma AllHadTheirTurn(olds: set<Info>, news: set<Info>, order: seq<Info>, matches: Matches,
                        oldLeft: set<Info>, newLeft: set<Info>, stamp: Stamp)
    requires oldLeft <= olds && newLeft <= news
    requires forall n :: n in news && OnLabel(n, olds) != {} ==> n in order
    requires SameLabelSoFar(order, |order|, matches, oldLeft, newLeft, stamp)
    ensures forall n :: n in newLeft ==> NoneOnLabel(n, oldLeft)
  {
    forall n | n in newLeft
      ensures NoneOnLabel(n, oldLeft)
    {
      if n in order {
        var k :| 0 <= k < |order| && order[k] == n;
        assert TurnDone(order, |order|, oldLeft, newLeft, k);
      } else {
        assert forall o :: o in olds && SameLabel(o, n) ==> o in OnLabel(n, olds);
      }
    }
  }

  lemma StillToCome(order: seq<Info>, i: nat, matches: Matches, s: set<Info>)
    requires |order| == |s| && forall x :: x in order <==> x in s
    requires i < |order| && forall k :: AddedInTurn(matches, order, i, k)
    ensures order[i] !in Rights(matches)
  {
    RightAt(matches, order[i]);
    if order[i] in Rights(matches) {
      var k :| 0 <= k < |matches| && matches[k].right == order[i];
      assert AddedInTurn(matches, order, i, k);
      var j :| 0 <= j < i && order[j] == matches[k].right;
      NoRepeats(order, s, j, i);
    }
  }

  // Which troves pass 1 leaves, said of its input alone.

  function Labelled(items: set<Info>, l: Option<Part>): set<Info>
  {
    set x | x in items && TrailingLabel(x.version) == l
  }

  ghost predicate StampsDiffer(items: set<Info>, stamp: Stamp)
  {
    forall x, y :: x in items && y in items && SameLabel(x, y) && stamp(x) == stamp(y) ==> x == y
  }

  function NewerOnLabel(x: Info, items: set<Info>, stamp: Stamp): set<Info>
  {
    set y | y in items && SameLabel(y, x) && stamp(y) > stamp(x)
  }

  /** Troves for which the other side has none left on the label once the newer ones are served. */
  ghost function Surplus(items: set<Info>, others: set<Info>, stamp: Stamp): set<Info>
  {
    set x | x in items && |NewerOnLabel(x, items, stamp)| >= |Labelled(others, TrailingLabel(x.version))|
  }

  ghost predicate OnOneLabel(matches: Matches, k: int)
  {
    0 <= k < |matches| ==> SameLabel(matches[k].left, matches[k].right)
  }

  /** Of two troves on one label the used one is not older. */
  ghost predicate UsedIsNewer(items: set<Info>, used: set<Info>, stamp: Stamp, y: Info, z: Info)
  {
    y in used && z in items - used && SameLabel(y, z) ==> stamp(z) <= stamp(y)
  }

  lemma LabelledMore(items: set<Info>, x: Info, l: Option<Part>)
    requires x !in items
    ensures |Labelled(items + {x}, l)| == |Labelled(items, l)| + if TrailingLabel(x.version) == l then 1 else 0
  {
    assert Labelled(items + {x}, l) == Labelled(items, l) + if TrailingLabel(x.version) == l then {x} else {};
  }

  /** Matches on one label use up as many troves of it on either side. */
  lemma {:induction false} SidesOnLabel(matches: Matches, olds: set<Info>, news: set<Info>, l: Option<Part>)
    requires Pairs(matches, olds, news)
    requires forall k :: OnOneLabel(matches, k)
    ensures |Labelled(Lefts(matches), l)| == |Labelled(Rights(matches), l)|
  {
    if matches != [] {
      var before, last := matches[..|matches| - 1], matches[|matches| - 1];
      assert OnOneLabel(matches, |before|);
      forall k
        ensures OnOneLabel(before, k)
      {
        assert OnOneLabel(matches, k);
      }
      SidesOnLabel(before, olds, news, l);
      LabelledMore(Lefts(before), last.left, l);
      LabelledMore(Rights(before), last.right, l);
    }
  }

  lemma SubsetCount<T>(a: set<T>, b: set<T>)
    requires a <= b
    ensures |a| <= |b| && (|a| == |b| ==> a == b)
  {
    assert |b - a| == |b| - |a|;
    assert b == a + (b - a);
  }

  /** Of the troves `items`, those in `used` are the newest on each label, and on a label of which any is left
      all of the `others` are used; then it is settled which are left. */
  lemma UsedUnlessSurplus(items: set<Info>, used: set<Info>, others: set<Info>, usedOthers: set<Info>, stamp: Stamp, x: Info)
    requires StampsDiffer(items, stamp) && x in items && used <= items && usedOthers <= others
    requires var l := TrailingLabel(x.version); |Labelled(used, l)| == |Labelled(usedOthers, l)|
    requires forall y, z :: UsedIsNewer(items, used, stamp, y, z)
    requires x !in used ==> Labelled(others - usedOthers, TrailingLabel(x.version)) == {}
    ensures UsedOrSurplus(items, used, others, stamp, x)
  {
    var l := TrailingLabel(x.version);
    var newer := NewerOnLabel(x, items, stamp);
    if x in used {
      forall y | y in newer
        ensures y in Labelled(used, l) - {x}
      {
        assert UsedIsNewer(items, used, stamp, x, y);
      }
      SubsetCount(newer, Labelled(used, l) - {x});
      SubsetCount(Labelled(usedOthers, l), Labelled(others, l));
    } else {
      forall y | y in Labelled(used, l)
        ensures y in newer
      {
        assert UsedIsNewer(items, used, stamp, y, x);
      }
      SubsetCount(Labelled(used, l), newer);
      assert Labelled(others, l) == Labelled(usedOthers, l) + Labelled(others - usedOthers, l);
    }
  }

  /** So with different time stamps pass 1 has only one outcome. */
  lemma LeftIsSurplus(olds: set<Info>, news: set<Info>, stamp: Stamp, matches: Matches)
    requires Pairs(matches, olds, news) && SameLabelDone(olds, news, stamp, matches)
    requires StampsDiffer(olds, stamp) && StampsDiffer(news, stamp)
    ensures olds - Lefts(matches) == Surplus(olds, news, stamp)
    ensures news - Rights(matches) == Surplus(news, olds, stamp)
  {
    PairsCount(matches, olds, news);
    UsedAreNewest(olds, news, stamp, matches);
    forall x
      ensures UsedOrSurplus(olds, Lefts(matches), news, stamp, x) && UsedOrSurplus(news, Rights(matches), olds, stamp, x)
    {
      if x in olds {
        OldIsSurplus(olds, news, stamp, matches, x);
      }
      if x in news {
        NewIsSurplus(olds, news, stamp, matches, x);
      }
    }
    RestIsSurplus(olds, Lefts(matches), news, stamp);
    RestIsSurplus(news, Rights(matches), olds, stamp);
  }

  ghost predicate UsedOrSurplus(items: set<Info>, used: set<Info>, others: set<Info>, stamp: Stamp, x: Info)
  {
    x in items ==> (x in used <==> x !in Surplus(items, others, stamp))
  }

  lemma RestIsSurplus(items: set<Info>, used: set<Info>, others: set<Info>, stamp: Stamp)
    requires forall x :: UsedOrSurplus(items, used, others, stamp, x)
    ensures items - used == Surplus(items, others, stamp)
  {
    var surplus := Surplus(items, others, stamp);
    forall x
      ensures x in items - used <==> x in surplus
    {
      assert UsedOrSurplus(items, used, others, stamp, x);
    }
  }

  lemma OldIsSurplus(olds: set<Info>, news: set<Info>, stamp: Stamp, matches: Matches, x: Info)
    requires Pairs(matches, olds, news) && Lefts(matches) <= olds && Rights(matches) <= news
    requires NoneShared(olds - Lefts(matches), news - Rights(matches)) && StampsDiffer(olds, stamp) && x in olds
    requires forall k :: OnOneLabel(matches, k)
    requires forall y, z :: UsedIsNewer(olds, Lefts(matches), stamp, y, z)
    ensures UsedOrSurplus(olds, Lefts(matches), news, stamp, x)
  {
    SidesOnLabel(matches, olds, news, TrailingLabel(x.version));
    if x !in Lefts(matches) {
      forall n | n in news - Rights(matches)
        ensures TrailingLabel(n.version) != TrailingLabel(x.version)
      {
        assert NoneOnLabel(n, olds - Lefts(matches)) && x in olds - Lefts(matches);
        assert !SameLabel(x, n);
      }
    }
    UsedUnlessSurplus(olds, Lefts(matches), news, Rights(matches), stamp, x);
  }

  lemma NewIsSurplus(olds: set<Info>, news: set<Info>, stamp: Stamp, matches: Matches, x: Info)
    requires Pairs(matches, olds, news) && Lefts(matches) <= olds && Rights(matches) <= news
    requires NoneShared(olds - Lefts(matches), news - Rights(matches)) && StampsDiffer(news, stamp) && x in news
    requires forall k :: OnOneLabel(matches, k)
    requires forall y, z :: UsedIsNewer(news, Rights(matches), stamp, y, z)
    ensures UsedOrSurplus(news, Rights(matches), olds, stamp, x)
  {
    SidesOnLabel(matches, olds, news, TrailingLabel(x.version));
    if x !in Rights(matches) {
      assert NoneOnLabel(x, olds - Lefts(matches));
    }
    UsedUnlessSurplus(news, Rights(matches), olds, Lefts(matches), stamp, x);
  }

  lemma UsedAreNewest(olds: set<Info>, news: set<Info>, stamp: Stamp, matches: Matches)
    requires SameLabelDone(olds, news, stamp, matches)
    ensures forall k :: OnOneLabel(matches, k)
    ensures forall y, z :: UsedIsNewer(olds, Lefts(matches), stamp, y, z)
    ensures forall y, z :: UsedIsNewer(news, Rights(matches), stamp, y, z)
  {
    forall k
      ensures OnOneLabel(matches, k)
    {
      assert NewestTaken(matches, olds - Lefts(matches), stamp, k);
    }
    forall y, z
      ensures UsedIsNewer(olds, Lefts(matches), stamp, y, z)
    {
      LeftAt(matches, y);
      if y in Lefts(matches) {
        var k :| 0 <= k < |matches| && matches[k].left == y;
        assert NewestTaken(matches, olds - Lefts(matches), stamp, k);
      }
    }
    forall y, z
      ensures UsedIsNewer(news, Rights(matches), stamp, y, z)
    {
      RightAt(matches, y);
      if y in Rights(matches) {
        var k :| 0 <= k < |matches| && matches[k].right == y;
        assert NewestGiven(matches, news - Rights(matches), stamp, k);
      }
    }
  }

  // ---------------------------------------------------------------- pass 2: the closest label

  /** No two versions on different labels collect the same items for the closeness measure. */
  ghost predicate ToldApart(olds: set<Info>, news: set<Info>)
  {
    forall o, n :: o in olds && n in news ==> ToldApartPair(o, n)
  }

  ghost predicate ToldApartPair(o: Info, n: Info)
  {
    !SameLabel(o, n) ==> ItemSet(n.version) != ItemSet(o.version)
  }

  function Score(p: Pair<Info, Info>): real
  {
    var c := Closeness(p.right.version, p.left.version);
    if c.Some? then c.value else 0.0
  }

  /** The measure tells apart what pass 1 has no partners for. */
  ghost predicate SurplusTold(olds: set<Info>, news: set<Info>, stamp: Stamp)
  {
    ToldApart(Surplus(olds, news, stamp), Surplus(news, olds, stamp))
  }

  /** A match shares a side with `c` and is at least as close. */
  ghost predicate Outrun(c: Pair<Info, Info>, matches: Matches)
  {
    exists k :: 0 <= k < |matches|
      && (matches[k].left == c.left || matches[k].right == c.right) && AtLeastAsClose(matches[k], c)
  }

  /** What pass 2 settles: each match has something in common, and whatever else has something in common lost to a
      match that is at least as close. */
  ghost predicate ClosestDone(olds: set<Info>, news: set<Info>, matches: Matches)
  {
    && (forall k :: InCommon(matches, k))
    && (forall o, n :: OutrunAt(olds, news, matches, o, n))
  }

  ghost predicate InCommon(matches: Matches, k: int)
  {
    0 <= k < |matches| ==> Common(matches[k]) != {}
  }

  ghost predicate OutrunAt(olds: set<Info>, news: set<Info>, matches: Matches, o: Info, n: Info)
  {
    o in olds && n in news && Common(Pair(o, n)) != {} ==> Outrun(Pair(o, n), matches)
  }

  /** The inner loop of pass 2: one added trove against every removed one. The measure divides by zero
      for a trove it cannot tell apart. */
  method ScoreAgainst(olds: set<Info>, newInfo: Info) returns (ok: bool, scored: set<Pair<Info, Info>>)
    requires NoneOnLabel(newInfo, olds)
    ensures ok <==> ToldApart(olds, {newInfo})
    ensures ok ==> forall o, n :: Pair(o, n) in scored <==> Scored(olds, {newInfo}, o, n)
  {
    ok, scored := true, {};
    var oldsToDo := olds;
    while oldsToDo != {}
      invariant oldsToDo <= olds && ToldApart(olds - oldsToDo, {newInfo}) && ok
      invariant forall o, n :: Pair(o, n) in scored <==> Scored(olds - oldsToDo, {newInfo}, o, n)
      decreases |oldsToDo|
    {
      var oldInfo :| oldInfo in oldsToDo;
      ClosenessDefined(newInfo.version, oldInfo.version);
      var score := Closeness(newInfo.version, oldInfo.version);
      if score.None? {
        assert !ToldApartPair(oldInfo, newInfo);
        return false, scored;
      }
      if score.value != 0.0 {
        scored := scored + {Pair(oldInfo, newInfo)};
      }
      oldsToDo := oldsToDo - {oldInfo};
    }
  }

  lemma OneMoreTold(olds: set<Info>, news: set<Info>, n: Info)
    requires ToldApart(olds, news) && ToldApart(olds, {n})
    ensures ToldApart(olds, news + {n})
  {
    forall o, m | o in olds && m in news + {n}
      ensures ToldApartPair(o, m)
    {
      assert m in news || m in {n};
    }
  }

  /** Pass 2 of `_versionMatch`: across labels by closeness, best first; pairs with nothing in
      common are left alone. It raises if there are two troves the measure cannot tell apart. */
  method ClosenessPass(olds: set<Info>, news: set<Info>)
    returns (ok: bool, matches: Matches, oldLeft: set<Info>, newLeft: set<Info>)
    requires NoneShared(olds, news)
    ensures ok <==> ToldApart(olds, news)
    ensures ok ==> Pairs(matches, olds, news)
    ensures ok ==> oldLeft == olds - Lefts(matches) && newLeft == news - Rights(matches)
    ensures ok ==> ClosestDone(olds, news, matches)
  {
    ok, matches, oldLeft, newLeft := true, [], olds, news;
    var scored: set<Pair<Info, Info>> := {};
    var newsToDo := news;
    while newsToDo != {}
      invariant newsToDo <= news && ToldApart(olds, news - newsToDo)
      invariant forall o, n :: Pair(o, n) in scored <==> Scored(olds, news - newsToDo, o, n)
      decreases |newsToDo|
    {
      var newInfo :| newInfo in newsToDo;
      var more;
      ok, more := ScoreAgainst(olds, newInfo);
      if !ok {
        Untold(olds, news, newInfo);
        return;
      }
      OneMoreTold(olds, news - newsToDo, newInfo);
      assert news - newsToDo + {newInfo} == news - (newsToDo - {newInfo});
      scored := scored + more;
      newsToDo := newsToDo - {newInfo};
    }
    assert news - newsToDo == news;
    CandidatesAreScored(scored, olds, news);
    matches, oldLeft, newLeft := Greedy(scored, olds, news, Score);
    AllScored(scored, olds, news, matches);
    ok := true;
  }

  lemma Untold(olds: set<Info>, news: set<Info>, n: Info)
    requires n in news && !ToldApart(olds, {n})
    ensures !ToldApart(olds, news)
  {
    var o, m :| o in olds && m in {n} && !ToldApartPair(o, m);
  }

  lemma CandidatesAreScored(scored: set<Pair<Info, Info>>, olds: set<Info>, news: set<Info>)
    requires forall o, n :: Pair(o, n) in scored <==> Scored(olds, news, o, n)
    ensures forall c :: c in scored ==> c.left in olds && c.right in news && Score(c) != 0.0
  {
    forall c | c in scored
      ensures Scored(olds, news, c.left, c.right)
    {
      assert c == Pair(c.left, c.right);
    }
  }

  /** Two troves left over from pass 1 that get through are measured apart. */
  lemma MeasuredApart(olds: set<Info>, news: set<Info>, o: Info, n: Info)
    requires NoneShared(olds, news) && ToldApart(olds, news) && o in olds && n in news
    ensures ItemSet(o.version) != ItemSet(n.version)
  {
    assert NoneOnLabel(n, olds);
    assert ToldApartPair(o, n);
  }

  lemma MatchInCommon(scored: set<Pair<Info, Info>>, olds: set<Info>, news: set<Info>, m: Pair<Info, Info>)
    requires NoneShared(olds, news) && ToldApart(olds, news)
    requires forall o, n :: Pair(o, n) in scored <==> Scored(olds, news, o, n)
    requires m in scored
    ensures m.left in olds && m.right in news && Common(m) != {}
  {
    assert m == Pair(m.left, m.right);
    MeasuredApart(olds, news, m.left, m.right);
    ScoreIsCommon(m);
  }

  lemma BeatenIsOutrun(olds: set<Info>, news: set<Info>, c: Pair<Info, Info>, matches: Matches)
    requires NoneShared(olds, news) && ToldApart(olds, news) && c.left in olds && c.right in news
    requires forall k :: 0 <= k < |matches| ==> matches[k].left in olds && matches[k].right in news
    requires Beaten(c, matches, Score)
    ensures Outrun(c, matches)
  {
    var k :| 0 <= k < |matches| && (matches[k].left == c.left || matches[k].right == c.right)
      && Score(matches[k]) >= Score(c);
    MeasuredApart(olds, news, c.left, c.right);
    MeasuredApart(olds, news, matches[k].left, matches[k].right);
    ScoreIsCloseness(matches[k], c);
  }

  lemma AllScored(scored: set<Pair<Info, Info>>, olds: set<Info>, news: set<Info>, matches: Matches)
    requires NoneShared(olds, news) && ToldApart(olds, news)
    requires forall o, n :: Pair(o, n) in scored <==> Scored(olds, news, o, n)
    requires forall k :: 0 <= k < |matches| ==> matches[k] in scored
    requires NothingBetter(scored, matches, Score)
    ensures ClosestDone(olds, news, matches)
  {
    forall k | 0 <= k < |matches|
      ensures matches[k].left in olds && matches[k].right in news && Common(matches[k]) != {}
    {
      MatchInCommon(scored, olds, news, matches[k]);
    }
    forall k
      ensures InCommon(matches, k)
    {
    }
    forall o, n
      ensures OutrunAt(olds, news, matches, o, n)
    {
      if o in olds && n in news && Common(Pair(o, n)) != {} {
        MeasuredApart(olds, news, o, n);
        ScoreIsCommon(Pair(o, n));
        assert Scored(olds, news, o, n);
        BeatenIsOutrun(olds, news, Pair(o, n), matches);
      }
    }
  }

  ghost predicate Scored(olds: set<Info>, news: set<Info>, o: Info, n: Info)
  {
    o in olds && n in news && Score(Pair(o, n)) != 0.0
  }

  // ---------------------------------------------------------------- pass 3: the dregs

  ghost predicate Newest(x: Info, left: set<Info>, stamp: Stamp)
  {
    forall other :: other in left ==> stamp(other) <= stamp(x)
  }

  /** The `k`-th match takes nothing older than what is left. */
  ghost predicate NewestBoth(olds: set<Info>, news: set<Info>, stamp: Stamp, matches: Matches, k: int)
  {
    0 <= k < |matches| ==>
      && Newest(matches[k].left, olds - Lefts(matches), stamp)
      && Newest(matches[k].right, news - Rights(matches), stamp)
  }

  ghost predicate ByAge(matches: Matches, stamp: Stamp, k: int, l: int)
  {
    0 <= k < l < |matches| ==>
      stamp(matches[k].left) >= stamp(matches[l].left) && stamp(matches[k].right) >= stamp(matches[l].right)
  }

  /** What pass 3 settles: newest with newest, and nothing newer is left on either side. */
  ghost predicate DregsDone(olds: set<Info>, news: set<Info>, stamp: Stamp, matches: Matches)
  {
    && (forall k, l :: ByAge(matches, stamp, k, l))
    && (forall k :: NewestBoth(olds, news, stamp, matches, k))
  }

  /** Pass 3 of `_versionMatch`: newest goes with newest, until one side is used up. */
  method DregsPass(olds: set<Info>, news: set<Info>, stamp: Stamp) returns (matches: Matches)
    ensures Pairs(matches, olds, news)
    ensures |matches| == if |olds| < |news| then |olds| else |news|
    ensures DregsDone(olds, news, stamp, matches)
  {
    var newList := SortDescending(news, stamp);
    var oldList := SortDescending(olds, stamp);
    matches := [];
    var count := if |oldList| < |newList| then |oldList| else |newList|;
    for i := 0 to count
      invariant |matches| == i && Pairs(matches, olds, news)
      invariant forall k :: 0 <= k < i ==> matches[k] == Pair(oldList[k], newList[k])
    {
      DregIsNew(oldList, newList, matches, olds, news);
      PairsAppend(matches, oldList[i], newList[i], olds, news);
      matches := matches + [Pair(oldList[i], newList[i])];
    }
    DregsSettled(oldList, newList, matches, olds, news, stamp);
  }

  lemma DregsSettled(oldList: seq<Info>, newList: seq<Info>, matches: Matches, olds: set<Info>, news: set<Info>,
                     stamp: Stamp)
    requires Descending(oldList, stamp) && forall x :: x in oldList <==> x in olds
    requires Descending(newList, stamp) && forall x :: x in newList <==> x in news
    requires |matches| <= |oldList| && |matches| <= |newList|
    requires forall k :: 0 <= k < |matches| ==> matches[k] == Pair(oldList[k], newList[k])
    ensures DregsDone(olds, news, stamp, matches)
  {
    forall k
      ensures NewestBoth(olds, news, stamp, matches, k)
    {
      DregsAreNewest(oldList, newList, matches, olds, news, stamp, k);
    }
  }

  lemma DregsAreNewest(oldList: seq<Info>, newList: seq<Info>, matches: Matches, olds: set<Info>, news: set<Info>,
                       stamp: Stamp, k: int)
    requires Descending(oldList, stamp) && forall x :: x in oldList <==> x in olds
    requires Descending(newList, stamp) && forall x :: x in newList <==> x in news
    requires |matches| <= |oldList| && |matches| <= |newList|
    requires forall k :: 0 <= k < |matches| ==> matches[k] == Pair(oldList[k], newList[k])
    ensures NewestBoth(olds, news, stamp, matches, k)
  {
    if 0 <= k < |matches| {
      forall x | x in olds - Lefts(matches)
        ensures stamp(x) <= stamp(matches[k].left)
      {
        var j :| 0 <= j < |oldList| && oldList[j] == x;
        LeftAt(matches, x);
      }
      forall x | x in news - Rights(matches)
        ensures stamp(x) <= stamp(matches[k].right)
      {
        var j :| 0 <= j < |newList| && newList[j] == x;
        RightAt(matches, x);
      }
    }
  }

  lemma DregIsNew(oldList: seq<Info>, newList: seq<Info>, matches: Matches, olds: set<Info>, news: set<Info>)
    requires |oldList| == |olds| && forall x :: x in oldList <==> x in olds
    requires |newList| == |news| && forall x :: x in newList <==> x in news
    requires |matches| < |oldList| && |matches| < |newList|
    requires forall k :: 0 <= k < |matches| ==> matches[k] == Pair(oldList[k], newList[k])
    ensures oldList[|matches|] in olds && oldList[|matches|] !in Lefts(matches)
    ensures newList[|matches|] in news && newList[|matches|] !in Rights(matches)
  {
    var i := |matches|;
    LeftAt(matches, oldList[i]);
    RightAt(matches, newList[i]);
    forall k | 0 <= k < i
      ensures matches[k].left != oldList[i] && matches[k].right != newList[i]
    {
      NoRepeats(oldList, olds, k, i);
      NoRepeats(newList, news, k, i);
    }
  }

  /** The `k`-th match is on one label, or of two troves the measure tells apart. */
  ghost predicate MatchTold(matches: Matches, k: int)
  {
    0 <= k < |matches| ==> ToldApartPair(matches[k].left, matches[k].right)
  }

  lemma PairsTold(pairs: Matches, lefts: set<Info>, rights: set<Info>, olds: set<Info>, news: set<Info>)
    requires Pairs(pairs, lefts, rights) && lefts <= olds && rights <= news && ToldApart(olds, news)
    ensures forall k :: MatchTold(pairs, k)
  {
    forall k
      ensures MatchTold(pairs, k)
    {
      if 0 <= k < |pairs| {
        PairAt(pairs, lefts, rights, k);
      }
    }
  }

  lemma ToldConcat(p: Matches, q: Matches)
    requires forall k :: MatchTold(p, k)
    requires forall k :: MatchTold(q, k)
    ensures forall k :: MatchTold(p + q, k)
  {
    forall k
      ensures MatchTold(p + q, k)
    {
      assert MatchTold(p, k) && MatchTold(q, k - |p|);
    }
  }

  lemma PassesTold(olds: set<Info>, news: set<Info>, stamp: Stamp, first: Matches, second: Matches, third: Matches)
    requires SameLabelDone(olds, news, stamp, first)
    requires ToldApart(olds - Lefts(first), news - Rights(first))
    requires Pairs(second, olds - Lefts(first), news - Rights(first))
    requires Pairs(third, olds - Lefts(first) - Lefts(second), news - Rights(first) - Rights(second))
    ensures forall k :: MatchTold(first + (second + third), k)
  {
    var olds1, news1 := olds - Lefts(first), news - Rights(first);
    forall k
      ensures MatchTold(first, k)
    {
      assert NewestTaken(first, olds1, stamp, k);
    }
    PairsTold(second, olds1, news1, olds1, news1);
    PairsTold(third, olds1 - Lefts(second), news1 - Rights(second), olds1, news1);
    ToldConcat(second, third);
    ToldConcat(first, second + third);
  }

  /** The results of the three passes, each over what the ones before left. */
  ghost predicate ThreePasses(olds: set<Info>, news: set<Info>, stamp: Stamp, sameLabel: Matches, closest: Matches,
                              dregs: Matches)
  {
    && Pairs(sameLabel, olds, news) && SameLabelDone(olds, news, stamp, sameLabel)
    && var olds1, news1 := olds - Lefts(sameLabel), news - Rights(sameLabel);
       && Pairs(closest, olds1, news1) && ClosestDone(olds1, news1, closest)
       && var olds2, news2 := olds1 - Lefts(closest), news1 - Rights(closest);
          Pairs(dregs, olds2, news2) && DregsDone(olds2, news2, stamp, dregs)
  }

  /** What `_versionMatch` returns: as many matches as the smaller side has versions, from the three passes. */
  ghost predicate VersionMatched(olds: set<Info>, news: set<Info>, stamp: Stamp, matches: Matches)
  {
    && Pairs(matches, olds, news) && |matches| == (if |olds| < |news| then |olds| else |news|)
    && exists sameLabel, closest, dregs ::
         ThreePasses(olds, news, stamp, sameLabel, closest, dregs) && matches == sameLabel + (closest + dregs)
  }

  /** `_versionMatch`: the three passes in turn, and as many matches as the smaller side has versions. It
      raises exactly if pass 1 leaves two troves that the measure of pass 2 cannot tell apart; which troves it
      leaves depends on nothing but the two sets, if no two troves of one set and label share a time stamp. */
  method MatchVersions(oldInfoSet: set<Info>, newInfoSet: set<Info>, stamp: Stamp)
    returns (r: Result<Matches>, ghost sameLabel: Matches, ghost closest: Matches, ghost dregs: Matches)
    ensures Pairs(sameLabel, oldInfoSet, newInfoSet) && SameLabelDone(oldInfoSet, newInfoSet, stamp, sameLabel)
    ensures r.Ok? <==> ToldApart(oldInfoSet - Lefts(sameLabel), newInfoSet - Rights(sameLabel))
    ensures StampsDiffer(oldInfoSet, stamp) && StampsDiffer(newInfoSet, stamp) ==>
              (r.Ok? <==> SurplusTold(oldInfoSet, newInfoSet, stamp))
    ensures r.Ok? ==>
              && ThreePasses(oldInfoSet, newInfoSet, stamp, sameLabel, closest, dregs)
              && r.value == sameLabel + (closest + dregs)
    ensures r.Ok? ==> VersionMatched(oldInfoSet, newInfoSet, stamp, r.value)
    ensures r.Ok? ==> forall k :: MatchTold(r.value, k)
  {
    var first, oldLeft, newLeft := SameLabelPass(oldInfoSet, newInfoSet, stamp);
    sameLabel, closest, dregs := first, [], [];
    if StampsDiffer(oldInfoSet, stamp) && StampsDiffer(newInfoSet, stamp) {
      LeftIsSurplus(oldInfoSet, newInfoSet, stamp, first);
    }
    var ok, second, oldLast, newLast := ClosenessPass(oldLeft, newLeft);
    if !ok {
      return Err("ZeroDivisionError"), sameLabel, closest, dregs;
    }
    var third := DregsPass(oldLast, newLast, stamp);
    JoinPasses(oldInfoSet, newInfoSet, first, oldLeft, newLeft, second, oldLast, newLast, third);
    CountPass(oldInfoSet, newInfoSet, first, oldLeft, newLeft);
    CountPass(oldLeft, newLeft, second, oldLast, newLast);
    PassesTold(oldInfoSet, newInfoSet, stamp, first, second, third);
    closest, dregs := second, third;
    r := Ok(first + (second + third));
  }

  /** Each pass pairs what the one before left. */
  lemma JoinPasses(olds: set<Info>, news: set<Info>, first: Matches, olds1: set<Info>, news1: set<Info>,
                   second: Matches, olds2: set<Info>, news2: set<Info>, third: Matches)
    requires Pairs(first, olds, news) && olds1 == olds - Lefts(first) && news1 == news - Rights(first)
    requires Pairs(second, olds1, news1) && olds2 == olds1 - Lefts(second) && news2 == news1 - Rights(second)
    requires Pairs(third, olds2, news2)
    ensures Pairs(first + (second + third), olds, news)
  {
    PairsConcat(second, third, olds1, news1);
    PairsConcat(first, second + third, olds, news);
  }

  lemma {:induction false} CountPass(olds: set<Info>, news: set<Info>, pass: Matches, olds': set<Info>, news': set<Info>)
    requires Pairs(pass, olds, news) && olds' == olds - Lefts(pass) && news' == news - Rights(pass)
    ensures |olds'| == |olds| - |pass| && |news'| == |news| - |pass|
  {
    PairsCount(pass, olds, news);
  }
}
