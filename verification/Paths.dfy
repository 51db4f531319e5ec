/** `os.path.split` and `os.path.join`, as far as file lists use them. */
module Paths {

  datatype Place = Place(dir: string, base: string)

  predicate NoSlash(s: string)
  {
    forall i :: 0 <= i < |s| ==> s[i] != '/'
  }

  predicate AllSlashes(s: string)
  {
    forall i :: 0 <= i < |s| ==> s[i] == '/'
  }

  /** `p.rfind('/') + 1` */
  function BaseStart(p: string): (i: nat)
    ensures i <= |p| && NoSlash(p[i..]) && (i > 0 ==> p[i - 1] == '/')
  {
    if p == "" || p[|p| - 1] == '/' then |p|
    else
      var i := BaseStart(p[..|p| - 1]);
      assert p[i..] == p[..|p| - 1][i..] + [p[|p| - 1]];
      i
  }

  /** `s.rstrip('/')` */
  function StripSlashes(s: string): string
  {
    if s != "" && s[|s| - 1] == '/' then StripSlashes(s[..|s| - 1]) else s
  }

  function SplitPath(p: string): Place
  {
    var i := BaseStart(p);
    var head, tail := p[..i], p[i..];
    Place(if AllSlashes(head) then head else StripSlashes(head), tail)
  }

  function JoinPath(dir: string, base: string): string
  {
    if base != "" && base[0] == '/' then base
    else if dir == "" || dir[|dir| - 1] == '/' then dir + base
    else dir + "/" + base
  }

  function PathOf(place: Place): string
  {
    JoinPath(place.dir, place.base)
  }

  /** A path as `os.path.split` leaves it. */
  predicate Normal(place: Place)
  {
    NoSlash(place.base) && (AllSlashes(place.dir) || place.dir[|place.dir| - 1] != '/')
  }

  lemma {:induction false} BaseStartOf(head: string, base: string)
    requires NoSlash(base) && (head == "" || head[|head| - 1] == '/')
    ensures BaseStart(head + base) == |head|
  {
    if base == "" {
      assert head + base == head;
    } else {
      var p := head + base;
      assert p[|p| - 1] == base[|base| - 1];
      assert p[..|p| - 1] == head + base[..|base| - 1];
      BaseStartOf(head, base[..|base| - 1]);
    }
  }

  lemma {:induction false} StripSlashesNormal(s: string)
    ensures var t := StripSlashes(s);
            && t <= s && (t == "" || t[|t| - 1] != '/') && (t == "" ==> AllSlashes(s))
            && (|t| < |s| ==> s[|t|] == '/')
  {
    if s != "" && s[|s| - 1] == '/' {
      StripSlashesNormal(s[..|s| - 1]);
    }
  }

  lemma SplitIsNormal(p: string)
    ensures Normal(SplitPath(p))
  {
    StripSlashesNormal(p[..BaseStart(p)]);
  }

  lemma SplitAfterSlashes(dir: string, base: string)
    requires NoSlash(base) && AllSlashes(dir)
    ensures SplitPath(dir + base) == Place(dir, base)
  {
    BaseStartOf(dir, base);
    assert (dir + base)[..|dir|] == dir && (dir + base)[|dir|..] == base;
  }

  lemma SplitAfterName(dir: string, base: string)
    requires NoSlash(base) && dir != "" && dir[|dir| - 1] != '/'
    ensures SplitPath(dir + "/" + base) == Place(dir, base)
  {
    var head := dir + "/";
    BaseStartOf(head, base);
    assert (head + base)[..|head|] == head && (head + base)[|head|..] == base;
    assert head[|dir| - 1] == dir[|dir| - 1];
    assert head[|head| - 1] == '/' && head[..|head| - 1] == dir;
    assert StripSlashes(head) == StripSlashes(dir) == dir;
  }

  /** Splitting a joined path gives back its two halves for exactly those halves that splitting
      can produce. */
  lemma SplitUndoesJoin(place: Place)
    ensures SplitPath(PathOf(place)) == place <==> Normal(place)
  {
    SplitIsNormal(PathOf(place));
    if Normal(place) {
      if AllSlashes(place.dir) {
        SplitAfterSlashes(place.dir, place.base);
      } else {
        SplitAfterName(place.dir, place.base);
      }
    }
  }

  /** Splitting and joining takes nothing but slashes away. */
  lemma JoinAfterSplit(p: string)
    ensures |PathOf(SplitPath(p))| <= |p|
    ensures |PathOf(SplitPath(p))| == |p| ==> PathOf(SplitPath(p)) == p
  {
    var i := BaseStart(p);
    var head, tail := p[..i], p[i..];
    assert p == head + tail;
    StripSlashesNormal(head);
    if !AllSlashes(head) {
      var dir := StripSlashes(head);
      assert dir != head;
      if |dir| + 1 == |head| {
        assert head == dir + "/";
      }
    }
  }

  /** A split path is its two halves with nothing but slashes between; the second half holds none. */
  lemma SplitTakesSlashes(p: string)
    ensures var s := SplitPath(p);
            && Normal(s) && |s.dir| + |s.base| <= |p| && p[..|s.dir|] == s.dir && p[|p| - |s.base|..] == s.base
            && AllSlashes(p[|s.dir|..|p| - |s.base|])
  {
    var i := BaseStart(p);
    SplitIsNormal(p);
    StripTakesSlashes(p[..i]);
  }

  lemma {:induction false} StripTakesSlashes(s: string)
    ensures StripSlashes(s) <= s && AllSlashes(s[|StripSlashes(s)|..])
  {
    if s != "" && s[|s| - 1] == '/' {
      StripTakesSlashes(s[..|s| - 1]);
      var t := StripSlashes(s);
      assert s[|t|..] == s[..|s| - 1][|t|..] + [s[|s| - 1]];
    }
  }

  /** Only the empty path joins to nothing. */
  lemma EmptyPath(place: Place)
    ensures PathOf(place) == "" <==> place == Place("", "")
  {
  }
}
