/** Python's `str` operations the models need: split, join and decimal numbers. */
module Text {

  datatype Option<+T> = None | Some(value: T)

  datatype Result<+T> = Ok(value: T) | Err(error: string)

  // ---------------------------------------------------------------- split and join

  predicate Free(s: string, c: char)
  {
    forall i :: 0 <= i < |s| ==> s[i] != c
  }

  predicate AllFree(parts: seq<string>, c: char)
  {
    forall i :: 0 <= i < |parts| ==> Free(parts[i], c)
  }

  /** `s.split(c)` */
  function Split(s: string, c: char): (parts: seq<string>)
    ensures |parts| > 0
  {
    if s == "" then [""]
    else if s[0] == c then [""] + Split(s[1..], c)
    else
      var parts := Split(s[1..], c);
      [[s[0]] + parts[0]] + parts[1..]
  }

  /** `c.join(parts)` */
  function Join(parts: seq<string>, c: char): string
  {
    if parts == [] then ""
    else if |parts| == 1 then parts[0]
    else parts[0] + [c] + Join(parts[1..], c)
  }

  lemma {:induction false} SplitFirst(p: string, rest: string, c: char)
    requires Free(p, c)
    ensures Split(p + [c] + rest, c) == [p] + Split(rest, c)
    ensures Split(p, c) == [p]
  {
    if p == "" {
      assert p + [c] + rest == [c] + rest;
    } else {
      assert (p + [c] + rest)[1..] == p[1..] + [c] + rest;
      SplitFirst(p[1..], rest, c);
      assert [p[0]] + p[1..] == p;
    }
  }

  lemma {:induction false} SplitJoin(parts: seq<string>, c: char)
    requires parts != [] && AllFree(parts, c)
    ensures Split(Join(parts, c), c) == parts
  {
    if |parts| == 1 {
      SplitFirst(parts[0], "", c);
    } else {
      SplitFirst(parts[0], Join(parts[1..], c), c);
      SplitJoin(parts[1..], c);
    }
  }

  /** Splitting loses nothing, and leaves no separator in any piece. */
  lemma {:induction false} JoinUndoesSplit(s: string, c: char)
    ensures Join(Split(s, c), c) == s && AllFree(Split(s, c), c)
  {
    if s != "" {
      var rest := Split(s[1..], c);
      JoinUndoesSplit(s[1..], c);
      if s[0] == c {
        assert Split(s, c)[1..] == rest;
      } else {
        FirstPiece(s[0], rest, c);
        assert Free([s[0]] + rest[0], c);
      }
    }
  }

  lemma FirstPiece(x: char, pieces: seq<string>, c: char)
    requires pieces != []
    ensures Join([[x] + pieces[0]] + pieces[1..], c) == [x] + Join(pieces, c)
  {
    var longer := [[x] + pieces[0]] + pieces[1..];
    assert longer[1..] == pieces[1..];
    if |pieces| > 1 {
      var rest := Join(pieces[1..], c);
      assert [x] + pieces[0] + [c] + rest == [x] + (pieces[0] + [c] + rest);
    }
  }

  /** `"".join(l)` */
  function Concat(l: seq<string>): string
  {
    if l == [] then "" else l[0] + Concat(l[1..])
  }

  method JoinAll(l: seq<string>) returns (data: string)
    ensures data == Concat(l)
  {
    data := "";
    assert l[0..] == l;
    for i := 0 to |l|
      invariant data + Concat(l[i..]) == Concat(l)
    {
      assert l[i..][0] == l[i] && l[i..][1..] == l[i + 1..];
      assert data + (l[i] + Concat(l[i + 1..])) == data + l[i] + Concat(l[i + 1..]);
      data := data + l[i];
    }
    assert l[|l|..] == [] && data + "" == data;
  }

  lemma NextPrefix<T>(l: seq<T>, i: nat)
    requires i < |l|
    ensures l[..i + 1] == l[..i] + [l[i]]
  {
  }

  predicate NoneTwice<T(==)>(l: seq<T>)
  {
    forall i, j :: 0 <= i < j < |l| ==> l[i] != l[j]
  }

  lemma RepeatCounts<T>(l: seq<T>, i: nat, j: nat)
    requires i < j < |l| && l[i] == l[j]
    ensures multiset(l)[l[i]] >= 2
  {
    assert l == l[..j] + l[j..];
    assert l[..j][i] == l[i] && l[j..][0] == l[j];
    assert l[i] in multiset(l[..j]) && l[i] in multiset(l[j..]);
  }

  // ---------------------------------------------------------------- equal maps

  ghost predicate SameAt<K(!new), V>(a: map<K, V>, b: map<K, V>, k: K)
  {
    (k in a <==> k in b) && (k in a && k in b ==> a[k] == b[k])
  }

  lemma SameMaps<K(!new), V>(a: map<K, V>, b: map<K, V>)
    requires forall k :: SameAt(a, b, k)
    ensures a == b
  {
    assert forall k :: k in a ==> SameAt(a, b, k);
    assert forall k :: k in b ==> SameAt(a, b, k);
  }

  // ---------------------------------------------------------------- decimal numbers

  const DIGITS: string := "0123456789"

  predicate IsDigit(c: char)
  {
    '0' <= c <= '9'
  }

  predicate AllDigits(s: string)
  {
    forall i :: 0 <= i < |s| ==> IsDigit(s[i])
  }

  /** `str(n)` for n >= 0 */
  function Decimal(n: nat): (s: string)
    ensures s != "" && AllDigits(s)
  {
    if n < 10 then [DIGITS[n]] else Decimal(n / 10) + [DIGITS[n % 10]]
  }

  function DigitsValue(s: string): nat
    requires AllDigits(s)
  {
    if s == "" then 0 else DigitsValue(s[..|s| - 1]) * 10 + ((s[|s| - 1] as int) - ('0' as int))
  }

  /** Decimals have their highest digit first. */
  lemma {:induction false} NextDigit(n: nat, d: nat)
    requires d < 10
    ensures Decimal(d) == [('0' as int + d) as char]
    ensures n > 0 ==> Decimal(10 * n + d) == Decimal(n) + Decimal(d)
  {
    assert (10 * n + d) / 10 == n && (10 * n + d) % 10 == d;
  }

  predicate IsSpace(c: char)
  {
    c == ' ' || '\t' <= c <= '\r'
  }

  function StripLeft(s: string): string
  {
    if s != "" && IsSpace(s[0]) then StripLeft(s[1..]) else s
  }

  function StripRight(s: string): string
  {
    if s != "" && IsSpace(s[|s| - 1]) then StripRight(s[..|s| - 1]) else s
  }

  /** `s.strip()` */
  function Strip(s: string): string
  {
    StripRight(StripLeft(s))
  }

  /** `int(s)`: optional blanks around an optional sign and at least one digit. */
  function ParseInt(s: string): Result<int>
  {
    var t := Strip(s);
    var digits := if t != "" && (t[0] == '+' || t[0] == '-') then t[1..] else t;
    if digits != "" && AllDigits(digits) then
      var value: int := DigitsValue(digits);
      Ok(if t[0] == '-' then -value else value)
    else
      Err("ValueError")
  }

  lemma {:induction false} DigitsValueDecimal(n: nat)
    ensures DigitsValue(Decimal(n)) == n
  {
    if n >= 10 {
      DigitsValueDecimal(n / 10);
      var s := Decimal(n);
      assert s[..|s| - 1] == Decimal(n / 10);
    } else {
      var s := Decimal(n);
      assert s[..|s| - 1] == "";
    }
  }

  lemma {:induction false} ParseIntDecimal(n: nat)
    ensures ParseInt(Decimal(n)) == Ok(n)
  {
    var s := Decimal(n);
    assert IsDigit(s[0]) && IsDigit(s[|s| - 1]);
    assert Strip(s) == s;
    DigitsValueDecimal(n);
  }
}
