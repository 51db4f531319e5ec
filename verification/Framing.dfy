/** The byte layouts of `pack` and `struct` that the streams use. Bytes are characters below 256. */
module Framing {
  import opened Text

  predicate IsBytes(s: string)
  {
    forall i :: 0 <= i < |s| ==> s[i] < 256 as char
  }

  /** `struct.pack("!H", n)` */
  function PackH(n: nat): string
    requires n < 65536
  {
    [(n / 256) as char, (n % 256) as char]
  }

  function UnpackH(s: string): nat
    requires |s| >= 2
  {
    (s[0] as nat) * 256 + (s[1] as nat)
  }

  lemma HRoundTrip(n: nat, rest: string)
    requires n < 65536
    ensures UnpackH(PackH(n) + rest) == n
  {
    assert (PackH(n) + rest)[0] == PackH(n)[0] && (PackH(n) + rest)[1] == PackH(n)[1];
  }

  /** `struct.pack("!H", len(s)) + s` */
  function HString(s: string): string
    requires |s| < 65536
  {
    PackH(|s|) + s
  }

  /** A length is two bytes, the high one first, and the string follows. */
  lemma HStringBytes(s: string)
    requires |s| < 65536
    ensures var data := HString(s);
            && |data| == 2 + |s| && IsBytes(data[..2])
            && (data[0] as nat) * 0x100 + (data[1] as nat) == |s| && data[2..] == s
  {
  }

  /** At `i` there is the length of `s`, the high byte first, and then `s`. */
  predicate HStringAt(data: string, i: nat, s: string)
  {
    && i + 2 + |s| <= |data|
    && (data[i] as nat) * 0x100 + (data[i + 1] as nat) == |s| && data[i + 2..i + 2 + |s|] == s
  }

  lemma HStringWithin(before: string, s: string, rest: string)
    requires |s| < 65536
    ensures HStringAt(before + HString(s) + rest, |before|, s)
  {
    HStringBytes(s);
    var data, n := before + HString(s) + rest, |before|;
    assert data[n] == HString(s)[0] && data[n + 1] == HString(s)[1];
    assert data[n + 2..n + 2 + |s|] == HString(s)[2..];
  }

  lemma Regrouped(before: string, a: string, b: string, c: string, rest: string)
    ensures before + a + b + c + rest == before + a + (b + c + rest)
    ensures before + a + b + c + rest == before + a + b + (c + rest)
  {
    assert b + c + rest == b + (c + rest);
    Regroup(before + a, b, c + rest);
    Regroup(before + a + b, c, rest);
  }

  lemma Regroup(a: string, b: string, c: string)
    ensures a + b + c == a + (b + c)
  {
  }

  lemma ThreeHStrings(before: string, a: string, b: string, c: string, rest: string)
    requires |a| < 65536 && |b| < 65536 && |c| < 65536
    ensures var data, n := before + HString(a) + HString(b) + HString(c) + rest, |before|;
            && |data| == n + 6 + |a| + |b| + |c| + |rest| && HStringAt(data, n, a)
            && HStringAt(data, n + 2 + |a|, b) && HStringAt(data, n + 4 + |a| + |b|, c)
  {
    var x, y, z := HString(a), HString(b), HString(c);
    Regrouped(before, x, y, z, rest);
    HStringWithin(before, a, y + z + rest);
    HStringWithin(before + x, b, z + rest);
    HStringWithin(before + x + y, c, rest);
  }

  /** `data[:n]` and `data[n:]`: a slice past the end is not an error. */
  function Cut(data: string, n: nat): (string, string)
  {
    if n <= |data| then (data[..n], data[n..]) else (data, "")
  }

  /** The code `SH`: a length, then that many bytes or as many as there are. */
  function TakeH(data: string): Result<(string, string)>
  {
    if |data| < 2 then Err("struct.error") else Ok(Cut(data[2..], UnpackH(data)))
  }

  lemma CutConcat(a: string, rest: string)
    ensures Cut(a + rest, |a|) == (a, rest)
  {
  }

  lemma TakeHString(s: string, rest: string)
    requires |s| < 65536
    ensures TakeH(HString(s) + rest) == Ok((s, rest))
  {
    var data := HString(s) + rest;
    assert data == PackH(|s|) + (s + rest);
    HRoundTrip(|s|, s + rest);
    assert data[2..] == s + rest;
    CutConcat(s, rest);
  }
}
