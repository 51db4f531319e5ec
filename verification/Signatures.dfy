/** The multi-precision integers of a `DigitalSignature`: section 3.2 of RFC 4880. */
module Signatures {
  import opened Text
  import opened Framing

  function Bits(n: nat): nat
  {
    if n == 0 then 0 else 1 + Bits(n / 2)
  }

  /** Big-endian, without leading zeros. */
  function BigEndian(n: nat): string
  {
    if n == 0 then "" else BigEndian(n / 256) + [(n % 256) as char]
  }

  function Value(s: string): nat
  {
    if s == "" then 0 else Value(s[..|s| - 1]) * 256 + (s[|s| - 1] as nat)
  }

  /** A two-byte bit count, of which only the low 16 bits are kept, and the bytes. */
  function Mpi(n: nat): string
  {
    [(Bits(n) / 256 % 256) as char, (Bits(n) % 256) as char] + BigEndian(n)
  }

  /** `_longToMpi` */
  method LongToMpi(value: nat) returns (r: string)
    ensures r == Mpi(value)
  {
    var bits, l := value, 0;
    while bits != 0
      invariant l + Bits(bits) == Bits(value)
    {
      bits, l := bits / 2, l + 1;
    }
    var data, buf := value, "";
    while data != 0
      invariant BigEndian(data) + buf == BigEndian(value)
    {
      assert BigEndian(data) + buf == BigEndian(data / 256) + ([(data % 256) as char] + buf);
      data, buf := data / 256, [(data % 256) as char] + buf;
    }
    r := [(l / 256 % 256) as char, (l % 256) as char] + buf;
  }

  function MpiLength(data: string): nat
    requires |data| >= 2
  {
    ((data[0] as nat) * 256 + (data[1] as nat) + 7) / 8
  }

  /** What `_mpiToLong` promises: the big-endian value of exactly as many bytes as announced. */
  function MpiValue(data: string): Result<nat>
  {
    if |data| < 2 || |data| != MpiLength(data) + 2 then Err("IndexError") else Ok(Value(data[2..]))
  }

  lemma ValueOne(s: string, i: nat)
    requires i < |s|
    ensures Value(s[..i + 1]) == Value(s[..i]) * 256 + (s[i] as nat)
  {
    assert s[..i + 1][..i] == s[..i];
  }

  lemma ValueWord(s: string, i: nat)
    requires i + 4 <= |s|
    ensures Value(s[..i + 4]) == Value(s[..i]) * 0x1_0000_0000 + Word(s[i..i + 4])
  {
    ValueOne(s, i);
    ValueOne(s, i + 1);
    ValueOne(s, i + 2);
    ValueOne(s, i + 3);
  }

  /** `struct.unpack("!I", w)` */
  function Word(w: string): nat
    requires |w| == 4
  {
    (w[0] as nat) * 0x100_0000 + (w[1] as nat) * 0x1_0000 + (w[2] as nat) * 0x100 + (w[3] as nat)
  }

  /** `_mpiToLong`: 32-bit words first, then the bytes left over. */
  method MpiToLong(data: string) returns (r: Result<nat>)
    ensures r == MpiValue(data)
  {
    if |data| < 2 {
      return Err("IndexError");
    }
    var length := ((data[0] as nat) * 256 + (data[1] as nat) + 7) / 8;
    if |data| != length + 2 {
      return Err("IndexError");
    }
    var frontSize := length - length % 4;
    var body := data[2..];
    var n := 0;
    for i := 0 to frontSize / 4
      invariant n == Value(body[..4 * i])
    {
      ValueWord(body, 4 * i);
      n := n * 0x1_0000_0000 + Word(body[4 * i..4 * i + 4]);
    }
    for i := 2 + frontSize to 2 + length
      invariant n == Value(body[..i - 2])
    {
      ValueOne(body, i - 2);
      n := n * 256 + (data[i] as nat);
    }
    assert body[..length] == body;
    r := Ok(n);
  }

  // ---------------------------------------------------------------- bits and bytes

  lemma {:induction false} ValueOfBigEndian(n: nat)
    ensures Value(BigEndian(n)) == n
  {
    if n != 0 {
      ValueOfBigEndian(n / 256);
      assert BigEndian(n)[..|BigEndian(n)| - 1] == BigEndian(n / 256);
    }
  }

  function Pow2(k: nat): nat
  {
    if k == 0 then 1 else 2 * Pow2(k - 1)
  }

  lemma {:induction false} BitsAtMost(n: nat, k: nat)
    requires n < Pow2(k)
    ensures Bits(n) <= k
  {
    if n > 0 {
      BitsAtMost(n / 2, k - 1);
    }
  }

  lemma BitsOfByte(n: nat)
    requires n < 256
    ensures Bits(n) <= 8 && (n > 0 ==> Bits(n) > 0)
  {
    assert Pow2(2) == 4 && Pow2(4) == 16 && Pow2(6) == 64 && Pow2(8) == 256;
    BitsAtMost(n, 8);
  }

  lemma BitsHalf(n: nat)
    ensures Bits(n) == if n == 0 then 0 else 1 + Bits(n / 2)
    ensures n / 2 / 2 == n / 4
  {
  }

  lemma BitsShift(n: nat)
    requires n >= 256
    ensures Bits(n) == 8 + Bits(n / 256)
  {
    assert n / 2 / 2 == n / 4 && n / 4 / 2 == n / 8 && n / 8 / 2 == n / 16 && n / 16 / 2 == n / 32;
    assert n / 32 / 2 == n / 64 && n / 64 / 2 == n / 128 && n / 128 / 2 == n / 256;
    BitsHalf(n);
    BitsHalf(n / 2);
    BitsHalf(n / 4);
    BitsHalf(n / 8);
    BitsHalf(n / 16);
    BitsHalf(n / 32);
    BitsHalf(n / 64);
    BitsHalf(n / 128);
  }

  /** The announced length is that of the bytes. */
  lemma {:induction false} BytesForBits(n: nat)
    ensures |BigEndian(n)| == (Bits(n) + 7) / 8
  {
    if n >= 256 {
      BitsShift(n);
      BytesForBits(n / 256);
    } else if n > 0 {
      BitsOfByte(n);
      assert BigEndian(n / 256) == "";
    }
  }

  /** The bit count is the least that will do. */
  lemma {:induction false} BitsAreLeast(n: nat)
    ensures n < Pow2(Bits(n)) && (n > 0 ==> Pow2(Bits(n) - 1) <= n)
  {
    if n > 1 {
      BitsAreLeast(n / 2);
    }
  }

  function Pow256(k: nat): nat
  {
    if k == 0 then 1 else 256 * Pow256(k - 1)
  }

  lemma DivideTwice(n: nat, p: nat)
    requires p > 0
    ensures n / 256 / p == n / (256 * p)
  {
    var q, r := n / 256 / p, n / 256 % p;
    assert n == (q * p + r) * 256 + n % 256;
    assert n == q * (256 * p) + (r * 256 + n % 256);
    assert r * 256 + n % 256 <= (p - 1) * 256 + 255;
    QuotientIs(n, 256 * p, q, r * 256 + n % 256);
  }

  lemma QuotientIs(n: nat, d: nat, q: nat, r: nat)
    requires n == q * d + r && r < d
    ensures n / d == q
  {
    var k := n / d - q;
    assert n == n / d * d + n % d;
    assert k * d == r - n % d;
    if k >= 1 {
      AtLeastOne(k, d);
    } else if k <= -1 {
      AtLeastOne(-k, d);
    }
  }

  lemma AtLeastOne(k: int, d: nat)
    requires k >= 1
    ensures k * d >= d
  {
  }

  lemma {:induction false} Pow256Positive(k: nat)
    ensures Pow256(k) > 0
  {
    if k > 0 {
      Pow256Positive(k - 1);
    }
  }

  /** The highest byte comes first. */
  lemma {:induction false} BigEndianAt(n: nat, i: nat)
    requires i < |BigEndian(n)|
    ensures Pow256(|BigEndian(n)| - 1 - i) > 0
    ensures BigEndian(n)[i] as nat == n / Pow256(|BigEndian(n)| - 1 - i) % 256
  {
    var k := |BigEndian(n)| - 1 - i;
    Pow256Positive(k);
    if k > 0 {
      BigEndianAt(n / 256, i);
      Pow256Positive(k - 1);
      DivideTwice(n, Pow256(k - 1));
    }
  }

  /** An integer is two bytes of its bit count, the high one first, and its bytes. */
  lemma MpiBytes(n: nat)
    requires Short(n)
    ensures (Mpi(n)[0] as nat) * 0x100 + (Mpi(n)[1] as nat) == Bits(n) && Mpi(n)[2..] == BigEndian(n)
  {
    CountThen(Bits(n), BigEndian(n));
  }

  lemma CountThen(b: nat, s: string)
    requires b < 65536
    ensures var data := [(b / 256 % 256) as char, (b % 256) as char] + s;
            (data[0] as nat) * 0x100 + (data[1] as nat) == b && data[2..] == s
  {
    LowBits(b);
  }

  // ---------------------------------------------------------------- set and get

  function Mpis(vals: seq<nat>): string
  {
    if vals == [] then "" else Mpi(vals[0]) + Mpis(vals[1..])
  }

  /** The signature stream after `set`: `chr` takes no more than 255. */
  function Frozen(vals: seq<nat>): string
    requires |vals| < 256
  {
    [|vals| as char] + Mpis(vals)
  }

  /** `set` */
  method SetValue(vals: seq<nat>) returns (r: Result<string>)
    ensures r == if |vals| < 256 then Ok(Frozen(vals)) else Err("ValueError")
  {
    var buf := "";
    for i := 0 to |vals|
      invariant buf + Mpis(vals[i..]) == Mpis(vals)
    {
      var mpi := LongToMpi(vals[i]);
      assert vals[i..][0] == vals[i] && vals[i..][1..] == vals[i + 1..];
      assert buf + (mpi + Mpis(vals[i + 1..])) == buf + mpi + Mpis(vals[i + 1..]);
      buf := buf + mpi;
    }
    assert vals[|vals|..] == [] && buf + "" == buf;
    r := if |vals| < 256 then Ok([|vals| as char] + buf) else Err("ValueError");
  }

  /** The loop of `get`. An integer that is cut off counts as 0; when even its length is, the length of
      the one before is skipped, and there has to be one before. */
  function ReadMpis(data: string, index: nat, n: nat, lengthMPI: Option<nat>, before: seq<nat>): Result<seq<nat>>
    decreases n
  {
    if n == 0 then Ok(before)
    else if index + 1 >= |data| then
      if lengthMPI.None? then Err("UnboundLocalError")
      else ReadMpis(data, index + lengthMPI.value, n - 1, lengthMPI, before + [0])
    else
      var length := MpiLength(data[index..]) + 2;
      var v := MpiValue(Cut(data[index..], length).0);
      ReadMpis(data, index + length, n - 1, Some(length), before + [if v.Ok? then v.value else 0])
  }

  function ReadAll(data: string): Result<seq<nat>>
  {
    if data == "" then Err("IndexError") else ReadMpis(data, 1, data[0] as nat, None, [])
  }

  /** `get` */
  method GetValue(data: string) returns (r: Result<seq<nat>>)
    ensures r == ReadAll(data)
  {
    if data == "" {
      return Err("IndexError");
    }
    var numMPIs := data[0] as nat;
    var index: nat := 1;
    var mpiList: seq<nat> := [];
    var lengthMPI: Option<nat> := None;
    ghost var whole := ReadAll(data);
    for i := 0 to numMPIs
      invariant whole == ReadMpis(data, index, numMPIs - i, lengthMPI, mpiList)
    {
      var mpi;
      mpi, lengthMPI := NextMpi(data, index, lengthMPI);
      if lengthMPI.None? {
        return Err("UnboundLocalError");
      }
      mpiList, index := mpiList + [mpi], index + lengthMPI.value;
    }
    r := Ok(mpiList);
  }

  /** One round: the integer, and how far to go on; None if that was never known. */
  method NextMpi(data: string, index: nat, lengthMPI: Option<nat>) returns (mpi: nat, length: Option<nat>)
    ensures index + 1 >= |data| ==> mpi == 0 && length == lengthMPI
    ensures index + 1 < |data| ==>
              && length == Some(MpiLength(data[index..]) + 2)
              && var v := MpiValue(Cut(data[index..], length.value).0);
                 mpi == if v.Ok? then v.value else 0
  {
    if index + 1 >= |data| {
      return 0, lengthMPI;
    }
    var l := ((data[index] as nat) * 256 + (data[index + 1] as nat) + 7) / 8 + 2;
    var v := MpiToLong(Cut(data[index..], l).0);
    return if v.Ok? then v.value else 0, Some(l);
  }

  /** Integers whose bit count fits its two bytes. */
  predicate Short(n: nat)
  {
    Bits(n) < 65536
  }

  lemma CutPrefix(a: string, rest: string, n: nat)
    requires n <= |a|
    ensures Cut(a + rest, n).0 == a[..n]
  {
    assert (a + rest)[..n] == a[..n];
  }

  /** What is read where a short integer was written. */
  lemma ShortRead(n: nat, rest: string)
    requires Short(n)
    ensures var data := Mpi(n) + rest;
            |data| >= 2 && MpiLength(data) + 2 == |Mpi(n)| && MpiValue(Cut(data, |Mpi(n)|).0) == Ok(n)
  {
    var data := Mpi(n) + rest;
    assert data[0] == Mpi(n)[0] && data[1] == Mpi(n)[1];
    BytesForBits(n);
    CutPrefix(Mpi(n), rest, |Mpi(n)|);
    assert Mpi(n)[..|Mpi(n)|] == Mpi(n);
    assert Mpi(n)[2..] == BigEndian(n);
    ValueOfBigEndian(n);
  }

  lemma {:induction false} PrefixIsSmaller(n: nat, l: nat)
    requires l < |BigEndian(n)|
    ensures Value(BigEndian(n)[..l]) < n
  {
    var s, t := BigEndian(n), BigEndian(n / 256);
    if l < |t| {
      PrefixIsSmaller(n / 256, l);
      assert s[..l] == t[..l];
    } else {
      assert s[..l] == t;
      ValueOfBigEndian(n / 256);
    }
  }

  /** Where a longer one was written, another one is read. */
  lemma LongMisread(n: nat, rest: string)
    requires !Short(n)
    ensures var data := Mpi(n) + rest;
            |data| >= 2 && MpiValue(Cut(data, MpiLength(data) + 2).0) != Ok(n)
  {
    var data := Mpi(n) + rest;
    assert data[0] == Mpi(n)[0] && data[1] == Mpi(n)[1];
    var l := MpiLength(data);
    LowBits(Bits(n));
    assert l == (Bits(n) % 65536 + 7) / 8;
    BytesForBits(n);
    assert l < |BigEndian(n)|;
    CutPrefix(Mpi(n), rest, l + 2);
    var piece := Mpi(n)[..l + 2];
    assert piece[2..] == BigEndian(n)[..l];
    PrefixIsSmaller(n, l);
  }

  lemma LowBits(b: nat)
    ensures b / 256 % 256 * 256 + b % 256 == b % 65536
  {
  }

  lemma {:induction false} ReadKeeps(data: string, index: nat, n: nat, lengthMPI: Option<nat>, before: seq<nat>)
    ensures var r := ReadMpis(data, index, n, lengthMPI, before); r.Ok? ==> before <= r.value
    decreases n
  {
    if n > 0 && index + 1 < |data| {
      var length := MpiLength(data[index..]) + 2;
      var v := MpiValue(Cut(data[index..], length).0);
      ReadKeeps(data, index + length, n - 1, Some(length), before + [if v.Ok? then v.value else 0]);
    } else if n > 0 && lengthMPI.Some? {
      ReadKeeps(data, index + lengthMPI.value, n - 1, lengthMPI, before + [0]);
    }
  }

  predicate AllShort(vals: seq<nat>)
  {
    vals == [] || (Short(vals[0]) && AllShort(vals[1..]))
  }

  /** A short integer is read, and reading goes on behind it. */
  lemma ReadShort(prefix: string, n: nat, rest: string, count: nat, lengthMPI: Option<nat>, before: seq<nat>)
    requires Short(n)
    ensures ReadMpis(prefix + (Mpi(n) + rest), |prefix|, count + 1, lengthMPI, before)
         == ReadMpis(prefix + Mpi(n) + rest, |prefix + Mpi(n)|, count, Some(|Mpi(n)|), before + [n])
  {
    var data := prefix + (Mpi(n) + rest);
    assert data[|prefix|..] == Mpi(n) + rest;
    assert data == prefix + Mpi(n) + rest;
    ShortRead(n, rest);
  }

  /** A longer one is misread, and stays so. */
  lemma ReadLong(prefix: string, n: nat, rest: string, count: nat, lengthMPI: Option<nat>, before: seq<nat>, after: seq<nat>)
    requires !Short(n)
    ensures ReadMpis(prefix + (Mpi(n) + rest), |prefix|, count + 1, lengthMPI, before) != Ok(before + ([n] + after))
  {
    var data := prefix + (Mpi(n) + rest);
    assert data[|prefix|..] == Mpi(n) + rest;
    LongMisread(n, rest);
    var length := MpiLength(Mpi(n) + rest) + 2;
    var v := MpiValue(Cut(Mpi(n) + rest, length).0);
    var next := before + [if v.Ok? then v.value else 0];
    ReadKeeps(data, |prefix| + length, count, Some(length), next);
    assert (before + ([n] + after))[|before|] == n && next[|before|] != n;
  }

  lemma {:induction false} ReadUndoesWrite(prefix: string, vals: seq<nat>, lengthMPI: Option<nat>, before: seq<nat>)
    ensures ReadMpis(prefix + Mpis(vals), |prefix|, |vals|, lengthMPI, before) == Ok(before + vals) <==> AllShort(vals)
    decreases |vals|
  {
    if vals == [] {
      assert before + vals == before;
    } else {
      var n, rest := vals[0], Mpis(vals[1..]);
      assert vals == [n] + vals[1..];
      if Short(n) {
        ReadShort(prefix, n, rest, |vals| - 1, lengthMPI, before);
        ReadUndoesWrite(prefix + Mpi(n), vals[1..], Some(|Mpi(n)|), before + [n]);
        assert before + [n] + vals[1..] == before + vals;
      } else {
        ReadLong(prefix, n, rest, |vals| - 1, lengthMPI, before, vals[1..]);
      }
    }
  }

  /** `get` returns what `set` was given, up to 255 integers, exactly when none of them has more than
      65535 bits. */
  lemma {:induction false} GetUndoesSet(vals: seq<nat>)
    requires |vals| < 256
    ensures ReadAll(Frozen(vals)) == Ok(vals) <==> AllShort(vals)
  {
    ReadUndoesWrite([|vals| as char], vals, None, []);
    assert [] + vals == vals;
  }

  // Data that ends too soon.

  function NoughtsAfter(vals: seq<nat>, n: nat): seq<nat>
  {
    vals + seq(n, i => 0)
  }

  lemma {:induction false} ReadPastEnd(data: string, index: nat, n: nat, length: nat, before: seq<nat>)
    requires index + 1 >= |data|
    ensures ReadMpis(data, index, n, Some(length), before) == Ok(NoughtsAfter(before, n))
    decreases n
  {
    if n == 0 {
      assert NoughtsAfter(before, 0) == before;
    } else {
      ReadPastEnd(data, index + length, n - 1, length, before + [0]);
      assert NoughtsAfter(before + [0], n - 1) == NoughtsAfter(before, n);
    }
  }

  lemma {:induction false} ReadThenNoughts(prefix: string, vals: seq<nat>, n: nat, lengthMPI: Option<nat>, before: seq<nat>)
    requires AllShort(vals) && n >= |vals| && (vals == [] ==> lengthMPI.Some?)
    ensures ReadMpis(prefix + Mpis(vals), |prefix|, n, lengthMPI, before) == Ok(NoughtsAfter(before + vals, n - |vals|))
    decreases |vals|
  {
    if vals == [] {
      assert prefix + Mpis(vals) == prefix && before + vals == before;
      ReadPastEnd(prefix, |prefix|, n, lengthMPI.value, before);
    } else {
      ReadShort(prefix, vals[0], Mpis(vals[1..]), n - 1, lengthMPI, before);
      ReadThenNoughts(prefix + Mpi(vals[0]), vals[1..], n - 1, Some(|Mpi(vals[0])|), before + [vals[0]]);
      assert before + [vals[0]] + vals[1..] == before + vals;
    }
  }

  /** If integers are missing at the end, `get` returns zeros for them; if all are, it fails. */
  lemma GetOfCutOff(vals: seq<nat>, n: nat)
    requires |vals| <= n < 256 && n > 0 && AllShort(vals)
    ensures ReadAll([n as char] + Mpis(vals)) ==
              if vals == [] then Err("UnboundLocalError") else Ok(NoughtsAfter(vals, n - |vals|))
  {
    var count := [n as char];
    StartReading(n, Mpis(vals));
    if vals == [] {
      assert count + Mpis(vals) == count;
      NothingToRead(n);
    } else {
      ReadThenNoughts(count, vals, n, None, []);
      assert [] + vals == vals;
    }
  }

  lemma StartReading(n: nat, rest: string)
    requires n < 256
    ensures ReadAll([n as char] + rest) == ReadMpis([n as char] + rest, |[n as char]|, n, None, [])
  {
  }

  lemma NothingToRead(n: nat)
    requires 0 < n < 256
    ensures ReadMpis([n as char], 1, n, None, []) == Err("UnboundLocalError")
  {
  }

  /** The number of integers comes first. */
  lemma SetBytes(vals: seq<nat>)
    requires |vals| < 256
    ensures Frozen(vals)[0] as nat == |vals| && Frozen(vals)[1..] == Mpis(vals)
  {
  }
}
