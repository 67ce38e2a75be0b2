/** Layer 2 of src/steps/step2.rs: keep the bytes whose eight bits have even parity, then pack the
    top seven bits of every eight kept bytes into seven bytes. */
module Step2 {
  import opened Bytes
  import Base85

  // ---------------------------------------------------------------------
  // Parity

  /** The number of ones in the binary numeral of x. */
  function BitCount(x: nat): nat
  {
    if x == 0 then 0 else x % 2 + BitCount(x / 2)
  }

  /** The byte has an even number of ones. */
  predicate EvenParity(b: bv8)
  {
    BitCount(b as int) % 2 == 0
  }

  /** The test `parity_is_correct` makes: the ones among bits 1 to 7 agree in parity with bit 0. */
  predicate ParityBitMatches(b: bv8)
  {
    BitCount(b as int / 2) % 2 == b as int % 2
  }

  lemma ParityBitMatchesIsEven(b: bv8)
    ensures ParityBitMatches(b) <==> EvenParity(b)
  {
    var x := b as int;
    assert BitCount(x) == x % 2 + BitCount(x / 2);
    EvenSum(x % 2, BitCount(x / 2));
  }

  lemma EvenSum(p: int, c: nat)
    requires p == 0 || p == 1
    ensures (p + c) % 2 == 0 <==> c % 2 == p
  {
  }

  lemma HalfByte(b: bv8)
    ensures (b >> 1) as int == b as int / 2
  {
  }

  lemma PowTwoStep(k: nat)
    ensures Pow(2, k + 1) == 2 * Pow(2, k)
  {
  }

  lemma HalfBelow(x: nat, q: nat)
    requires x < 2 * q
    ensures x / 2 < q
  {
  }

  /** Counting peels off the low bit, also at zero. */
  lemma BitCountHalf(x: nat)
    ensures BitCount(x) == x % 2 + BitCount(x / 2)
  {
  }

  /** `parity_is_correct`: shift the byte right seven times, counting the odd values met. The byte
      is held as its unsigned value, on which `>>= 1` is halving and `% 2` the low bit. */
  method ParityIsCorrect(byte: bv8) returns (ok: bool)
    ensures ok <==> EvenParity(byte)
  {
    var x: nat := byte as int;
    var parityOdd := x % 2 == 1;
    var oddBits := 0;
    for i := 0 to 7
      invariant x < Pow(2, 8 - i)
      invariant oddBits + BitCount(x / 2) == BitCount(byte as int / 2)
    {
      PowTwoStep(7 - i);
      HalfBelow(x, Pow(2, 7 - i));
      BitCountHalf(x / 2);
      x := x / 2;
      if x % 2 == 1 {
        oddBits := oddBits + 1;
      }
    }
    PowTwoStep(0);
    assert x / 2 == 0;
    ok := (oddBits % 2 == 1) == parityOdd;
    ParityBitMatchesIsEven(byte);
  }

  /** The unit test's three bytes pass; a single one bit does not. */
  lemma ParityExamples()
    ensures EvenParity(0xB2) && EvenParity(0x00) && EvenParity(0xFF)
    ensures !EvenParity(0x01)
  {
    ByteValues();
    CountExamples();
  }

  lemma ByteValues()
    ensures (0xB2 as bv8) as int == 178 && (0xFF as bv8) as int == 255
    ensures (0x00 as bv8) as int == 0 && (0x01 as bv8) as int == 1
  {
  }

  lemma CountExamples()
    ensures BitCount(178) == 4 && BitCount(255) == 8
    ensures BitCount(0) == 0 && BitCount(1) == 1
  {
    CountB2();
    CountFF();
    CountZero();
    CountOne();
  }

  lemma CountB2()
    ensures BitCount(178) == 4
  {
    assert BitCount(11) == 3;
    assert BitCount(89) == 4;
  }
  lemma CountFF() ensures BitCount(255) == 8
  {
    assert BitCount(3) == 2;
    assert BitCount(15) == 4;
    assert BitCount(63) == 6;
  }
  lemma CountZero() ensures BitCount(0) == 0 {}
  lemma CountOne() ensures BitCount(1) == 1 {}

  /** The `.filter(parity_is_correct)` step of `step2_extension`'s iterator chain, as a loop. */
  method KeepParityCorrect(payload: seq<bv8>) returns (good: seq<bv8>)
    ensures good == Filter(payload, EvenParity)
  {
    good := [];
    for i := 0 to |payload|
      invariant good == Filter(payload[..i], EvenParity)
    {
      var ok := ParityIsCorrect(payload[i]);
      assert payload[..i + 1] == payload[..i] + [payload[i]];
      FilterConcat(payload[..i], [payload[i]], EvenParity);
      assert Filter([payload[i]], EvenParity) == if ok then [payload[i]] else [];
      if ok {
        good := good + [payload[i]];
      }
    }
    assert payload[..|payload|] == payload;
  }

  // ---------------------------------------------------------------------
  // Repacking

  /** The eight seven-bit digits of a chunk, most significant first: `b >> 1` of each byte,
      zero where a short chunk has no byte. */
  function Sevens(chunk: seq<bv8>): (ds: seq<nat>)
    requires |chunk| <= 8
    ensures |ds| == 8 && Digits(ds, 128)
  {
    seq(8, j requires 0 <= j < 8 => if j < |chunk| then chunk[j] as int / 2 else 0)
  }

  /** The 56-bit accumulator `shifted`: digit j sits at bit offset 7 * (7 - j). */
  function PackValue(chunk: seq<bv8>): nat
    requires |chunk| <= 8
  {
    Horner(Sevens(chunk), 128)
  }

  /** The seven low bytes of `shifted.to_be_bytes()`. */
  function PackGroup(chunk: seq<bv8>): seq<bv8>
    requires |chunk| <= 8
  {
    ToBigEndian(PackValue(chunk), 7)
  }

  /** `chunks(8).flat_map(...)`. */
  function Repack(s: seq<bv8>): seq<bv8>
    decreases |s|
  {
    if s == [] then []
    else
      var k := if |s| < 8 then |s| else 8;
      PackGroup(s[..k]) + Repack(s[k..])
  }

  /** `step2_extension`. */
  function Step2Extension(payload: seq<bv8>): seq<bv8>
  {
    Repack(Filter(payload, EvenParity))
  }

  /** `run_step`: decode the Ascii85 text, then apply the layer. */
  function RunStep(payload: seq<bv8>): (r: Result<seq<bv8>, Base85.Base85Error>)
    ensures r.Ok? <==> Base85.Decoded(payload).Ok?
    ensures r.Ok? ==> r.value == Step2Extension(Base85.Decoded(payload).value)
  {
    var decoded :- Base85.Decoded(payload);
    Ok(Step2Extension(decoded))
  }

  lemma Pow56()
    ensures Pow(128, 8) == 0x100_0000_0000_0000 && Pow(256, 7) == 0x100_0000_0000_0000
  {
    assert Pow(128, 4) == 0x1000_0000;
    assert Pow(256, 3) == 0x100_0000;
  }

  /** The accumulator stays below 2^56, well inside the source's u64. */
  lemma PackValueBound(chunk: seq<bv8>)
    requires |chunk| <= 8
    ensures PackValue(chunk) < 0x100_0000_0000_0000
  {
    HornerBound(Sevens(chunk), 128);
    Pow56();
  }

  /** Hence the skipped top byte of `to_be_bytes` is zero, and dropping it leaves seven bytes
      that read back as the whole accumulator. */
  lemma PackGroupExact(chunk: seq<bv8>)
    requires |chunk| <= 8
    ensures ToBigEndian(PackValue(chunk), 8)[0] == 0
    ensures ToBigEndian(PackValue(chunk), 8)[1..] == PackGroup(chunk)
    ensures FromBigEndian(PackGroup(chunk)) == PackValue(chunk)
  {
    var v := PackValue(chunk);
    PackValueBound(chunk);
    TopByteZero(v);
    DropTopByte(v, 7);
    SevenBytesExact(v);
  }

  lemma TopByteZero(v: nat)
    requires v < 0x100_0000_0000_0000
    ensures ToBigEndian(v, 8)[0] == 0
  {
    Pow56();
    ToBigEndianByte(v, 8, 0);
    assert v / Pow(256, 7) == 0;
    assert ByteOf(0) == 0;
  }

  lemma SevenBytesExact(v: nat)
    requires v < 0x100_0000_0000_0000
    ensures FromBigEndian(ToBigEndian(v, 7)) == v
  {
    Pow56();
    FromToBigEndian(v, 7);
    DivModUnique(v, Pow(256, 7), 0, v);
  }

  /** Every kept byte's seven data bits come back out of the packed group at their place;
      the places a short final chunk has no byte for hold zero. */
  lemma PackGroupDigits(chunk: seq<bv8>, j: nat)
    requires |chunk| <= 8 && j < 8
    ensures (FromBigEndian(PackGroup(chunk)) / Pow(128, 7 - j)) % 128
            == if j < |chunk| then chunk[j] as int / 2 else 0
  {
    PackGroupExact(chunk);
    HornerDigit(Sevens(chunk), 128, j);
  }

  /** Every chunk of up to eight bytes yields seven: m kept bytes give 7 * ceil(m / 8). */
  lemma {:induction false} RepackLength(s: seq<bv8>)
    ensures |Repack(s)| == 7 * ((|s| + 7) / 8)
    decreases |s|
  {
    if s != [] {
      var k := if |s| < 8 then |s| else 8;
      RepackLength(s[k..]);
      CeilEighth(|s|, k);
    }
  }

  lemma CeilEighth(n: nat, k: nat)
    requires 0 < k <= 8 && k <= n && (k == 8 || k == n)
    ensures (n + 7) / 8 == 1 + (n - k + 7) / 8
  {
  }

  /** Sums of digits past the end of a short chunk add nothing. */
  lemma {:induction false} PowerSumZeros(ds: seq<nat>, b: nat, i: nat, n: nat)
    requires i <= n <= |ds|
    requires forall j :: i <= j < |ds| ==> ds[j] == 0
    ensures PowerSum(ds, b, n) == PowerSum(ds, b, i)
    decreases n
  {
    if n > i {
      PowerSumZeros(ds, b, i, n - 1);
    }
  }

  /** The per-chunk loop: accumulate `(byte >> 1) << (7 * (7 - index))`, then keep the low seven
      of the eight big-endian bytes. */
  method PackChunk(chunk: seq<bv8>) returns (ret: seq<bv8>)
    requires |chunk| <= 8
    ensures ret == PackGroup(chunk)
  {
    ghost var ds := Sevens(chunk);
    var shifted := 0;
    for index := 0 to |chunk|
      invariant shifted == PowerSum(ds, 128, index)
    {
      HalfByte(chunk[index]);
      shifted := shifted + (chunk[index] >> 1) as int * Pow(128, 7 - index);
    }
    PowerSumZeros(ds, 128, |chunk|, 8);
    PowerSumIsHorner(ds, 128);
    var bytes := ToBigEndian(shifted, 8);
    PackGroupExact(chunk);
    ret := bytes[1..];
  }

  /** `step2_extension` as the source runs it: the filter loop, then the `chunks(8)` loop. */
  method Step2Loop(payload: seq<bv8>) returns (out: seq<bv8>)
    ensures out == Step2Extension(payload)
  {
    var good := KeepParityCorrect(payload);
    out := RepackLoop(good);
  }

  /** The `chunks(8).flat_map(...)` loop over `PackChunk`. */
  method RepackLoop(good: seq<bv8>) returns (out: seq<bv8>)
    ensures out == Repack(good)
  {
    out := [];
    var i := 0;
    assert good[0..] == good;
    while i < |good|
      invariant 0 <= i <= |good|
      invariant out + Repack(good[i..]) == Repack(good)
      decreases |good| - i
    {
      var k := if |good| - i < 8 then |good| - i else 8;
      var group := PackChunk(good[i..i + k]);
      RepackAt(good, i, k, out, Repack(good));
      out := out + group;
      i := i + k;
    }
    assert good[i..] == [];
    assert out + [] == out;
  }

  /** One chunk of the loop: up to eight kept bytes, then the rest. */
  lemma RepackAt(s: seq<bv8>, i: nat, k: nat, done: seq<bv8>, whole: seq<bv8>)
    requires i < |s| && k == (if |s| - i < 8 then |s| - i else 8)
    requires done + Repack(s[i..]) == whole
    ensures (done + PackGroup(s[i..i + k])) + Repack(s[i + k..]) == whole
  {
    var t := s[i..];
    assert t[..k] == s[i..i + k];
    assert t[k..] == s[i + k..];
    var g, rest := PackGroup(s[i..i + k]), Repack(s[i + k..]);
    assert Repack(t) == g + rest;
    assert done + (g + rest) == (done + g) + rest;
  }

  // ---------------------------------------------------------------------
  // The encoder the layer undoes

  /** A seven-bit value as a byte: the value in the top seven bits, the parity bit below. */
  function WithParity(d: nat): (b: bv8)
    requires d < 128
  {
    ByteOf(d * 2 + BitCount(d) % 2)
  }

  /** Spreading seven bytes back over eight, one seven-bit digit each. */
  function Spread(g: seq<bv8>): (out: seq<bv8>)
    requires |g| == 7
    ensures |out| == 8
  {
    var ds := ToDigits(FromBigEndian(g), 8, 128);
    seq(8, j requires 0 <= j < 8 => WithParity(ds[j]))
  }

  lemma WithParityBits(d: nat)
    requires d < 128
    ensures EvenParity(WithParity(d)) && WithParity(d) as int / 2 == d
  {
    var c := BitCount(d);
    var p := c % 2;
    HalveOdd(d, p);
    assert WithParity(d) as int == d * 2 + p;
    CountShifted(d, p);
    EvenSum(p, c);
    EvenParityOf(WithParity(d), d * 2 + p);
  }

  lemma EvenParityOf(b: bv8, n: nat)
    requires b as int == n && BitCount(n) % 2 == 0
    ensures EvenParity(b)
  {
  }

  /** Shifting in one more low bit adds that bit to the count. */
  lemma CountShifted(d: nat, p: nat)
    requires p < 2
    ensures BitCount(d * 2 + p) == p + BitCount(d)
  {
    HalveOdd(d, p);
  }

  lemma HalveOdd(d: nat, p: nat)
    requires p < 2
    ensures (d * 2 + p) % 2 == p && (d * 2 + p) / 2 == d
  {
  }

  /** The spread bytes all pass the parity filter. */
  lemma SpreadKept(g: seq<bv8>)
    requires |g| == 7
    ensures Filter(Spread(g), EvenParity) == Spread(g)
  {
    var ds := ToDigits(FromBigEndian(g), 8, 128);
    forall j | 0 <= j < 8 ensures EvenParity(Spread(g)[j]) {
      WithParityBits(ds[j]);
    }
    FilterAll(Spread(g), EvenParity);
  }

  lemma {:induction false} FilterAll<T>(s: seq<T>, keep: T -> bool)
    requires forall i :: 0 <= i < |s| ==> keep(s[i])
    ensures Filter(s, keep) == s
  {
    if s != [] {
      FilterAll(s[1..], keep);
    }
  }

  /** Packing undoes spreading: seven bytes come back unchanged. */
  lemma SpreadThenPack(g: seq<bv8>)
    requires |g| == 7
    ensures PackGroup(Spread(g)) == g
  {
    var x := FromBigEndian(g);
    var ds := ToDigits(x, 8, 128);
    forall j | 0 <= j < 8 ensures Sevens(Spread(g))[j] == ds[j] {
      WithParityBits(ds[j]);
    }
    assert Sevens(Spread(g)) == ds;
    SpreadValue(g);
    ToFromBigEndian(g);
  }

  lemma SpreadValue(g: seq<bv8>)
    requires |g| == 7
    ensures Horner(ToDigits(FromBigEndian(g), 8, 128), 128) == FromBigEndian(g)
  {
    var x := FromBigEndian(g);
    var m := Pow(128, 8);
    HornerToDigits(x, 8, 128);
    Pow56();
    assert x < m;
    DivModUnique(x, m, 0, x);
  }

  /** The whole encoder: every seven bytes of data spread over eight parity-carrying bytes. */
  function ParityEncode(data: seq<bv8>): (out: seq<bv8>)
    requires |data| % 7 == 0
    ensures |out| == |data| / 7 * 8
    decreases |data|
  {
    if data == [] then [] else Spread(data[..7]) + ParityEncode(data[7..])
  }

  /** Every byte of an encoded stream passes the parity filter. */
  lemma {:induction false} EncodedKept(data: seq<bv8>)
    requires |data| % 7 == 0
    ensures Filter(ParityEncode(data), EvenParity) == ParityEncode(data)
    decreases |data|
  {
    if data != [] {
      FilterConcat(Spread(data[..7]), ParityEncode(data[7..]), EvenParity);
      SpreadKept(data[..7]);
      EncodedKept(data[7..]);
    }
  }

  /** Repacking an encoded stream gives back the data, seven bytes per chunk of eight. */
  lemma {:induction false} RepackEncoded(data: seq<bv8>)
    requires |data| % 7 == 0
    ensures Repack(ParityEncode(data)) == data
    decreases |data|
  {
    if data != [] {
      var g, rest := data[..7], ParityEncode(data[7..]);
      RepackHead(Spread(g), rest);
      SpreadThenPack(g);
      RepackEncoded(data[7..]);
      assert data == g + data[7..];
    }
  }

  lemma RepackHead(a: seq<bv8>, rest: seq<bv8>)
    requires |a| == 8
    ensures Repack(a + rest) == PackGroup(a) + Repack(rest)
  {
    var s := a + rest;
    assert s[..8] == a && s[8..] == rest;
  }

  /** `step2_extension` inverts the encoder on every whole number of seven-byte groups. */
  lemma Step2Decodes(data: seq<bv8>)
    requires |data| % 7 == 0
    ensures Step2Extension(ParityEncode(data)) == data
  {
    EncodedKept(data);
    RepackEncoded(data);
  }
}
