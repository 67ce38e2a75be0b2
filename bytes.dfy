/** Byte-level vocabulary shared by every layer of the onion: unsigned integer
    ranges, a failure-compatible Result, positional numerals (the powers and
    sums behind base-85 groups, 7-bit repacking and big-endian integers),
    big- and little-endian byte codecs, and an order-preserving filter. */
module Bytes {

  type u16 = x: int | 0 <= x < 0x1_0000
  type u32 = x: int | 0 <= x < 0x1_0000_0000

  datatype Option<+T> = None | Some(value: T)

  datatype Result<+T, +E> = Ok(value: T) | Err(error: E) {
    predicate IsFailure() { Err? }
    function PropagateFailure<U>(): Result<U, E> requires Err? { Err(error) }
    function Extract(): T requires Ok? { value }
  }

  /** Unsigned 32-bit wrap-around of an integer result. */
  function Wrap32(x: int): u32 { x % 0x1_0000_0000 }

  /** The byte whose unsigned value is n (`n as u8` for n in range), counted up from zero. */
  function ByteOf(n: int): (b: bv8)
    requires 0 <= n < 256
    ensures b as int == n
  {
    if n == 0 then 0 else ByteOf(n - 1) + 1
  }

  // ---------------------------------------------------------------------
  // Integer facts used by the codecs

  function Pow(b: nat, n: nat): (r: nat)
    ensures b > 0 ==> r > 0
  {
    if n == 0 then 1 else b * Pow(b, n - 1)
  }

  lemma PowWord()
    ensures Pow(256, 4) == 0x1_0000_0000
  {
    assert Pow(256, 1) == 256;
    assert Pow(256, 2) == 0x1_0000;
    assert Pow(256, 3) == 0x100_0000;
  }

  lemma {:induction false} PowAdd(b: nat, m: nat, n: nat)
    ensures Pow(b, m + n) == Pow(b, m) * Pow(b, n)
  {
    if n > 0 {
      PowAdd(b, m, n - 1);
      var p, q := Pow(b, m), Pow(b, n - 1);
      assert Pow(b, m + n) == b * Pow(b, m + n - 1);
      assert Pow(b, n) == b * q;
      MulRotate(b, p, q);
    }
  }

  lemma MulRotate(b: int, p: int, q: int)
    ensures b * (p * q) == p * (b * q)
  {
  }

  lemma MulDistribute(h: int, p: int, i: int, b: int)
    ensures (h * p + i) * b == h * (b * p) + i * b
  {
  }

  lemma MulNonZero(m: int, k: int)
    requires m > 0 && -m < m * k < m
    ensures k == 0
  {
  }

  lemma MulAssocAdd(a: int, b: int, c: int, d: int, t: int)
    ensures a * (b * c + d) + t == (a * b) * c + (a * d + t)
  {
  }

  lemma MulBelow(a: int, d: int, b: int)
    requires a > 0 && 0 <= d < b
    ensures 0 <= a * d <= a * b - a
  {
    var e := b - 1 - d;
    assert a * b - a - a * d == a * e;
    assert a * e >= 0;
  }

  /** Quotient and remainder are determined by any decomposition x == m * q + t with 0 <= t < m. */
  lemma DivModUnique(x: int, m: int, q: int, t: int)
    requires m > 0 && x == m * q + t && 0 <= t < m
    ensures x / m == q && x % m == t
  {
    var q', t' := x / m, x % m;
    assert m * (q - q') == t' - t by {
      assert x == m * q' + t';
    }
    MulNonZero(m, q - q');
  }

  /** Taking the low digit off and then reducing modulo b reduces modulo a * b. */
  lemma DivMod(x: nat, a: nat, b: nat)
    requires a > 0 && b > 0
    ensures (x / a) % b * a + x % a == x % (a * b)
    ensures (x / a) / b == x / (a * b)
  {
    var q, t := x / a, x % a;
    var c, d := q / b, q % b;
    var m := a * b;
    assert x == a * q + t;
    assert q == b * c + d;
    MulAssocAdd(a, b, c, d, t);
    MulBelow(a, d, b);
    DivModUnique(x, m, c, a * d + t);
  }

  // ---------------------------------------------------------------------
  // Positional numerals, most significant digit first

  /** The value of ds read as a base-b numeral, most significant digit first. */
  function Horner(ds: seq<nat>, b: nat): nat
  {
    if ds == [] then 0 else Horner(ds[..|ds| - 1], b) * b + ds[|ds| - 1]
  }

  /** The sum over j < i of ds[j] * b^(|ds| - 1 - j): the first i terms of the numeral's expansion by powers. */
  function PowerSum(ds: seq<nat>, b: nat, i: nat): nat
    requires i <= |ds|
  {
    if i == 0 then 0 else PowerSum(ds, b, i - 1) + ds[i - 1] * Pow(b, |ds| - i)
  }

  predicate Digits(ds: seq<nat>, b: nat)
  {
    forall i :: 0 <= i < |ds| ==> ds[i] < b
  }

  /** Appending a digit multiplies the expansion by powers by the base. */
  lemma {:induction false} PowerSumAppend(ds: seq<nat>, d: nat, b: nat, i: nat)
    requires i <= |ds|
    ensures PowerSum(ds + [d], b, i) == b * PowerSum(ds, b, i)
  {
    if i > 0 {
      PowerSumAppend(ds, d, b, i - 1);
      var e := ds + [d];
      assert e[i - 1] == ds[i - 1];
      var x, y, p := PowerSum(ds, b, i - 1), ds[i - 1], Pow(b, |ds| - i);
      assert Pow(b, |e| - i) == b * p;
      MulFactor(b, x, y, p);
    }
  }

  lemma MulFactor(b: int, x: int, y: int, p: int)
    ensures b * x + y * (b * p) == b * (x + y * p)
  {
  }

  /** The expansion by powers, as the source computes it, is the numeral's Horner value. */
  lemma {:induction false} PowerSumIsHorner(ds: seq<nat>, b: nat)
    ensures PowerSum(ds, b, |ds|) == Horner(ds, b)
  {
    if ds != [] {
      var init, last := ds[..|ds| - 1], ds[|ds| - 1];
      assert ds == init + [last];
      PowerSumIsHorner(init, b);
      PowerSumAppend(init, last, b, |init|);
      assert PowerSum(ds, b, |ds|) == PowerSum(ds, b, |init|) + last * Pow(b, 0);
    }
  }

  lemma MulBound(h: int, p: int, l: int, b: int)
    requires 0 <= h < p && 0 <= l < b
    ensures h * b + l < b * p
  {
    assert h * b <= (p - 1) * b;
  }

  lemma {:induction false} HornerBound(ds: seq<nat>, b: nat)
    requires b > 0 && Digits(ds, b)
    ensures Horner(ds, b) < Pow(b, |ds|)
  {
    if ds != [] {
      var init := ds[..|ds| - 1];
      HornerBound(init, b);
      MulBound(Horner(init, b), Pow(b, |init|), ds[|ds| - 1], b);
    }
  }

  lemma {:induction false} HornerConcat(xs: seq<nat>, ys: seq<nat>, b: nat)
    ensures Horner(xs + ys, b) == Horner(xs, b) * Pow(b, |ys|) + Horner(ys, b)
  {
    if ys != [] {
      var init, last := ys[..|ys| - 1], ys[|ys| - 1];
      assert (xs + ys)[..|xs + ys| - 1] == xs + init;
      HornerConcat(xs, init, b);
      var h, p, i := Horner(xs, b), Pow(b, |init|), Horner(init, b);
      assert Horner(xs + ys, b) == (h * p + i) * b + last;
      MulDistribute(h, p, i, b);
    } else {
      assert xs + ys == xs;
    }
  }

  /** Digit i of a numeral is recovered by dividing by the weight of its position and reducing modulo the base. */
  lemma HornerDigit(ds: seq<nat>, b: nat, i: nat)
    requires b > 0 && Digits(ds, b) && i < |ds|
    ensures (Horner(ds, b) / Pow(b, |ds| - 1 - i)) % b == ds[i]
  {
    var hi, lo := ds[..i + 1], ds[i + 1..];
    assert ds == hi + lo;
    HornerConcat(hi, lo, b);
    HornerBound(lo, b);
    assert hi[..|hi| - 1] == ds[..i];
    DigitOfSplit(Horner(ds, b), Horner(hi, b), Pow(b, |lo|), Horner(lo, b), Horner(ds[..i], b), ds[i], b);
  }

  /** If x == (h * b + g) * p + l with l < p and g < b, then g is digit (x / p) % b. */
  lemma DigitOfSplit(x: int, hg: int, p: int, l: int, h: int, g: int, b: int)
    requires p > 0 && b > 0 && x == hg * p + l && 0 <= l < p && hg == h * b + g && 0 <= g < b
    ensures (x / p) % b == g
  {
    DivModUnique(x, p, hg, l);
    DivModUnique(hg, b, h, g);
  }

  /** The low n base-b digits of x, most significant first. */
  function ToDigits(x: nat, n: nat, b: nat): (ds: seq<nat>)
    requires b > 0
    ensures |ds| == n && Digits(ds, b)
    decreases n
  {
    if n == 0 then [] else ModBelow(x, b); ToDigits(x / b, n - 1, b) + [x % b]
  }

  lemma ModBelow(x: nat, b: nat)
    requires b > 0
    ensures 0 <= x % b < b
  {
  }

  /** Reading the low n digits of x back gives x modulo b^n. */
  lemma {:induction false} HornerToDigits(x: nat, n: nat, b: nat)
    requires b > 0
    ensures Horner(ToDigits(x, n, b), b) == x % Pow(b, n)
    decreases n
  {
    if n > 0 {
      var ds := ToDigits(x, n, b);
      assert ds[..n - 1] == ToDigits(x / b, n - 1, b);
      HornerToDigits(x / b, n - 1, b);
      var p := Pow(b, n - 1);
      DivMod(x, b, p);
      assert Horner(ds, b) == ((x / b) % p) * b + x % b;
      assert Pow(b, n) == b * p;
    }
  }

  /** Ok(prefix + v) for Ok(v); an error passes through. */
  function Prepend<E>(prefix: seq<bv8>, r: Result<seq<bv8>, E>): Result<seq<bv8>, E>
  {
    match r
    case Ok(v) => Ok(prefix + v)
    case Err(e) => Err(e)
  }

  lemma PrependEmpty<E>(r: Result<seq<bv8>, E>)
    ensures Prepend([], r) == r
  {
    if r.Ok? {
      assert [] + r.value == r.value;
    }
  }

  lemma PrependTwice<E>(a: seq<bv8>, b: seq<bv8>, r: Result<seq<bv8>, E>)
    ensures Prepend(a, Prepend(b, r)) == Prepend(a + b, r)
  {
    if r.Ok? {
      assert a + (b + r.value) == (a + b) + r.value;
    }
  }

  // ---------------------------------------------------------------------
  // Big- and little-endian integers

  /** Unsigned value of s read most significant byte first (`from_be_bytes`). */
  function FromBigEndian(s: seq<bv8>): (r: nat)
    ensures r < Pow(256, |s|)
  {
    if s == [] then 0 else FromBigEndian(s[..|s| - 1]) * 256 + s[|s| - 1] as int
  }

  /** The low 8 * n bits of x as n bytes, most significant first (`to_be_bytes`). */
  function ToBigEndian(x: nat, n: nat): (r: seq<bv8>)
    ensures |r| == n
  {
    if n == 0 then [] else ToBigEndian(x / 256, n - 1) + [ByteOf(x % 256)]
  }

  lemma {:induction false} FromToBigEndian(x: nat, n: nat)
    ensures FromBigEndian(ToBigEndian(x, n)) == x % Pow(256, n)
  {
    if n > 0 {
      var s := ToBigEndian(x, n);
      assert s[..n - 1] == ToBigEndian(x / 256, n - 1);
      FromToBigEndian(x / 256, n - 1);
      DivMod(x, 256, Pow(256, n - 1));
    }
  }

  lemma {:induction false} ToFromBigEndian(s: seq<bv8>)
    ensures ToBigEndian(FromBigEndian(s), |s|) == s
  {
    if s != [] {
      var init, last := s[..|s| - 1], s[|s| - 1];
      var h := FromBigEndian(init);
      assert FromBigEndian(s) == h * 256 + last as int;
      ToBigEndianPush(h, last, |init|);
      ToFromBigEndian(init);
      assert ToBigEndian(h, |init|) == init;
      assert s == init + [last];
    }
  }

  /** Appending the byte last to the digits of h gives the digits of h * 256 + last. */
  lemma ToBigEndianPush(h: nat, last: bv8, n: nat)
    ensures ToBigEndian(h * 256 + last as int, n + 1) == ToBigEndian(h, n) + [last]
  {
    var x := h * 256 + last as int;
    DivModUnique(x, 256, h, last as int);
    ByteOfValue(last);
  }

  lemma ByteOfValue(b: bv8)
    ensures ByteOf(b as int) == b
  {
  }

  /** Byte k of ToBigEndian(x, n) is digit n - 1 - k of x in base 256. */
  lemma {:induction false} ToBigEndianByte(x: nat, n: nat, k: nat)
    requires k < n
    ensures ToBigEndian(x, n)[k] == ByteOf((x / Pow(256, n - 1 - k)) % 256)
  {
    if k < n - 1 {
      ToBigEndianByte(x / 256, n - 1, k);
      var p := Pow(256, n - 2 - k);
      DivMod(x, 256, p);
      assert Pow(256, n - 1 - k) == 256 * p;
      assert x / Pow(256, n - 1 - k) == (x / 256) / p;
      assert ToBigEndian(x, n) == ToBigEndian(x / 256, n - 1) + [ByteOf(x % 256)];
      assert ToBigEndian(x, n)[k] == ToBigEndian(x / 256, n - 1)[k];
    } else {
      assert Pow(256, n - 1 - k) == 1;
      assert ToBigEndian(x, n) == ToBigEndian(x / 256, n - 1) + [ByteOf(x % 256)];
    }
  }

  /** Dropping the most significant byte leaves the low n bytes. */
  lemma {:induction false} DropTopByte(x: nat, n: nat)
    ensures ToBigEndian(x, n + 1)[1..] == ToBigEndian(x, n)
  {
    if n > 0 {
      DropTopByte(x / 256, n - 1);
      assert ToBigEndian(x, n + 1) == ToBigEndian(x / 256, n) + [ByteOf(x % 256)];
      assert (ToBigEndian(x / 256, n) + [ByteOf(x % 256)])[1..] == ToBigEndian(x / 256, n)[1..] + [ByteOf(x % 256)];
    }
  }

  /** u16::from_be_bytes. */
  function BE16(s: seq<bv8>): (r: u16)
    requires |s| == 2
    ensures r == FromBigEndian(s)
  {
    assert s[..1][..0] == [];
    s[0] as int * 256 + s[1] as int
  }

  /** Unsigned value of s read least significant byte first (`from_le_bytes`). */
  function FromLittleEndian(s: seq<bv8>): (r: nat)
    ensures r < Pow(256, |s|)
  {
    if s == [] then 0 else s[0] as int + 256 * FromLittleEndian(s[1..])
  }

  /** The low 8 * n bits of x as n bytes, least significant first (`to_le_bytes`). */
  function ToLittleEndian(x: nat, n: nat): (r: seq<bv8>)
    ensures |r| == n
  {
    if n == 0 then [] else [ByteOf(x % 256)] + ToLittleEndian(x / 256, n - 1)
  }

  lemma {:induction false} FromToLittleEndian(x: nat, n: nat)
    ensures FromLittleEndian(ToLittleEndian(x, n)) == x % Pow(256, n)
  {
    if n > 0 {
      var s := ToLittleEndian(x, n);
      assert s[1..] == ToLittleEndian(x / 256, n - 1);
      FromToLittleEndian(x / 256, n - 1);
      DivMod(x, 256, Pow(256, n - 1));
    }
  }

  /** u32::from_le_bytes. */
  function LE32(s: seq<bv8>): (r: u32)
    requires |s| == 4
    ensures r == FromLittleEndian(s)
  {
    var x3 := s[3] as int;
    assert FromLittleEndian(s[3..]) == x3 by { assert s[3..][1..] == []; }
    assert FromLittleEndian(s[2..]) == s[2] as int + 256 * x3 by { assert s[2..][1..] == s[3..]; }
    assert FromLittleEndian(s[1..]) == s[1] as int + 256 * (s[2] as int + 256 * x3) by { assert s[1..][1..] == s[2..]; }
    s[0] as int + 256 * (s[1] as int + 256 * (s[2] as int + 256 * x3))
  }

  // ---------------------------------------------------------------------
  // Order-preserving filter (`Iterator::filter`, `Vec::retain`)

  /** The elements of s for which keep holds, in their original order. */
  function Filter<T>(s: seq<T>, keep: T -> bool): (r: seq<T>)
    ensures |r| <= |s|
    ensures forall i :: 0 <= i < |r| ==> r[i] in s && keep(r[i])
    ensures forall i :: 0 <= i < |s| && keep(s[i]) ==> s[i] in r
  {
    if s == [] then [] else (if keep(s[0]) then [s[0]] else []) + Filter(s[1..], keep)
  }

  /** Filtering distributes over concatenation: each element is kept or dropped on its own, and order is kept. */
  lemma {:induction false} FilterConcat<T>(a: seq<T>, b: seq<T>, keep: T -> bool)
    ensures Filter(a + b, keep) == Filter(a, keep) + Filter(b, keep)
  {
    if a != [] {
      assert (a + b)[1..] == a[1..] + b;
      FilterConcat(a[1..], b, keep);
    } else {
      assert a + b == b;
    }
  }
}
