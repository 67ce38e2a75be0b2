/** The Ascii85-style decoder of src/base85.rs, taken literally: the text between the
    first `<~` and the first `~>` after it (the `~>` itself included) loses its
    whitespace and is cut into groups of up to five characters; every group, short
    or not, becomes four bytes. There is no `z` or `u` shorthand. */
module Base85 {
  import opened Bytes

  /** The source's panics. */
  datatype Base85Error =
    | NoStart          // no `<~` anywhere
    | NoEnd            // no `~>` at or after the first position past `<~`
    | BelowBang(c: bv8) // a character below '!' (33), where `byte - 33u8` underflows

  const Lt: bv8 := 0x3C
  const Tilde: bv8 := 0x7E
  const Gt: bv8 := 0x3E

  // ---------------------------------------------------------------------
  // Delimiters

  /** The window s[i], s[i + 1] reads a, b. */
  predicate PairAt(s: seq<bv8>, i: nat, a: bv8, b: bv8)
  {
    i + 1 < |s| && s[i] == a && s[i + 1] == b
  }

  /** The first window s[i], s[i + 1] at or after from that reads a, b. */
  function FindPair(s: seq<bv8>, a: bv8, b: bv8, from: nat): (r: Option<nat>)
    decreases |s| - from
    ensures r.Some? ==> from <= r.value && PairAt(s, r.value, a, b)
    ensures r.Some? ==> forall i :: from <= i < r.value ==> !PairAt(s, i, a, b)
    ensures r.None? ==> forall i :: from <= i ==> !PairAt(s, i, a, b)
  {
    if from + 1 >= |s| then None
    else if s[from] == a && s[from + 1] == b then Some(from)
    else FindPair(s, a, b, from + 1)
  }

  /** `trim_delimiter`: from just after the first `<~` through the end of the first `~>`
      found from there on. */
  function Trim(payload: seq<bv8>): Result<seq<bv8>, Base85Error>
  {
    match FindPair(payload, Lt, Tilde, 0)
    case None => Err(NoStart)
    case Some(i) =>
      match FindPair(payload, Tilde, Gt, i + 2)
      case None => Err(NoEnd)
      case Some(j) => Ok(payload[i + 2..j + 2])
  }

  /** No window of s reads a, b. */
  predicate PairFree(s: seq<bv8>, a: bv8, b: bv8)
  {
    forall i :: 0 <= i < |s| ==> !PairAt(s, i, a, b)
  }

  /** A window that lies inside a part of a concatenation reads the same there. */
  lemma PairAtShift(s: seq<bv8>, t: seq<bv8>, off: nat, i: nat, a: bv8, b: bv8)
    requires off + |t| <= |s| && s[off..off + |t|] == t
    requires i + 1 < |t|
    ensures PairAt(s, off + i, a, b) == PairAt(t, i, a, b)
  {
    assert s[off + i] == t[i] && s[off + i + 1] == t[i + 1];
  }

  /** The trimmed text of prefix `<~` body `~>` rest is body `~>`, when `<~` does not occur in
      prefix and `~>` does not occur in body. */
  lemma TrimFramed(prefix: seq<bv8>, body: seq<bv8>, rest: seq<bv8>)
    requires PairFree(prefix, Lt, Tilde) && PairFree(body, Tilde, Gt)
    ensures Trim(prefix + [Lt, Tilde] + body + [Tilde, Gt] + rest) == Ok(body + [Tilde, Gt])
  {
    var p := prefix + [Lt, Tilde] + body + [Tilde, Gt] + rest;
    var i, j := |prefix|, |prefix| + 2 + |body|;
    assert p[..i] == prefix;
    assert p[i + 2..j] == body;
    assert PairAt(p, i, Lt, Tilde);
    forall k | 0 <= k < i ensures !PairAt(p, k, Lt, Tilde) {
      if k + 1 < i {
        PairAtShift(p, prefix, 0, k, Lt, Tilde);
      } else {
        assert p[k + 1] == Lt;
      }
    }
    assert FindPair(p, Lt, Tilde, 0) == Some(i);
    assert PairAt(p, j, Tilde, Gt);
    forall k | i + 2 <= k < j ensures !PairAt(p, k, Tilde, Gt) {
      if k + 1 < j {
        PairAtShift(p, body, i + 2, k - i - 2, Tilde, Gt);
      } else {
        assert p[k + 1] == Tilde;
      }
    }
    assert FindPair(p, Tilde, Gt, i + 2) == Some(j);
    assert p[i + 2..j + 2] == body + [Tilde, Gt];
  }

  /** `trim_delimiter` fails for want of a start exactly when `<~` occurs nowhere. */
  lemma TrimNoStart(payload: seq<bv8>)
    ensures Trim(payload) == Err(NoStart) <==> PairFree(payload, Lt, Tilde)
  {
    if !PairFree(payload, Lt, Tilde) {
      var i :| 0 <= i < |payload| && PairAt(payload, i, Lt, Tilde);
    }
  }

  /** It fails for want of an end exactly when `~>` occurs nowhere after the first `<~`. */
  lemma TrimNoEnd(payload: seq<bv8>)
    ensures Trim(payload) == Err(NoEnd) <==>
      var start := FindPair(payload, Lt, Tilde, 0);
      start.Some? && PairFree(payload[start.value + 2..], Tilde, Gt)
  {
    var start := FindPair(payload, Lt, Tilde, 0);
    if start.Some? {
      var i := start.value;
      var tail := payload[i + 2..];
      var r := FindPair(payload, Tilde, Gt, i + 2);
      if r.None? {
        forall k | 0 <= k < |tail| ensures !PairAt(tail, k, Tilde, Gt) {
          if k + 1 < |tail| {
            PairAtShift(payload, tail, i + 2, k, Tilde, Gt);
          }
        }
      } else {
        PairAtShift(payload, tail, i + 2, r.value - i - 2, Tilde, Gt);
      }
    }
  }

  /** On success the text ends with the closing `~>`, which occurs nowhere earlier in it. */
  lemma TrimEndsAtClose(payload: seq<bv8>)
    requires Trim(payload).Ok?
    ensures var t := Trim(payload).value;
      |t| >= 2 && t[|t| - 2..] == [Tilde, Gt] && PairFree(t[..|t| - 1], Tilde, Gt)
  {
    var i := FindPair(payload, Lt, Tilde, 0).value;
    var j := FindPair(payload, Tilde, Gt, i + 2).value;
    var t := payload[i + 2..j + 2];
    assert Trim(payload).value == t;
    assert PairAt(payload, j, Tilde, Gt);
    assert t[|t| - 2..] == [Tilde, Gt] by {
      assert t[|t| - 2] == payload[j] && t[|t| - 1] == payload[j + 1];
    }
    assert t[..|t| - 1] == payload[i + 2..j + 1];
    ClosedSpan(payload, i + 2, j);
  }

  /** A span free of `~>` windows before position j stays free of them once cut out. */
  lemma ClosedSpan(s: seq<bv8>, from: nat, j: nat)
    requires from <= j && j + 1 < |s|
    requires forall m :: from <= m < j ==> !PairAt(s, m, Tilde, Gt)
    ensures PairFree(s[from..j + 1], Tilde, Gt)
  {
    var u := s[from..j + 1];
    forall k | 0 <= k < |u| ensures !PairAt(u, k, Tilde, Gt) {
      if k + 1 < |u| {
        PairAtShift(s, u, from, k, Tilde, Gt);
        assert from + k < j;
      }
    }
  }

  /** `ret.retain(|x| !u8::is_ascii_whitespace(x))`: space, tab, line feed, form feed, carriage return. */
  predicate IsAsciiWhitespace(c: bv8)
  {
    c == 0x20 || c == 0x09 || c == 0x0A || c == 0x0C || c == 0x0D
  }

  function StripWhitespace(t: seq<bv8>): seq<bv8>
  {
    Filter(t, c => !IsAsciiWhitespace(c))
  }

  // ---------------------------------------------------------------------
  // Groups

  predicate AllPrintable(g: seq<bv8>)
  {
    forall i :: 0 <= i < |g| ==> g[i] as int >= 33
  }

  /** The first character of g below '!', the one whose subtraction underflows first. */
  function FirstBelow(g: seq<bv8>): (r: Option<bv8>)
    ensures r.None? <==> AllPrintable(g)
    ensures r.Some? ==> (r.value as int) < 33 && r.value in g
  {
    if g == [] then None
    else if (g[0] as int) < 33 then Some(g[0])
    else FirstBelow(g[1..])
  }

  /** The base-85 digits `byte - 33` of a group (0 for a character that is rejected anyway). */
  function Digits85(g: seq<bv8>): seq<nat>
  {
    seq(|g|, i requires 0 <= i < |g| => if g[i] as int >= 33 then g[i] as int - 33 else 0)
  }

  /** The group's value: its digits read as a base-85 numeral, most significant first. */
  function GroupValue(g: seq<bv8>): nat
  {
    Horner(Digits85(g), 85)
  }

  /** One group: the low 32 bits of its value, most significant byte first. */
  function ChunkBytes(g: seq<bv8>): Result<seq<bv8>, Base85Error>
  {
    match FirstBelow(g)
    case Some(c) => Err(BelowBang(c))
    case None => Ok(ToBigEndian(GroupValue(g), 4))
  }

  /** `chunks(5).flat_map(...)`: the groups of five, the last one possibly shorter. */
  function DecodeGroups(s: seq<bv8>): Result<seq<bv8>, Base85Error>
    decreases |s|
  {
    if s == [] then Ok([])
    else
      var k := if |s| < 5 then |s| else 5;
      var head :- ChunkBytes(s[..k]);
      Prepend(head, DecodeGroups(s[k..]))
  }

  /** `base85`: trim, drop whitespace, decode the groups. */
  function Decoded(payload: seq<bv8>): Result<seq<bv8>, Base85Error>
  {
    var t :- Trim(payload);
    DecodeGroups(StripWhitespace(t))
  }

  // ---------------------------------------------------------------------
  // Properties

  /** Every group yields exactly four bytes: n characters give 4 * ceil(n / 5) bytes. */
  lemma {:induction false} DecodeGroupsLength(s: seq<bv8>)
    requires DecodeGroups(s).Ok?
    ensures |DecodeGroups(s).value| == 4 * ((|s| + 4) / 5)
    decreases |s|
  {
    if s != [] {
      var k := if |s| < 5 then |s| else 5;
      var head := ChunkBytes(s[..k]);
      assert head.Ok? && |head.value| == 4;
      DecodeGroupsLength(s[k..]);
      assert DecodeGroups(s).value == head.value + DecodeGroups(s[k..]).value;
      CeilFifth(|s|, k);
    }
  }

  lemma CeilFifth(n: nat, k: nat)
    requires 0 < k <= 5 && k <= n && (k == 5 || k == n)
    ensures (n + 4) / 5 == 1 + (n - k + 4) / 5
  {
  }

  lemma {:induction false} FirstBelowConcat(a: seq<bv8>, b: seq<bv8>)
    ensures FirstBelow(a + b) == if FirstBelow(a).Some? then FirstBelow(a) else FirstBelow(b)
  {
    if a != [] {
      assert (a + b)[1..] == a[1..] + b;
      FirstBelowConcat(a[1..], b);
    } else {
      assert a + b == b;
    }
  }

  /** Decoding fails exactly when some character is below '!', and then with the first such character. */
  lemma {:induction false} DecodeGroupsFails(s: seq<bv8>)
    ensures DecodeGroups(s).Ok? <==> AllPrintable(s)
    ensures DecodeGroups(s).Err? ==> DecodeGroups(s).error == BelowBang(FirstBelow(s).value)
    decreases |s|
  {
    if s != [] {
      var k := if |s| < 5 then |s| else 5;
      assert s == s[..k] + s[k..];
      FirstBelowConcat(s[..k], s[k..]);
      DecodeGroupsFails(s[k..]);
    }
  }

  /** Reading the four bytes of a group big-endian gives the group value modulo 2^32. */
  lemma GroupRoundTrip(g: seq<bv8>)
    requires ChunkBytes(g).Ok?
    ensures FromBigEndian(ChunkBytes(g).value) == GroupValue(g) % 0x1_0000_0000
  {
    FromToBigEndian(GroupValue(g), 4);
    PowWord();
  }

  /** The standard encoding of a 32-bit value: its five base-85 digits, each offset by '!'. */
  function EncodeGroup(w: u32): (g: seq<bv8>)
    ensures |g| == 5
  {
    var ds := ToDigits(w, 5, 85);
    seq(5, i requires 0 <= i < 5 => ByteOf(ds[i] + 33))
  }

  lemma Pow85()
    ensures Pow(85, 5) == 4437053125
  {
    assert Pow(85, 2) == 7225;
    assert Pow(85, 3) == 614125;
    assert Pow(85, 4) == 52200625;
  }

  /** A numeral in base 85 whose digits are at most 222 (the largest `byte - 33` can be)
      stays below three times the next power of 85. */
  lemma {:induction false} HornerBelow(ds: seq<nat>)
    requires forall i :: 0 <= i < |ds| ==> ds[i] <= 222
    ensures Horner(ds, 85) + 3 <= 3 * Pow(85, |ds|)
    decreases |ds|
  {
    if ds != [] {
      var init := ds[..|ds| - 1];
      assert forall i :: 0 <= i < |init| ==> init[i] == ds[i];
      HornerBelow(init);
      var h, p := Horner(init, 85), Pow(85, |init|);
      assert Horner(ds, 85) == h * 85 + ds[|ds| - 1];
      assert Pow(85, |ds|) == 85 * p;
      assert h * 85 <= (3 * p - 3) * 85;
    }
  }

  lemma PowUpToFive(k: nat)
    requires k <= 5
    ensures Pow(85, k) <= 4437053125
  {
    Pow85();
    assert Pow(85, 2) == 7225;
    assert Pow(85, 3) == 614125;
    assert Pow(85, 4) == 52200625;
  }

  /** The `u64` accumulator `chunk_sum` cannot overflow: a group of at most five characters,
      even with digits up to 222, has a value far below 2^64. */
  lemma GroupValueFits(g: seq<bv8>)
    requires |g| <= 5
    ensures GroupValue(g) < 3 * 4437053125 < 0x1_0000_0000_0000_0000
  {
    var ds := Digits85(g);
    assert forall i :: 0 <= i < |ds| ==> ds[i] <= 222;
    HornerBelow(ds);
    PowUpToFive(|g|);
  }

  /** The encoded characters are printable and carry the digits of w. */
  lemma EncodeGroupDigits(w: u32)
    ensures AllPrintable(EncodeGroup(w)) && Digits85(EncodeGroup(w)) == ToDigits(w, 5, 85)
  {
    var g := EncodeGroup(w);
    var ds := ToDigits(w, 5, 85);
    forall i | 0 <= i < 5 ensures g[i] as int == ds[i] + 33 && Digits85(g)[i] == ds[i] {
    }
  }

  /** Decoding the five characters that encode w gives back the four bytes of w. */
  lemma EncodeThenDecode(w: u32)
    ensures ChunkBytes(EncodeGroup(w)) == Ok(ToBigEndian(w, 4))
  {
    EncodeGroupDigits(w);
    HornerToDigits(w, 5, 85);
    Pow85();
    assert GroupValue(EncodeGroup(w)) == w;
  }

  /** Four bytes survive encoding and decoding of their group. */
  lemma BytesThroughGroup(bs: seq<bv8>)
    requires |bs| == 4
    ensures ChunkBytes(EncodeGroup(FromBigEndian(bs))) == Ok(bs)
  {
    PowWord();
    EncodeThenDecode(FromBigEndian(bs));
    ToFromBigEndian(bs);
  }

  lemma ByteIs(n: int, b: bv8)
    requires 0 <= n < 256 && b as int == n
    ensures ByteOf(n) == b
  {
  }

  lemma ClosingGroupBytes()
    ensures ToBigEndian(7934, 4) == [0, 0, 0x1E, 0xFE]
  {
    ByteIs(254, 0xFE);
    ByteIs(30, 0x1E);
    ByteIs(0, 0);
    assert ToBigEndian(0, 2) == [0, 0];
    assert ToBigEndian(30, 3) == [0, 0, 0x1E];
  }

  lemma ClosingGroupValue()
    ensures GroupValue([Tilde, Gt]) == 7934
  {
    var t: seq<bv8> := [Tilde, Gt];
    assert Digits85(t) == [93, 29];
    var ds: seq<nat> := [93, 29];
    assert ds[..1] == [93] && ds[..1][..0] == [];
    assert Horner(ds[..1], 85) == 93;
  }

  lemma ClosingGroupDecoded()
    ensures DecodeGroups([Tilde, Gt]) == Ok([0, 0, 0x1E, 0xFE])
  {
    var t: seq<bv8> := [Tilde, Gt];
    assert FirstBelow(t) == None;
    ClosingGroupValue();
    ClosingGroupBytes();
    assert ChunkBytes(t) == Ok([0, 0, 0x1E, 0xFE]);
    assert t[..2] == t && t[2..] == [];
    var bs: seq<bv8> := [0, 0, 0x1E, 0xFE];
    assert bs + [] == bs;
  }

  lemma ClosingTrims()
    ensures Trim([Lt, Tilde, Tilde, Gt]) == Ok([Tilde, Gt])
    ensures Trim([Lt, Tilde, Gt]) == Err(NoEnd)
  {
    TrimFramed([], [], []);
    assert [Lt, Tilde] + [] + [Tilde, Gt] + [] == [Lt, Tilde, Tilde, Gt];
    assert FindPair([Lt, Tilde, Gt], Lt, Tilde, 0) == Some(0);
  }

  /** The empty frame `<~~>` decodes its own closing `~>` as a two-character group, while
      `<~>` has no end because the search for `~>` starts after `<~`. */
  lemma ClosingDelimiterDecoded()
    ensures Trim([Lt, Tilde, Tilde, Gt]) == Ok([Tilde, Gt])
    ensures Decoded([Lt, Tilde, Tilde, Gt]) == Ok([0, 0, 0x1E, 0xFE])
    ensures Trim([Lt, Tilde, Gt]) == Err(NoEnd)
  {
    ClosingTrims();
    var t: seq<bv8> := [Tilde, Gt];
    assert StripWhitespace(t) == t by {
      var keep := c => !IsAsciiWhitespace(c);
      assert t[1..] == [Gt] && t[1..][1..] == [];
      assert Filter(t[1..], keep) == [Gt];
    }
    ClosingGroupDecoded();
  }

  // ---------------------------------------------------------------------
  // The decoder as the source runs it

  /** The two search loops of `trim_delimiter`. */
  method TrimDelimiter(payload: seq<bv8>) returns (r: Result<seq<bv8>, Base85Error>)
    ensures r == Trim(payload)
  {
    var start: Option<nat> := None;
    var i := 0;
    while i + 1 < |payload|
      invariant FindPair(payload, Lt, Tilde, i) == FindPair(payload, Lt, Tilde, 0)
    {
      if payload[i] == Lt && payload[i + 1] == Tilde {
        start := Some(i + 2);
        break;
      }
      i := i + 1;
    }
    if start.None? {
      return Err(NoStart);
    }
    var s := start.value;
    var end: Option<nat> := None;
    var j := s;
    while j + 1 < |payload|
      invariant s <= j
      invariant FindPair(payload, Tilde, Gt, j) == FindPair(payload, Tilde, Gt, s)
    {
      if payload[j] == Tilde && payload[j + 1] == Gt {
        end := Some(j + 2);
        break;
      }
      j := j + 1;
    }
    if end.None? {
      return Err(NoEnd);
    }
    r := Ok(payload[s..end.value]);
  }

  /** `FirstBelow` finds the character at i when everything before it is printable. */
  lemma {:induction false} FirstBelowAt(g: seq<bv8>, i: nat)
    requires i < |g| && AllPrintable(g[..i]) && (g[i] as int) < 33
    ensures FirstBelow(g) == Some(g[i])
  {
    if i > 0 {
      assert g[1..][..i - 1] == g[..i][1..];
      FirstBelowAt(g[1..], i - 1);
    }
  }

  /** The body of the `flat_map` closure: sum the digits times powers of 85, then write the
      four bytes from the last one up, dividing by 256 each time. */
  method DecodeChunk(chunk: seq<bv8>) returns (r: Result<seq<bv8>, Base85Error>)
    ensures r == ChunkBytes(chunk)
  {
    var k := |chunk|;
    ghost var ds := Digits85(chunk);
    var sum := 0;
    var i := 0;
    while i < k
      invariant 0 <= i <= k
      invariant AllPrintable(chunk[..i])
      invariant sum == PowerSum(ds, 85, i)
    {
      if (chunk[i] as int) < 33 {
        FirstBelowAt(chunk, i);
        return Err(BelowBang(chunk[i]));
      }
      sum := sum + (chunk[i] as int - 33) * Pow(85, k - 1 - i);
      assert chunk[..i + 1] == chunk[..i] + [chunk[i]];
      i := i + 1;
    }
    assert chunk[..k] == chunk;
    PowerSumIsHorner(ds, 85);
    assert sum == GroupValue(chunk) && FirstBelow(chunk) == None;
    var decoded := GroupBytes(sum);
    r := Ok(decoded);
  }

  /** The tail of the closure: the four bytes from the last one up, each `sum % 256`
      followed by `sum /= 256`. */
  method GroupBytes(v: nat) returns (r: seq<bv8>)
    ensures r == ToBigEndian(v, 4)
  {
    var sum := v;
    var decoded := new bv8[4](_ => 0);
    var n := 4;
    while n > 0
      invariant 0 <= n <= 4
      invariant sum == v / Pow(256, 4 - n)
      invariant forall j :: n <= j < 4 ==> decoded[j] == ToBigEndian(v, 4)[j]
    {
      n := n - 1;
      decoded[n] := ByteOf(sum % 256);
      ToBigEndianByte(v, 4, n);
      DivMod(v, Pow(256, 3 - n), 256);
      sum := sum / 256;
    }
    assert decoded[..] == ToBigEndian(v, 4);
    r := decoded[..];
  }

  /** `base85`: trim, strip whitespace, then decode group after group. */
  method Base85(payload: seq<bv8>) returns (r: Result<seq<bv8>, Base85Error>)
    ensures r == Decoded(payload)
  {
    var trimmed := TrimDelimiter(payload);
    if trimmed.Err? {
      return Err(trimmed.error);
    }
    r := DecodeAll(StripWhitespace(trimmed.value));
  }

  /** The `chunks(5).flat_map(...)` loop over the stripped text. */
  method DecodeAll(s: seq<bv8>) returns (r: Result<seq<bv8>, Base85Error>)
    ensures r == DecodeGroups(s)
  {
    var out := [];
    PrependEmpty(DecodeGroups(s));
    var i := 0;
    while i < |s|
      invariant 0 <= i <= |s|
      invariant Prepend(out, DecodeGroups(s[i..])) == DecodeGroups(s)
    {
      var k := if |s| - i < 5 then |s| - i else 5;
      DecodeGroupsHead(s, i, k);
      var bytes := DecodeChunk(s[i..i + k]);
      if bytes.Err? {
        return Err(bytes.error);
      }
      PrependTwice(out, bytes.value, DecodeGroups(s[i + k..]));
      out := out + bytes.value;
      i := i + k;
    }
    assert s[i..] == [] && out + [] == out;
    r := Ok(out);
  }

  /** One turn of `chunks(5)`: the group at i is decoded first, the rest after it. */
  lemma DecodeGroupsHead(s: seq<bv8>, i: nat, k: nat)
    requires i < |s| && k == (if |s| - i < 5 then |s| - i else 5)
    ensures DecodeGroups(s[i..]) ==
      if ChunkBytes(s[i..i + k]).Err? then Err(ChunkBytes(s[i..i + k]).error)
      else Prepend(ChunkBytes(s[i..i + k]).value, DecodeGroups(s[i + k..]))
  {
    assert s[i..][..k] == s[i..i + k] && s[i..][k..] == s[i + k..];
  }
}
