/** Layer 4 of src/steps/step4.rs: a stream of IPv4 packets carrying UDP. The data of every packet
    whose IPv4 header checksum (section 3.1 of RFC 791) and UDP checksum (RFC 768) hold, and whose
    addresses and destination port are the expected ones, is kept in order. Checksums are the
    Internet one's-complement sum of section 1 of RFC 1071. */
module Step4 {
  import opened Bytes
  import Base85

  /** The source's panics while walking the stream. */
  datatype PacketError =
    | OutOfBounds(start: nat, length: nat) // `payload[packet_start..packet_start + len]` past the end
    | TooShort(start: nat, length: nat)    // a total length below 28: `payload[26..28]` of the packet
    | Undecodable(e: Base85.Base85Error)   // the Ascii85 layer beneath failed

  const MustSource: seq<bv8> := [10, 1, 1, 10]
  const MustDest: seq<bv8> := [10, 1, 1, 200]
  const DestPort: u16 := 42069
  const UdpProtocol: bv8 := 0x11

  // ---------------------------------------------------------------------
  // One's-complement sum

  /** `overflowing_add` followed by `+= 1` on overflow: addition with end-around carry. */
  function OnesAdd(s: u16, w: u16): (r: u16)
    ensures r % 0xFFFF == (s + w) % 0xFFFF
  {
    if s + w >= 0x1_0000 then s + w - 0x1_0000 + 1 else s + w
  }

  /** `ones_complement_sum`: the big-endian words of data added in order to s, an odd last byte
      as the high byte of a word whose low byte is zero. */
  function OnesSum(s: u16, data: seq<bv8>): u16
    decreases |data|
  {
    if |data| >= 2 then OnesSum(OnesAdd(s, BE16(data[..2])), data[2..])
    else if |data| == 1 then OnesAdd(s, BE16([data[0], 0]))
    else s
  }

  /** The plain integer sum of the same words. */
  function WordsSum(data: seq<bv8>): nat
    decreases |data|
  {
    if |data| >= 2 then BE16(data[..2]) + WordsSum(data[2..])
    else if |data| == 1 then data[0] as int * 256
    else 0
  }

  /** The u16 `!`: every bit flipped, which for a 16-bit value is subtraction from 0xFFFF. */
  function Not16(x: u16): (r: u16)
    ensures r + x == 0xFFFF
  {
    0xFFFF - x
  }

  /** Flipping every bit of a byte subtracts it from 0xFF. */
  lemma ByteComplement(b: bv8)
    ensures (!b) as int == 0xFF - b as int
  {
  }

  /** `Not16` is the bitwise complement `!`: on the big-endian bytes `hi`, `lo` of a u16 it
      flips every bit of each byte. */
  lemma Not16IsComplement(hi: bv8, lo: bv8)
    ensures Not16(hi as int * 256 + lo as int) == (!hi) as int * 256 + (!lo) as int
  {
    ByteComplement(hi);
    ByteComplement(lo);
  }

  /** Modulo 65535 the one's-complement sum is the plain sum: the end-around carry adds
      back exactly the 65536 - 1 that wrapping loses. */
  lemma {:induction false} OnesSumCongruent(s: u16, data: seq<bv8>)
    ensures OnesSum(s, data) % 0xFFFF == (s + WordsSum(data)) % 0xFFFF
    decreases |data|
  {
    if |data| >= 2 {
      var w := BE16(data[..2]);
      OnesSumCongruent(OnesAdd(s, w), data[2..]);
      ModAdd(OnesAdd(s, w), s + w, WordsSum(data[2..]), 0xFFFF);
    }
  }

  lemma ModAdd(a: int, b: int, c: int, m: int)
    requires m > 0 && a % m == b % m
    ensures (a + c) % m == (b + c) % m
  {
    var qa, qb := a / m, b / m;
    assert a == qa * m + a % m && b == qb * m + b % m;
    DivModUnique(a + c, m, qa + (a % m + c) / m, (a % m + c) % m);
    DivModUnique(b + c, m, qb + (a % m + c) / m, (a % m + c) % m);
  }

  /** Summing a word-aligned part first and then the rest is summing the whole. */
  lemma {:induction false} OnesSumConcat(s: u16, a: seq<bv8>, b: seq<bv8>)
    requires |a| % 2 == 0
    ensures OnesSum(s, a + b) == OnesSum(OnesSum(s, a), b)
    decreases |a|
  {
    if |a| >= 2 {
      assert (a + b)[..2] == a[..2] && (a + b)[2..] == a[2..] + b;
      OnesSumConcat(OnesAdd(s, BE16(a[..2])), a[2..], b);
    } else {
      assert a + b == b;
    }
  }

  lemma {:induction false} WordsSumConcat(a: seq<bv8>, b: seq<bv8>)
    requires |a| % 2 == 0
    ensures WordsSum(a + b) == WordsSum(a) + WordsSum(b)
    decreases |a|
  {
    if |a| >= 2 {
      assert (a + b)[..2] == a[..2] && (a + b)[2..] == a[2..] + b;
      WordsSumConcat(a[2..], b);
    } else {
      assert a + b == b;
    }
  }

  /** `sum.overflowing_add(word)` and the `+= 1` on overflow; the increment cannot overflow again,
      since a wrapped sum is at most 0xFFFE. */
  method AddWord(sum: u16, word: u16) returns (r: u16)
    ensures r == OnesAdd(sum, word)
  {
    var total := sum + word;
    var overflow := total >= 0x1_0000;
    r := total % 0x1_0000;
    if overflow {
      r := r + 1;
    }
  }

  /** `ones_complement_sum` as the source runs it, on `sum` passed in and handed back. */
  method OnesComplementSum(sum: u16, payload: seq<bv8>) returns (r: u16)
    ensures r == OnesSum(sum, payload)
  {
    r := sum;
    var i := 0;
    while |payload| - i >= 2
      invariant 0 <= i <= |payload|
      invariant OnesSum(r, payload[i..]) == OnesSum(sum, payload)
    {
      OnesSumStep(r, payload, i);
      r := AddWord(r, BE16(payload[i..i + 2]));
      i := i + 2;
    }
    if |payload| - i == 1 {
      assert payload[i..] == [payload[i]];
      r := AddWord(r, BE16([payload[i], 0]));
    } else {
      assert payload[i..] == [];
    }
  }

  lemma OnesSumStep(s: u16, payload: seq<bv8>, i: nat)
    requires i + 2 <= |payload|
    ensures OnesSum(s, payload[i..]) == OnesSum(OnesAdd(s, BE16(payload[i..i + 2])), payload[i + 2..])
  {
    assert payload[i..][..2] == payload[i..i + 2] && payload[i..][2..] == payload[i + 2..];
  }

  // ---------------------------------------------------------------------
  // Header fields

  /** `get_total_length_ip`: bytes 2 and 3, big-endian. */
  function TotalLength(p: seq<bv8>): (len: u16)
    requires |p| >= 4
    ensures len == p[2] as int * 256 + p[3] as int
  {
    BE16(p[2..4])
  }

  /** `get_source_dest_ip`: bytes 12 to 15 and 16 to 19. */
  function SourceDest(p: seq<bv8>): (addrs: (seq<bv8>, seq<bv8>))
    requires |p| >= 20
    ensures |addrs.0| == 4 && |addrs.1| == 4
    ensures forall k :: 0 <= k < 4 ==> addrs.0[k] == p[12 + k] && addrs.1[k] == p[16 + k]
  {
    (p[12..16], p[16..20])
  }

  /** `get_ports_udp`: bytes 20, 21 and 22, 23, each big-endian. */
  function Ports(p: seq<bv8>): (ports: (u16, u16))
    requires |p| >= 24
    ensures ports.0 == p[20] as int * 256 + p[21] as int
    ensures ports.1 == p[22] as int * 256 + p[23] as int
  {
    (BE16(p[20..22]), BE16(p[22..24]))
  }

  // ---------------------------------------------------------------------
  // Checksums

  /** `checksum_correct_ip_header`: the sum of bytes 0 to 9 and 12 to 19, complemented,
      equals the checksum field at 10 and 11. */
  predicate IpHeaderValid(p: seq<bv8>)
    requires |p| >= 20
  {
    Not16(OnesSum(OnesSum(0, p[0..10]), p[12..20])) == BE16(p[10..12])
  }

  /** A header that passes sums, checksum field included, to zero modulo 65535: the
      property RFC 791 asks of a received header. */
  lemma IpHeaderSumsToZero(p: seq<bv8>)
    requires |p| >= 20 && IpHeaderValid(p)
    ensures WordsSum(p[..20]) % 0xFFFF == 0
  {
    var c := OnesSum(OnesSum(0, p[0..10]), p[12..20]);
    TwoSumsCongruent(p[0..10], p[12..20]);
    HeaderWords(p);
    ComplementCancels(WordsSum(p[0..10]) + WordsSum(p[12..20]), c);
  }

  /** Two sums in a row are congruent to the plain sum of both parts. */
  lemma TwoSumsCongruent(a: seq<bv8>, b: seq<bv8>)
    ensures OnesSum(OnesSum(0, a), b) % 0xFFFF == (WordsSum(a) + WordsSum(b)) % 0xFFFF
  {
    OnesSumCongruent(0, a);
    OnesSumCongruent(OnesSum(0, a), b);
    ModAdd(OnesSum(0, a), WordsSum(a), WordsSum(b), 0xFFFF);
  }

  /** The words of a header: those before the checksum field, the field itself, those after. */
  lemma HeaderWords(p: seq<bv8>)
    requires |p| >= 20
    ensures WordsSum(p[..20]) == WordsSum(p[0..10]) + BE16(p[10..12]) + WordsSum(p[12..20])
  {
    assert p[..20] == p[0..10] + (p[10..12] + p[12..20]);
    WordsSumConcat(p[0..10], p[10..12] + p[12..20]);
    WordsSumConcat(p[10..12], p[12..20]);
    assert p[10..12][2..] == [];
  }

  /** A value plus the complement of anything congruent to it vanishes modulo 65535. */
  lemma ComplementCancels(x: nat, c: u16)
    requires x % 0xFFFF == c % 0xFFFF
    ensures (x + Not16(c)) % 0xFFFF == 0
  {
    ModAdd(x, c, 0xFFFF - c, 0xFFFF);
  }

  /** The pseudo-header `checksum_correct_udp_header` builds: the given addresses, a zero, the
      protocol, the UDP length (bytes 24, 25), both ports re-encoded, and the length again. */
  function PseudoHeader(p: seq<bv8>, src: seq<bv8>, dst: seq<bv8>, protocol: bv8): seq<bv8>
    requires |p| >= 28
  {
    var ports := Ports(p);
    src + dst + [0] + [protocol] + p[24..26] + ToBigEndian(ports.0, 2) + ToBigEndian(ports.1, 2) + p[24..26]
  }

  /** Re-encoding the ports gives back bytes 20 to 23, so the header carries the UDP header's
      length, ports and length in a row. */
  lemma PseudoHeaderBytes(p: seq<bv8>, src: seq<bv8>, dst: seq<bv8>, protocol: bv8)
    requires |p| >= 28
    ensures PseudoHeader(p, src, dst, protocol) == src + dst + [0] + [protocol] + p[24..26] + p[20..24] + p[24..26]
  {
    ToFromBigEndian(p[20..22]);
    ToFromBigEndian(p[22..24]);
    assert p[20..22] + p[22..24] == p[20..24];
  }

  /** `checksum_correct_udp_header`: a stored checksum of 0xFFFF is refused outright; otherwise the
      sum of the pseudo-header and the data from byte 28 on, complemented, must equal it. */
  function UdpValid(p: seq<bv8>, src: seq<bv8>, dst: seq<bv8>, protocol: bv8): (ok: bool)
    requires |p| >= 28
    ensures BE16(p[26..28]) == 0xFFFF ==> !ok
  {
    var stored := BE16(p[26..28]);
    stored != 0xFFFF && Not16(OnesSum(OnesSum(0, PseudoHeader(p, src, dst, protocol)), p[28..])) == stored
  }

  /** The two sums of the source are one sum over the pseudo-header followed by the data. */
  lemma UdpOneSum(p: seq<bv8>, src: seq<bv8>, dst: seq<bv8>, protocol: bv8)
    requires |p| >= 28 && |src| == 4 && |dst| == 4
    ensures var h := PseudoHeader(p, src, dst, protocol);
      OnesSum(OnesSum(0, h), p[28..]) == OnesSum(0, h + p[28..])
  {
    var h := PseudoHeader(p, src, dst, protocol);
    assert |h| == 18;
    OnesSumConcat(0, h, p[28..]);
  }

  /** A packet that passes sums, pseudo-header and stored checksum included, to zero modulo 65535. */
  lemma UdpSumsToZero(p: seq<bv8>, src: seq<bv8>, dst: seq<bv8>, protocol: bv8)
    requires |p| >= 28 && |src| == 4 && |dst| == 4 && UdpValid(p, src, dst, protocol)
    ensures (WordsSum(PseudoHeader(p, src, dst, protocol) + p[28..]) + BE16(p[26..28])) % 0xFFFF == 0
  {
    var h := PseudoHeader(p, src, dst, protocol);
    UdpOneSum(p, src, dst, protocol);
    var c := OnesSum(0, h + p[28..]);
    OnesSumCongruent(0, h + p[28..]);
    ComplementCancels(WordsSum(h + p[28..]), c);
  }

  /** The IPv4 check as the source runs it. */
  method CheckIpHeader(p: seq<bv8>) returns (ok: bool)
    requires |p| >= 20
    ensures ok == IpHeaderValid(p)
  {
    var checksum := OnesComplementSum(0, p[0..10]);
    checksum := OnesComplementSum(checksum, p[12..20]);
    ok := Not16(checksum) == BE16(p[10..12]);
  }

  /** The UDP check as the source runs it. */
  method CheckUdp(p: seq<bv8>, src: seq<bv8>, dst: seq<bv8>, protocol: bv8) returns (ok: bool)
    requires |p| >= 28
    ensures ok == UdpValid(p, src, dst, protocol)
  {
    var stored := BE16(p[26..28]);
    if stored == 0xFFFF {
      return false;
    }
    var header := BuildPseudoHeader(p, src, dst, protocol);
    var check := OnesComplementSum(0, header);
    check := OnesComplementSum(check, p[28..]);
    ok := Not16(check) == stored;
  }

  /** The pushes that build `header`. */
  method BuildPseudoHeader(p: seq<bv8>, src: seq<bv8>, dst: seq<bv8>, protocol: bv8) returns (header: seq<bv8>)
    requires |p| >= 28
    ensures header == PseudoHeader(p, src, dst, protocol)
  {
    var ports := Ports(p);
    header := [];
    header := header + src;
    assert header == src;
    header := header + dst;
    header := header + [0];
    header := header + [protocol];
    header := header + p[24..26];
    header := header + ToBigEndian(ports.0, 2);
    header := header + ToBigEndian(ports.1, 2);
    header := header + p[24..26];
  }

  // ---------------------------------------------------------------------
  // The packet stream

  /** The packet at the head of rest, len bytes long, is kept. The IPv4 fields are read from rest,
      the UDP check sees the packet alone, as in the source. */
  predicate Accepted(rest: seq<bv8>, len: nat)
  {
    && 28 <= len <= |rest|
    && IpHeaderValid(rest)
    && UdpValid(rest[..len], MustSource, MustDest, UdpProtocol)
    && SourceDest(rest) == (MustSource, MustDest)
    && Ports(rest).1 == DestPort
  }

  /** The walk of `step4_extension` over the stream from start on, for a given acceptance test:
      the data of the accepted packets in order, until at most 28 bytes are left. */
  function Walk(payload: seq<bv8>, start: nat, keep: (seq<bv8>, nat) -> bool): Result<seq<bv8>, PacketError>
    requires start <= |payload|
    decreases |payload| - start
  {
    if |payload| - start <= 28 then Ok([])
    else
      var rest := payload[start..];
      var len := TotalLength(rest);
      if start + len > |payload| then Err(OutOfBounds(start, len))
      else if len < 28 then Err(TooShort(start, len))
      else
        var data := if keep(rest, len) then payload[start + 28..start + len] else [];
        Prepend(data, Walk(payload, start + len, keep))
  }

  /** `step4_extension`. */
  function Step4Extension(payload: seq<bv8>): Result<seq<bv8>, PacketError>
  {
    Walk(payload, 0, Accepted)
  }

  /** `run_step`: decode the Ascii85 text, then apply the layer. */
  function RunStep(payload: seq<bv8>): (r: Result<seq<bv8>, PacketError>)
    ensures Base85.Decoded(payload).Err? ==> r == Err(Undecodable(Base85.Decoded(payload).error))
    ensures Base85.Decoded(payload).Ok? ==> r == Step4Extension(Base85.Decoded(payload).value)
  {
    match Base85.Decoded(payload)
    case Err(e) => Err(Undecodable(e))
    case Ok(decoded) => Step4Extension(decoded)
  }

  /** Only packet data is kept: at most what lies past the cursor, less 28 header bytes per packet. */
  lemma {:induction false} WalkBound(payload: seq<bv8>, start: nat, keep: (seq<bv8>, nat) -> bool)
    requires start <= |payload| && Walk(payload, start, keep).Ok?
    ensures |Walk(payload, start, keep).value| <= |payload| - start
    decreases |payload| - start
  {
    if |payload| - start > 28 {
      var rest := payload[start..];
      var len := TotalLength(rest);
      assert 28 <= len && start + len <= |payload|;
      WalkStep(payload, start, keep);
      var data := if keep(rest, len) then payload[start + 28..start + len] else [];
      var next := Walk(payload, start + len, keep);
      assert Walk(payload, start, keep) == Prepend(data, next);
      assert next.Ok? && Walk(payload, start, keep).value == data + next.value;
      WalkBound(payload, start + len, keep);
    }
  }

  /** A single packet filling the stream is kept whole, header aside, exactly when it passes. */
  lemma SinglePacket(p: seq<bv8>, keep: (seq<bv8>, nat) -> bool)
    requires |p| > 28 && TotalLength(p) == |p|
    ensures Walk(p, 0, keep) == Ok(if keep(p, |p|) then p[28..] else [])
  {
    assert p[0..] == p && p[..|p|] == p;
    var data := if keep(p, |p|) then p[28..] else [];
    assert data + [] == data;
  }

  /** A packet that fails the test adds nothing; the cursor moves on by its total length. */
  lemma RejectedPacket(payload: seq<bv8>, start: nat, keep: (seq<bv8>, nat) -> bool)
    requires start <= |payload| && |payload| - start > 28
    requires var len := TotalLength(payload[start..]);
      28 <= len && start + len <= |payload| && !keep(payload[start..], len)
    ensures Walk(payload, start, keep) == Walk(payload, start + TotalLength(payload[start..]), keep)
  {
    PrependEmpty(Walk(payload, start + TotalLength(payload[start..]), keep));
  }

  /** A stream whose first packet claims more bytes than remain is a failure. */
  lemma TruncatedPacket(payload: seq<bv8>, keep: (seq<bv8>, nat) -> bool)
    requires |payload| > 28 && TotalLength(payload) > |payload|
    ensures Walk(payload, 0, keep) == Err(OutOfBounds(0, TotalLength(payload)))
  {
    assert payload[0..] == payload;
  }

  // ---------------------------------------------------------------------
  // The walk as the source runs it

  ghost predicate IsAccepted(keep: (seq<bv8>, nat) -> bool)
  {
    forall rest, len {:trigger Accepted(rest, len)} :: keep(rest, len) == Accepted(rest, len)
  }

  /** The `if` of the loop body decides exactly the acceptance test. */
  lemma Decide(keep: (seq<bv8>, nat) -> bool, rest: seq<bv8>, len: nat, packet: seq<bv8>, ipCorrect: bool, udpCorrect: bool,
               addrs: (seq<bv8>, seq<bv8>), ports: (u16, u16))
    requires IsAccepted(keep) && 28 <= len <= |rest| && packet == rest[..len]
    requires ipCorrect == IpHeaderValid(rest) && udpCorrect == UdpValid(packet, MustSource, MustDest, UdpProtocol)
    requires addrs == SourceDest(rest) && ports == Ports(rest)
    ensures keep(rest, len) == (ipCorrect && udpCorrect && addrs.0 == MustSource && addrs.1 == MustDest && ports.1 == DestPort)
  {
    assert keep(rest, len) == Accepted(rest, len);
  }

  lemma SliceOfSlice(s: seq<bv8>, i: nat, j: nat)
    requires i <= j <= |s|
    ensures s[i..][..j - i] == s[i..j]
  {
  }

  /** One turn of the walk. */
  lemma WalkStep(payload: seq<bv8>, start: nat, keep: (seq<bv8>, nat) -> bool)
    requires start <= |payload| && |payload| - start > 28
    requires var len := TotalLength(payload[start..]); 28 <= len && start + len <= |payload|
    ensures var rest := payload[start..]; var len := TotalLength(rest);
      Walk(payload, start, keep) == Prepend(if keep(rest, len) then payload[start + 28..start + len] else [], Walk(payload, start + len, keep))
  {
  }

  /** `step4_extension` as the source runs it: a cursor over the stream, extending `ret`. */
  method Step4Loop(payload: seq<bv8>) returns (r: Result<seq<bv8>, PacketError>)
    ensures r == Step4Extension(payload)
  {
    r := Scan(payload, Accepted, (s: nat) => if s <= |payload| then Walk(payload, s, Accepted) else Ok([]));
  }

  /** `walk` names the walk from each cursor position, so that the loop reasons about the walk
      one turn at a time. */
  ghost predicate IsWalk(payload: seq<bv8>, keep: (seq<bv8>, nat) -> bool, walk: nat -> Result<seq<bv8>, PacketError>)
  {
    forall start: nat {:trigger Walk(payload, start, keep)} :: start <= |payload| ==> walk(start) == Walk(payload, start, keep)
  }

  method Scan(payload: seq<bv8>, ghost keep: (seq<bv8>, nat) -> bool, ghost walk: nat -> Result<seq<bv8>, PacketError>)
    returns (r: Result<seq<bv8>, PacketError>)
    requires IsAccepted(keep) && IsWalk(payload, keep, walk)
    ensures r == Walk(payload, 0, keep)
  {
    var ret := [];
    var packetStart := 0;
    assert walk(0) == Walk(payload, 0, keep);
    PrependEmpty(walk(0));
    while |payload| - packetStart > 28
      invariant packetStart <= |payload|
      invariant Prepend(ret, walk(packetStart)) == walk(0)
      decreases |payload| - packetStart
    {
      var turn := ScanPacket(payload, packetStart, keep, walk);
      if turn.Err? {
        return Err(turn.error);
      }
      var (data, len) := turn.value;
      Advance(ret, data, walk(packetStart), walk(packetStart + len), walk(0));
      ret := ret + data;
      packetStart := packetStart + len;
    }
    assert walk(packetStart) == Walk(payload, packetStart, keep) == Ok([]);
    assert ret + [] == ret;
    r := Ok(ret);
  }

  /** The loop invariant carried across one turn. */
  lemma Advance(ret: seq<bv8>, data: seq<bv8>, here: Result<seq<bv8>, PacketError>, next: Result<seq<bv8>, PacketError>,
                whole: Result<seq<bv8>, PacketError>)
    requires Prepend(ret, here) == whole && here == Prepend(data, next)
    ensures Prepend(ret + data, next) == whole
  {
    PrependTwice(ret, data, next);
  }

  /** One turn of the loop: read the packet at packetStart, check it, and hand back the data it
      adds to `ret` (none when it is refused) and its total length. The header reads and the IPv4
      check, which the source makes before slicing the packet, cannot fail once 29 bytes remain,
      so they are made after the two slicing failures here. */
  method ScanPacket(payload: seq<bv8>, packetStart: nat, ghost keep: (seq<bv8>, nat) -> bool,
                    ghost walk: nat -> Result<seq<bv8>, PacketError>)
    returns (r: Result<(seq<bv8>, nat), PacketError>)
    requires IsAccepted(keep) && IsWalk(payload, keep, walk)
    requires packetStart <= |payload| && |payload| - packetStart > 28
    ensures r.Err? ==> walk(packetStart) == Err(r.error)
    ensures r.Ok? ==> var (data, len) := r.value;
      28 <= len && packetStart + len <= |payload|
      && walk(packetStart) == Prepend(data, walk(packetStart + len))
  {
    var rest := payload[packetStart..];
    var len: nat := TotalLength(rest);
    assert walk(packetStart) == Walk(payload, packetStart, keep);
    if packetStart + len > |payload| {
      return Err(OutOfBounds(packetStart, len));
    }
    if len < 28 {
      return Err(TooShort(packetStart, len));
    }
    var ok := Verdict(payload, packetStart, len, keep);
    WalkStep(payload, packetStart, keep);
    assert walk(packetStart + len) == Walk(payload, packetStart + len, keep);
    if ok {
      r := Ok((payload[packetStart + 28..packetStart + len], len));
    } else {
      r := Ok(([], len));
    }
  }

  /** The five tests of the loop body on the packet of total length len at packetStart. */
  method Verdict(payload: seq<bv8>, packetStart: nat, len: nat, ghost keep: (seq<bv8>, nat) -> bool) returns (ok: bool)
    requires IsAccepted(keep)
    requires 28 <= len && packetStart + len <= |payload|
    ensures ok == keep(payload[packetStart..], len)
  {
    var rest := payload[packetStart..];
    var addrs := SourceDest(rest);
    var ports := Ports(rest);
    var ipCorrect := CheckIpHeader(rest);
    var packet := payload[packetStart..packetStart + len];
    SliceOfSlice(payload, packetStart, packetStart + len);
    var udpCorrect := CheckUdp(packet, MustSource, MustDest, UdpProtocol);
    Decide(keep, rest, len, packet, ipCorrect, udpCorrect, addrs, ports);
    ok := ipCorrect && udpCorrect && addrs.0 == MustSource && addrs.1 == MustDest && ports.1 == DestPort;
  }
}
