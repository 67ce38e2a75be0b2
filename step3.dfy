/** Layer 3 of src/steps/step3.rs: a 32-byte repeating XOR key is recovered from known plaintext at
    bytes 28 to 59 (the text "ic ]" followed by 28 '=' signs) and used to decrypt the payload. */
module Step3 {
  import opened Bytes
  import Base85

  datatype Step3Error =
    | TooShort(length: nat)                // slicing `payload[32..60]` of fewer than 60 bytes
    | Undecodable(e: Base85.Base85Error)    // the Ascii85 layer beneath failed

  /** "ic ]", the guessed plaintext at bytes 28 to 31. */
  const Crib: seq<bv8> := [0x69, 0x63, 0x20, 0x5D]
  /** '=', the guessed plaintext at bytes 32 to 59. */
  const Equals: bv8 := 0x3D

  /** The guessed plaintext byte at position p. */
  function Guess(p: nat): bv8
    requires 28 <= p < 60
  {
    if p < 32 then Crib[p - 28] else Equals
  }

  /** The key after `rotate_left(4)`: entry j comes from payload position 32 + j for j < 28 and
      from position j for the last four. */
  function Key(payload: seq<bv8>): (key: seq<bv8>)
    requires |payload| >= 60
    ensures |key| == 32
  {
    seq(32, j requires 0 <= j < 32 => var p := if j < 28 then j + 32 else j; payload[p] ^ Guess(p))
  }

  /** Key entry p mod 32 is what turns payload byte p into its guess. */
  lemma KeyMatchesGuess(payload: seq<bv8>, p: nat)
    requires |payload| >= 60 && 28 <= p < 60
    ensures Key(payload)[p % 32] == payload[p] ^ Guess(p)
  {
    if p >= 32 {
      assert p % 32 == p - 32;
    }
  }

  /** The `zip(key.iter().cycle())` map. */
  function CyclicXor(data: seq<bv8>, key: seq<bv8>): (out: seq<bv8>)
    requires |key| > 0
    ensures |out| == |data|
    ensures forall i :: 0 <= i < |data| ==> out[i] == data[i] ^ key[i % |key|]
  {
    seq(|data|, i requires 0 <= i < |data| => data[i] ^ key[i % |key|])
  }

  /** XOR-ing twice with the same key is the identity. */
  lemma CyclicXorTwice(data: seq<bv8>, key: seq<bv8>)
    requires |key| > 0
    ensures CyclicXor(CyclicXor(data, key), key) == data
  {
    forall i | 0 <= i < |data| ensures CyclicXor(CyclicXor(data, key), key)[i] == data[i] {
      XorTwice(data[i], key[i % |key|]);
    }
  }

  lemma XorTwice(a: bv8, k: bv8)
    ensures (a ^ k) ^ k == a
  {
  }

  /** `step3_extension`. */
  function Step3Extension(payload: seq<bv8>): Result<seq<bv8>, Step3Error>
  {
    if |payload| < 60 then Err(TooShort(|payload|)) else Ok(CyclicXor(payload, Key(payload)))
  }

  /** The decrypted bytes 28 to 59 are exactly the guessed plaintext. */
  lemma KnownPlaintext(payload: seq<bv8>)
    requires |payload| >= 60
    ensures var out := Step3Extension(payload).value;
      out[28..32] == Crib && forall p :: 32 <= p < 60 ==> out[p] == Equals
  {
    var out := Step3Extension(payload).value;
    forall p | 28 <= p < 60 ensures out[p] == Guess(p) {
      KeyMatchesGuess(payload, p);
      XorCancel(payload[p], Guess(p));
    }
  }

  lemma XorCancel(a: bv8, g: bv8)
    ensures a ^ (a ^ g) == g
  {
  }

  /** The attack works: a plaintext that does hold the guess at 28 to 59, encrypted under any
      32-byte repeating key, is decrypted back to itself. */
  lemma RecoversPlaintext(plain: seq<bv8>, key: seq<bv8>)
    requires |key| == 32 && |plain| >= 60
    requires plain[28..32] == Crib && forall p :: 32 <= p < 60 ==> plain[p] == Equals
    ensures Step3Extension(CyclicXor(plain, key)) == Ok(plain)
  {
    var cipher := CyclicXor(plain, key);
    forall j | 0 <= j < 32 ensures Key(cipher)[j] == key[j] {
      KeyEntryOfCipher(plain, key, j);
    }
    assert Key(cipher) == key;
    CyclicXorTwice(plain, key);
  }

  lemma KeyEntryOfCipher(plain: seq<bv8>, key: seq<bv8>, j: nat)
    requires |key| == 32 && |plain| >= 60 && j < 32
    requires plain[28..32] == Crib && forall p :: 32 <= p < 60 ==> plain[p] == Equals
    ensures Key(CyclicXor(plain, key))[j] == key[j]
  {
    var p := if j < 28 then j + 32 else j;
    assert p % 32 == j;
    assert plain[p] == Guess(p) by {
      if p < 32 {
        assert plain[p] == plain[28..32][p - 28];
      }
    }
    XorCommuteCancel(plain[p], key[j]);
  }

  lemma XorCommuteCancel(a: bv8, k: bv8)
    ensures (a ^ k) ^ a == k
  {
  }

  /** `run_step`: decode the Ascii85 text, then apply the layer. */
  function RunStep(payload: seq<bv8>): (r: Result<seq<bv8>, Step3Error>)
    ensures Base85.Decoded(payload).Err? ==> r == Err(Undecodable(Base85.Decoded(payload).error))
    ensures Base85.Decoded(payload).Ok? ==> r == Step3Extension(Base85.Decoded(payload).value)
  {
    match Base85.Decoded(payload)
    case Err(e) => Err(Undecodable(e))
    case Ok(decoded) => Step3Extension(decoded)
  }

  // ---------------------------------------------------------------------
  // The layer as the source runs it

  /** The two push loops and the rotation that build the key. */
  method RecoverKey(payload: seq<bv8>) returns (key: seq<bv8>)
    requires |payload| >= 60
    ensures key == Key(payload)
  {
    key := [];
    for j := 0 to 4
      invariant |key| == j
      invariant forall t :: 0 <= t < j ==> key[t] == payload[28 + t] ^ Crib[t]
    {
      key := key + [payload[28 + j] ^ Crib[j]];
    }
    for j := 0 to 28
      invariant |key| == 4 + j
      invariant forall t :: 0 <= t < 4 ==> key[t] == payload[28 + t] ^ Crib[t]
      invariant forall t :: 4 <= t < 4 + j ==> key[t] == payload[28 + t] ^ Equals
    {
      key := key + [payload[32 + j] ^ Equals];
    }
    RotatedKey(payload, key);
    key := key[4..] + key[..4];
  }

  /** `rotate_left(4)` of the pushed bytes puts the entry for position p at p mod 32. */
  lemma RotatedKey(payload: seq<bv8>, pushed: seq<bv8>)
    requires |payload| >= 60 && |pushed| == 32
    requires forall t :: 0 <= t < 4 ==> pushed[t] == payload[28 + t] ^ Crib[t]
    requires forall t :: 4 <= t < 32 ==> pushed[t] == payload[28 + t] ^ Equals
    ensures pushed[4..] + pushed[..4] == Key(payload)
  {
    var key := pushed[4..] + pushed[..4];
    forall j | 0 <= j < 32 ensures key[j] == Key(payload)[j] {
      if j < 28 {
        assert key[j] == pushed[j + 4];
        assert Guess(j + 32) == Equals;
      } else {
        assert key[j] == pushed[j - 28];
        assert Guess(j) == Crib[j - 28];
      }
    }
  }

  /** `step3_extension`: recover the key, or fail as the slicing does on a short payload. */
  method Decrypt(payload: seq<bv8>) returns (r: Result<seq<bv8>, Step3Error>)
    ensures r == Step3Extension(payload)
  {
    if |payload| < 60 {
      return Err(TooShort(|payload|));
    }
    var key := RecoverKey(payload);
    r := Ok(CyclicXor(payload, key));
  }
}
