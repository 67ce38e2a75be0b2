/** Layer 1 of src/steps/step1.rs: every byte is XOR-ed with 0x55 and rotated right by one bit. */
module Step1 {
  import opened Bytes
  import Base85

  /** The map applied to each byte. */
  function Flip(b: bv8): bv8
  {
    (b ^ 0x55).RotateRight(1)
  }

  /** Its inverse: rotate left by one, then XOR with 0x55. */
  function Unflip(b: bv8): bv8
  {
    b.RotateLeft(1) ^ 0x55
  }

  /** `step1_extension`: one output byte per input byte, each depending on that byte alone. */
  function Step1Extension(payload: seq<bv8>): (out: seq<bv8>)
    ensures |out| == |payload|
    ensures forall i :: 0 <= i < |payload| ==> out[i] == Flip(payload[i])
  {
    seq(|payload|, i requires 0 <= i < |payload| => Flip(payload[i]))
  }

  /** The inverse layer. */
  function Step1Inverse(data: seq<bv8>): (out: seq<bv8>)
    ensures |out| == |data|
    ensures forall i :: 0 <= i < |data| ==> out[i] == Unflip(data[i])
  {
    seq(|data|, i requires 0 <= i < |data| => Unflip(data[i]))
  }

  /** Rotating right by one moves bit 0 to bit 7 and every other bit down by one. */
  lemma RotateRightOne(x: bv8)
    ensures x.RotateRight(1) == (x >> 1) | (x << 7)
  {
  }

  /** Bit k of the output is bit k + 1 (bit 0 for k = 7) of the input, flipped where 0x55 has a one. */
  lemma FlipBits(b: bv8, k: nat)
    requires k < 8
    ensures (Flip(b) >> k) & 1 == ((b ^ 0x55) >> ((k + 1) % 8)) & 1
  {
  }

  lemma FlipUnflip(b: bv8)
    ensures Unflip(Flip(b)) == b && Flip(Unflip(b)) == b
  {
  }

  /** The layer is a bijection on byte strings: the inverse undoes it from either side. */
  lemma Step1RoundTrip(s: seq<bv8>)
    ensures Step1Inverse(Step1Extension(s)) == s
    ensures Step1Extension(Step1Inverse(s)) == s
  {
    forall i | 0 <= i < |s| ensures Step1Inverse(Step1Extension(s))[i] == s[i] && Step1Extension(Step1Inverse(s))[i] == s[i] {
      FlipUnflip(s[i]);
    }
  }

  /** Being a map, the layer works piece by piece. */
  lemma Step1Concat(a: seq<bv8>, b: seq<bv8>)
    ensures Step1Extension(a + b) == Step1Extension(a) + Step1Extension(b)
  {
  }

  /** `run_step`: decode the Ascii85 text, then apply the layer. */
  function RunStep(payload: seq<bv8>): (r: Result<seq<bv8>, Base85.Base85Error>)
    ensures r.Ok? <==> Base85.Decoded(payload).Ok?
    ensures r.Ok? ==> r.value == Step1Extension(Base85.Decoded(payload).value)
  {
    var decoded :- Base85.Decoded(payload);
    Ok(Step1Extension(decoded))
  }
}
