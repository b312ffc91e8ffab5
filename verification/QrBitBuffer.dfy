/** The bit buffer of the QR encoder and the numbers that are written to it, the highest bit first. */
module QrBitBuffer {
  import opened Outcomes
  import opened Bits

  /** `len` bits of `val`, highest first. */
  function BitsOf(val: nat, len: nat): (bits: seq<bool>)
    ensures |bits| == len
  {
    if len == 0 then [] else BitsOf(val / 2, len - 1) + [val % 2 == 1]
  }

  /** The number that the bits spell, highest first. */
  function NumberOf(bits: seq<bool>): nat {
    if bits == [] then 0 else 2 * NumberOf(bits[..|bits| - 1]) + if bits[|bits| - 1] then 1 else 0
  }

  lemma {:induction false} NumberOfBitsOf(val: nat, len: nat)
    requires val < Pow2(len)
    ensures NumberOf(BitsOf(val, len)) == val
  {
    if len != 0 {
      NumberOfBitsOf(val / 2, len - 1);
      assert BitsOf(val, len)[..len - 1] == BitsOf(val / 2, len - 1);
    }
  }

  lemma {:induction false} BitsOfNumberOf(bits: seq<bool>)
    ensures NumberOf(bits) < Pow2(|bits|)
    ensures BitsOf(NumberOf(bits), |bits|) == bits
  {
    if bits != [] {
      BitsOfNumberOf(bits[..|bits| - 1]);
    }
  }

  lemma {:induction false} ShrBelowPow2(x: nat, len: nat)
    ensures x < Pow2(len) <==> Shr(x, len) == 0
  {
    if len != 0 {
      ShrHalf(x, len - 1);
      ShrBelowPow2(x / 2, len - 1);
    }
  }

  // The bits from i up, followed by bit i - 1 and so on, are all the bits.
  lemma BitsOfStep(val: nat, len: nat, i: nat)
    requires i < len
    ensures BitsOf(Shr(val, i), len - i) == BitsOf(Shr(val, i + 1), len - i - 1) + [Bit(val, i) == 1]
  {
  }

  class BitBuffer {
    var bits: seq<bool>

    constructor ()
      ensures bits == []
    {
      bits := [];
    }

    /** Appends `len` bits of a `uint32_t`; a number that does not fit is refused. */
    method AppendBits(val: nat, len: int) returns (r: Result<()>)
      modifies this
      ensures r == if 0 <= len <= 31 && val < Pow2(len) then Ok(()) else Err(DomainError)
      ensures bits == if r.Ok? then old(bits) + BitsOf(val, len) else old(bits)
    {
      if len < 0 || len > 31 {
        return Err(DomainError);
      }
      ShrBelowPow2(val, len);
      if Shr(val, len) != 0 {
        return Err(DomainError);
      }
      var i := len - 1;
      while i >= 0
        invariant -1 <= i < len
        invariant bits == old(bits) + BitsOf(Shr(val, i + 1), len - 1 - i)
      {
        BitsOfStep(val, len, i);
        bits := bits + [Bit(val, i) != 0];
        i := i - 1;
      }
      r := Ok(());
    }
  }
}
