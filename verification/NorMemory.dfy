/** NOR flash contents as a byte sequence: programming can only clear bits, erasing sets them. */
module NorMemory {
  import opened Arithmetic32
  import opened FlashWords

  /** Contents after programming `data` from address `addr` on. Addresses run round the 32-bit space;
      the ones beyond `|m|` are not flash and change nothing here. */
  ghost function Programmed(m: seq<Byte>, addr: u32, data: seq<Byte>): (r: seq<Byte>)
    requires |m| <= MODULUS
    ensures |r| == |m|
  {
    seq(|m|, j requires 0 <= j < |m| =>
      if Sub(j, addr) < |data| then And(m[j], data[Sub(j, addr)]) else m[j])
  }

  /** Contents after the bytes of `[lo, hi)` are erased. */
  ghost function Erased(m: seq<Byte>, lo: int, hi: int): (r: seq<Byte>)
    ensures |r| == |m|
  {
    seq(|m|, j requires 0 <= j < |m| => if lo <= j < hi then ALL_ONES else m[j])
  }

  lemma ErasedExtends(m: seq<Byte>, lo: int, mid: int, hi: int)
    requires lo <= mid <= hi
    ensures Erased(Erased(m, lo, mid), mid, hi) == Erased(m, lo, hi)
  {
  }

  /** Programming in two consecutive pieces is programming once. */
  lemma ProgrammedSplits(m: seq<Byte>, addr: u32, x: seq<Byte>, y: seq<Byte>)
    requires |m| <= MODULUS && |x| < MODULUS && |x| + |y| <= MODULUS
    ensures Programmed(Programmed(m, addr, x), Add(addr, |x|), y) == Programmed(m, addr, x + y)
  {
    var once := Programmed(m, addr, x);
    var twice := Programmed(once, Add(addr, |x|), y);
    forall j | 0 <= j < |m|
      ensures twice[j] == Programmed(m, addr, x + y)[j]
    {
      if Sub(j, addr) >= |x| {
        assert Sub(j, Add(addr, |x|)) == Sub(j, addr) - |x|;
      } else {
        assert Sub(j, Add(addr, |x|)) >= |y|;
      }
    }
  }

  /** One more piece of a longer buffer. */
  lemma ProgrammedPrefix(m: seq<Byte>, addr: u32, data: seq<Byte>, i: nat, k: nat)
    requires |m| <= MODULUS && i < MODULUS && i + k <= |data| <= MODULUS
    ensures Programmed(Programmed(m, addr, data[..i]), Add(addr, i), data[i..i + k])
            == Programmed(m, addr, data[..i + k])
  {
    ProgrammedSplits(m, addr, data[..i], data[i..i + k]);
    assert data[..i] + data[i..i + k] == data[..i + k];
  }

  function Padded(data: seq<Byte>, pad: nat): (r: seq<Byte>)
    ensures |r| == |data| + pad
    ensures forall k :: 0 <= k < |r| ==> r[k] == if k < |data| then data[k] else ALL_ONES
  {
    if pad == 0 then data else Padded(data, pad - 1) + [ALL_ONES]
  }

  /** The unused bytes of a partial word are padded with ones, which program nothing. */
  lemma PaddingProgramsNothing(m: seq<Byte>, addr: u32, data: seq<Byte>, pad: nat)
    requires |m| <= MODULUS && |data| + pad <= MODULUS
    ensures Programmed(m, addr, Padded(data, pad)) == Programmed(m, addr, data)
  {
    forall j | 0 <= j < |m|
      ensures Programmed(m, addr, Padded(data, pad))[j] == Programmed(m, addr, data)[j]
    {
      OnesAreNeutral(m[j]);
    }
  }
}
