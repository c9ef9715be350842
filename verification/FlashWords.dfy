/** Bytes and words as NOR flash sees them: bits that programming can clear and erasing sets. */
module FlashWords {
  datatype Byte = Byte(d7: bool, d6: bool, d5: bool, d4: bool, d3: bool, d2: bool, d1: bool, d0: bool)

  const ALL_ONES := Byte(true, true, true, true, true, true, true, true)

  const ALL_ZEROS := Byte(false, false, false, false, false, false, false, false)

  /** Bitwise AND, the effect of programming `y` over `x`. */
  function And(x: Byte, y: Byte): Byte {
    Byte(x.d7 && y.d7, x.d6 && y.d6, x.d5 && y.d5, x.d4 && y.d4,
         x.d3 && y.d3, x.d2 && y.d2, x.d1 && y.d1, x.d0 && y.d0)
  }

  lemma OnesAreNeutral(x: Byte)
    ensures And(x, ALL_ONES) == x
  {
  }

  lemma OnesAreLeftNeutral(x: Byte)
    ensures And(ALL_ONES, x) == x
  {
  }

  /** Bit number `k`, counted from the lowest. */
  function Bit(x: Byte, k: nat): bool
    requires k < 8
  {
    if k == 0 then x.d0 else if k == 1 then x.d1 else if k == 2 then x.d2 else if k == 3 then x.d3
    else if k == 4 then x.d4 else if k == 5 then x.d5 else if k == 6 then x.d6 else x.d7
  }

  /** AND acts on each bit alone: a bit stays set exactly when both have it set. */
  lemma AndBit(x: Byte, y: Byte, k: nat)
    requires k < 8
    ensures Bit(And(x, y), k) <==> Bit(x, k) && Bit(y, k)
    ensures Bit(ALL_ONES, k)
  {
  }

  /** A byte is its eight bits. */
  lemma SameBits(x: Byte, y: Byte)
    ensures x == y <==> forall k :: 0 <= k < 8 ==> Bit(x, k) == Bit(y, k)
  {
    if x != y {
      var k := if x.d0 != y.d0 then 0 else if x.d1 != y.d1 then 1 else if x.d2 != y.d2 then 2
        else if x.d3 != y.d3 then 3 else if x.d4 != y.d4 then 4 else if x.d5 != y.d5 then 5
        else if x.d6 != y.d6 then 6 else 7;
      assert Bit(x, k) != Bit(y, k);
    }
  }

  /** AND leaves `x` as it is exactly when every bit set in `x` is set in `y`. */
  lemma AndKeeps(x: Byte, y: Byte)
    ensures And(x, y) == x <==> forall k :: 0 <= k < 8 ==> Bit(x, k) ==> Bit(y, k)
  {
    forall k | 0 <= k < 8
      ensures Bit(And(x, y), k) <==> Bit(x, k) && Bit(y, k)
    {
      AndBit(x, y, k);
    }
    SameBits(And(x, y), x);
  }

  /** A 32-bit word is four byte lanes, lowest address first; AND acts on each lane alone. */
  datatype Word = Word(b0: Byte, b1: Byte, b2: Byte, b3: Byte) {
    function Lane(k: nat): Byte
      requires k < 4
    {
      if k == 0 then b0 else if k == 1 then b1 else if k == 2 then b2 else b3
    }

    function AndWord(v: Word): Word {
      Word(And(b0, v.b0), And(b1, v.b1), And(b2, v.b2), And(b3, v.b3))
    }
  }

  const ERASED_WORD := Word(ALL_ONES, ALL_ONES, ALL_ONES, ALL_ONES)

  function Pack(b: seq<Byte>): Word
    requires |b| == 4
  {
    Word(b[0], b[1], b[2], b[3])
  }

  function Lanes(w: Word): (b: seq<Byte>)
    ensures |b| == 4 && forall k :: 0 <= k < 4 ==> b[k] == w.Lane(k)
  {
    [w.b0, w.b1, w.b2, w.b3]
  }

  lemma LanesOfPack(b: seq<Byte>)
    requires |b| == 4
    ensures Lanes(Pack(b)) == b
  {
  }

  function ByteAt(words: seq<Word>, j: nat): Byte
    requires j < 4 * |words|
  {
    words[j / 4].Lane(j % 4)
  }

  /** `mem` is the byte image of the words. */
  ghost predicate Mirrors(words: seq<Word>, mem: seq<Byte>) {
    && |mem| == 4 * |words|
    && forall j {:trigger ByteAt(words, j)} :: 0 <= j < |mem| ==> mem[j] == ByteAt(words, j)
  }

  ghost function Image(words: seq<Word>): (m: seq<Byte>)
    ensures Mirrors(words, m)
  {
    seq(4 * |words|, j requires 0 <= j < 4 * |words| => ByteAt(words, j))
  }
}
