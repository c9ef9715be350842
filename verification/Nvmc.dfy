/** The environment of the flash driver: the flash array, the rest of the address space as the CPU
    reads it, and the three nrfx_nvmc calls the driver makes. Their code is not in the repository;
    what is assumed of them is exactly what the contracts below say. */
module NvmcDevice {
  import opened Arithmetic32
  import opened FlashLayout
  import opened FlashWords
  import opened NorMemory

  /** What the driver does not control: whether the n-th page erase on a flash page succeeds, and what
      a load from outside the flash returns. */
  datatype Environment = Environment(eraseSucceeds: int -> bool, outside: int -> Byte)

  /** Flash contents and the number of page erases attempted on it so far. */
  datatype Flash = Flash(mem: seq<Byte>, attempts: nat)

  /** `len` bytes from `addr` on were loaded, programmed or erased in one go. */
  datatype Access = Access(addr: u32, len: nat)

  /** `n` byte accesses, and `n` word accesses, at consecutive addresses. */
  ghost function ByteAccesses(addr: u32, n: nat): seq<Access>
    requires n <= MODULUS
  {
    if n == 0 then [] else ByteAccesses(addr, n - 1) + [Access(Add(addr, n - 1), 1)]
  }

  ghost function WordAccesses(addr: u32, n: nat): seq<Access>
    requires 4 * n <= MODULUS
  {
    if n == 0 then [] else WordAccesses(addr, n - 1) + [Access(Add(addr, 4 * (n - 1)), 4)]
  }

  ghost predicate WellFormed(s: Flash) {
    |s.mem| == MCU_FLASH_SIZE
  }

  /** One load through the memory bus. */
  function Load(env: Environment, mem: seq<Byte>, a: u32): Byte
    requires |mem| == MCU_FLASH_SIZE
  {
    if a < MCU_FLASH_SIZE then mem[a] else env.outside(a)
  }

  /** Byte `j` lies in the word at `a` exactly when it is less than four bytes above it. */
  lemma SameWord(a: u32, j: u32)
    requires a % 4 == 0 && j < MCU_FLASH_SIZE
    ensures Sub(j, a) < 4 <==> a / 4 == j / 4
    ensures Sub(j, a) < 4 ==> Sub(j, a) == j % 4
  {
  }

  function WordStored(words: seq<Word>, a: u32, v: Word): seq<Word>
    requires |words| == WORDS && a % 4 == 0
  {
    if a < MCU_FLASH_SIZE then words[a / 4 := words[a / 4].AndWord(v)] else words
  }

  /** Programming one word changes the byte image as `Programmed` says. */
  lemma StoreMirrors(words: seq<Word>, mem: seq<Byte>, a: u32, v: Word)
    requires |words| == WORDS && a % 4 == 0 && Mirrors(words, mem)
    ensures Mirrors(WordStored(words, a, v), Programmed(mem, a, Lanes(v)))
  {
    forall j | 0 <= j < MCU_FLASH_SIZE
      ensures Programmed(mem, a, Lanes(v))[j] == ByteAt(WordStored(words, a, v), j)
    {
      SameWord(a, j);
      assert mem[j] == ByteAt(words, j);
    }
  }

  function PageOfOnes(words: seq<Word>, a: u32): (r: seq<Word>)
    requires |words| == WORDS && a % MCU_FLASH_PAGE_SIZE == 0 && a < MCU_FLASH_SIZE
    ensures |r| == WORDS
  {
    words[..a / 4] + seq(MCU_FLASH_PAGE_SIZE / 4, _ => ERASED_WORD) + words[a / 4 + MCU_FLASH_PAGE_SIZE / 4..]
  }

  /** A word lies in a page exactly when its bytes do. */
  lemma SamePage(a: nat, j: nat)
    requires a % MCU_FLASH_PAGE_SIZE == 0
    ensures a <= j < a + MCU_FLASH_PAGE_SIZE <==> a / 4 <= j / 4 < a / 4 + MCU_FLASH_PAGE_SIZE / 4
  {
    var page := a / MCU_FLASH_PAGE_SIZE;
    assert a == 0x1000 * page && a / 4 == 0x400 * page;
    WordOfPage(page, j / 4, j % 4);
  }

  lemma WordOfPage(page: nat, w: nat, k: nat)
    requires k < 4
    ensures 0x1000 * page <= 4 * w + k < 0x1000 * page + 0x1000 <==> 0x400 * page <= w < 0x400 * page + 0x400
  {
  }

  lemma ErasedWord(words: seq<Word>, a: u32, w: nat)
    requires |words| == WORDS && a % MCU_FLASH_PAGE_SIZE == 0 && a < MCU_FLASH_SIZE && w < WORDS
    ensures PageOfOnes(words, a)[w]
            == if a / 4 <= w < a / 4 + MCU_FLASH_PAGE_SIZE / 4 then ERASED_WORD else words[w]
  {
  }

  lemma EraseMirrors(words: seq<Word>, mem: seq<Byte>, a: u32)
    requires |words| == WORDS && a % MCU_FLASH_PAGE_SIZE == 0 && a < MCU_FLASH_SIZE && Mirrors(words, mem)
    ensures Mirrors(PageOfOnes(words, a), Erased(mem, a, a + MCU_FLASH_PAGE_SIZE))
  {
    var words', mem' := PageOfOnes(words, a), Erased(mem, a, a + MCU_FLASH_PAGE_SIZE);
    forall j | 0 <= j < MCU_FLASH_SIZE
      ensures mem'[j] == ByteAt(words', j)
    {
      SamePage(a, j);
      ErasedWord(words, a, j / 4);
      assert mem[j] == ByteAt(words, j);
    }
  }

  lemma NextWord(m: seq<Byte>, a: u32, src: seq<Byte>, i: nat)
    requires |m| <= MODULUS && i + 4 <= |src| < MODULUS
    ensures Programmed(Programmed(m, a, src[..i]), Add(a, i), Lanes(Pack(src[i..i + 4])))
            == Programmed(m, a, src[..i + 4])
  {
    LanesOfPack(src[i..i + 4]);
    ProgrammedPrefix(m, a, src, i, 4);
  }

  /** The value stored for the bytes that do not fill a word. */
  function PartialWord(rest: seq<Byte>): Word
    requires |rest| < 4
  {
    Pack(Padded(rest, 4 - |rest|))
  }

  lemma LastPartialWord(m: seq<Byte>, a: u32, src: seq<Byte>, whole: nat)
    requires |m| <= MODULUS && |src| < MODULUS && a % 4 == 0 && whole <= |src| < whole + 4
    ensures Programmed(Programmed(m, a, src[..whole]), Add(a, whole), Lanes(PartialWord(src[whole..])))
            == Programmed(m, a, src)
  {
    var rest := src[whole..];
    LanesOfPack(Padded(rest, 4 - |rest|));
    PaddingProgramsNothing(Programmed(m, a, src[..whole]), Add(a, whole), rest, 4 - |rest|);
    ProgrammedPrefix(m, a, src, whole, |rest|);
    assert src[whole..whole + |rest|] == rest && src[..whole + |rest|] == src;
  }

  class Nvmc {
    const env: Environment
    /** The flash array; the CPU reaches it only through the methods below. */
    var words: seq<Word>
    var attempts: nat
    /** The byte image of `words`. */
    ghost var mem: seq<Byte>
    /** Every bus access the driver has caused, oldest first. */
    ghost var trace: seq<Access>

    ghost predicate Valid()
      reads this
      ensures Valid() ==> |mem| == MCU_FLASH_SIZE
    {
      |words| == WORDS && Mirrors(words, mem)
    }

    ghost function State(): Flash
      reads this
    {
      Flash(mem, attempts)
    }

    constructor (contents: seq<Word>, env: Environment)
      requires |contents| == WORDS
      ensures Valid() && State() == Flash(Image(contents), 0) && trace == []
      ensures this.env == env
    {
      this.env := env;
      words := contents;
      attempts := 0;
      mem := Image(contents);
      trace := [];
    }

    /** A byte load at any address. */
    method LoadByte(a: u32) returns (b: Byte)
      requires Valid()
      modifies this`trace
      ensures Valid()
      ensures b == Load(env, mem, a)
      ensures trace == old(trace) + [Access(a, 1)]
    {
      if a < MCU_FLASH_SIZE {
        b := ByteAt(words, a);
      } else {
        b := env.outside(a);
      }
      trace := trace + [Access(a, 1)];
    }

    /** The write primitive of the controller: a word of flash keeps the bits both values have set. */
    method StoreWord(a: u32, v: Word)
      requires Valid() && a % 4 == 0
      modifies this`words, this`mem, this`trace
      ensures Valid()
      ensures mem == Programmed(old(mem), a, Lanes(v))
      ensures trace == old(trace) + [Access(a, 4)]
    {
      StoreMirrors(words, mem, a, v);
      if a < MCU_FLASH_SIZE {
        words := words[a / 4 := words[a / 4].AndWord(v)];
      }
      mem := Programmed(mem, a, Lanes(v));
      trace := trace + [Access(a, 4)];
    }

    /** nrfx_nvmc_words_write: `n` whole words. */
    method WordsWrite(a: u32, src: seq<Byte>, n: nat)
      requires Valid() && a % 4 == 0 && 4 * n == |src| < MODULUS
      modifies this`words, this`mem, this`trace
      ensures Valid()
      ensures mem == Programmed(old(mem), a, src)
      ensures trace == old(trace) + WordAccesses(a, n)
    {
      for i := 0 to n
        invariant Valid()
        invariant mem == Programmed(old(mem), a, src[..4 * i])
        invariant trace == old(trace) + WordAccesses(a, i)
      {
        NextWord(old(mem), a, src, 4 * i);
        StoreWord(Add(a, 4 * i), Pack(src[4 * i..4 * i + 4]));
      }
      assert src[..4 * n] == src;
    }

    /** nrfx_nvmc_bytes_write from a word boundary: whole words, then one word padded with ones. */
    method BytesWrite(a: u32, src: seq<Byte>)
      requires Valid() && a % 4 == 0 && |src| < MODULUS
      modifies this`words, this`mem, this`trace
      ensures Valid()
      ensures mem == Programmed(old(mem), a, src)
      ensures trace == old(trace) + WordAccesses(a, WordCount(|src|))
    {
      var whole := |src| / 4;
      WordsWrite(a, src[..4 * whole], whole);
      if 4 * whole < |src| {
        LastPartialWord(old(mem), a, src, 4 * whole);
        StoreWord(Add(a, 4 * whole), PartialWord(src[4 * whole..]));
      } else {
        assert src[..4 * whole] == src;
      }
    }

    /** nrfx_nvmc_page_erase: sets one page to ones or fails and changes nothing. An address outside
        the flash is refused. */
    method PageErase(a: u32) returns (success: bool)
      requires Valid() && a % MCU_FLASH_PAGE_SIZE == 0
      modifies this`words, this`mem, this`attempts, this`trace
      ensures Valid() && trace == old(trace) + [Access(a, MCU_FLASH_PAGE_SIZE)]
      ensures success <==> a < MCU_FLASH_SIZE && env.eraseSucceeds(old(attempts))
      ensures attempts == old(attempts) + if a < MCU_FLASH_SIZE then 1 else 0
      ensures mem == if success then Erased(old(mem), a, a + MCU_FLASH_PAGE_SIZE) else old(mem)
    {
      trace := trace + [Access(a, MCU_FLASH_PAGE_SIZE)];
      success := false;
      if a < MCU_FLASH_SIZE {
        success := env.eraseSucceeds(attempts);
        attempts := attempts + 1;
        if success {
          EraseMirrors(words, mem, a);
          words := PageOfOnes(words, a);
          mem := Erased(mem, a, a + MCU_FLASH_PAGE_SIZE);
        }
      }
    }
  }
}
