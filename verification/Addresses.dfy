/** Arithmetic on uintptr_t, whose width is that of a word. */
module Addresses {
  import opened Bytes

  /** Conversion of an integer to uintptr_t. */
  function Trunc(x: int): (r: nat)
    ensures r < WORD_MOD
  {
    x % WORD_MOD
  }

  lemma TruncSmall(x: nat)
    requires x < WORD_MOD
    ensures Trunc(x) == x
  {
  }

  lemma TruncShift(x: int, q: int)
    ensures Trunc(x + WORD_MOD * q) == Trunc(x)
  {
    if BYTE_PER_WORD == 4 {
      assert (x + 0x1_0000_0000 * q) % 0x1_0000_0000 == x % 0x1_0000_0000;
    } else {
      assert (x + 0x1_0000_0000_0000_0000 * q) % 0x1_0000_0000_0000_0000 == x % 0x1_0000_0000_0000_0000;
    }
  }

  /** Truncating the operands first makes no difference. */
  lemma TruncSum(x: int, y: int)
    ensures Trunc(Trunc(x) + y) == Trunc(x + y)
    ensures Trunc(y - Trunc(x)) == Trunc(y - x)
  {
    TruncSplit(x);
    TruncShift(Trunc(x) + y, x / WORD_MOD);
    TruncShift(y - Trunc(x), -(x / WORD_MOD));
  }

  lemma TruncSplit(x: int)
    ensures x == Trunc(x) + WORD_MOD * (x / WORD_MOD)
  {
  }

  /** Truncation from uint64_t to uintptr_t keeps sums, because the one width divides the other. */
  lemma TruncOfU64(x: int)
    ensures Trunc(x % U64_MOD) == Trunc(x)
  {
    assert x == x % U64_MOD + U64_MOD * (x / U64_MOD);
    TruncShift(x % U64_MOD, U64_MOD / WORD_MOD * (x / U64_MOD));
  }
}
