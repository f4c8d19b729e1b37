/** Machine integers: the 32-bit `size_t` and `physaddr` of the kernel, and bytes. */
module Words {
  const WORD_LIMIT := 0x1_0000_0000
  const PAGE_SIZE := 0x1000

  type Word = x: int | 0 <= x < 0x1_0000_0000
  type Byte = x: int | 0 <= x < 0x100

  /** Unsigned 32-bit arithmetic drops everything above bit 31. */
  function Wrap(x: int): Word {
    x % WORD_LIMIT
  }

  /** The kernel's `-1` as an unsigned 32-bit value: "no block", "no page". */
  const NONE: Word := 0xFFFF_FFFF

  lemma WrapAdd(a: int, b: int)
    ensures Wrap(a + Wrap(b)) == Wrap(a + b)
  {
    var q := b / WORD_LIMIT;
    assert a + b == (a + Wrap(b)) + q * WORD_LIMIT;
    WrapMany(a + Wrap(b), q);
  }

  lemma {:induction false} WrapMany(x: int, q: int)
    ensures Wrap(x + q * WORD_LIMIT) == Wrap(x)
    decreases if q < 0 then -q else q
  {
    if q > 0 {
      WrapMany(x, q - 1);
      assert x + q * WORD_LIMIT == (x + (q - 1) * WORD_LIMIT) + WORD_LIMIT;
    } else if q < 0 {
      WrapMany(x, q + 1);
      assert x + q * WORD_LIMIT == (x + (q + 1) * WORD_LIMIT) - WORD_LIMIT;
    }
  }
}
