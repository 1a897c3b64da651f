/** Remainders, and 32-bit words. */
module Words {
  const WORD := 0x1_0000_0000

  lemma WholeWords(x: int, q: int)
    ensures (x + q * WORD) % WORD == x % WORD
  {
  }

  /** A remainder is what is left when a multiple is taken away. */
  lemma RemainderIs(x: nat, size: nat, q: nat, r: nat)
    requires r < size && x == q * size + r
    ensures x % size == r
  {
    var q', r' := x / size, x % size;
    assert x == q' * size + r';
    if q < q' {
      assert (q' - q) * size == r - r';
      Multiples(q' - q, size);
    } else if q' < q {
      assert (q - q') * size == r' - r;
      Multiples(q - q', size);
    }
  }

  lemma Multiples(k: nat, size: nat)
    requires k > 0
    ensures size <= k * size
  {
    assert k * size == size + (k - 1) * size;
  }

  lemma OneMore(x: nat, size: nat)
    requires size > 0
    ensures (x + size) % size == x % size
  {
    var q, r := x / size, x % size;
    assert x + size == (q + 1) * size + r;
    RemainderIs(x + size, size, q + 1, r);
  }

  /** The low byte of a number, and what is above it. */
  lemma LowByte(high: nat, low: nat)
    requires low < 256
    ensures (high * 256 + low) % 256 == low && (high * 256 + low) / 256 == high
  {
  }

  /** The quotients of a number of four bytes. */
  lemma FourBytes(v: nat, a: nat, b: nat, c: nat, d: nat)
    requires b < 256 && c < 256 && d < 256 && v == 0x100_0000 * a + 0x1_0000 * b + 0x100 * c + d
    ensures v / 0x100 == 0x1_0000 * a + 0x100 * b + c && v / 0x1_0000 == 0x100 * a + b && v / 0x100_0000 == a
  {
    QuotientIs(v, 0x100, 0x1_0000 * a + 0x100 * b + c, d);
    QuotientIs(v, 0x1_0000, 0x100 * a + b, 0x100 * c + d);
    QuotientIs(v, 0x100_0000, a, 0x1_0000 * b + 0x100 * c + d);
  }

  lemma QuotientIs(x: nat, size: nat, q: nat, r: nat)
    requires r < size && x == q * size + r
    ensures x / size == q
  {
    RemainderIs(x, size, q, r);
    var q' := x / size;
    assert (q' - q) * size == 0;
  }
}
