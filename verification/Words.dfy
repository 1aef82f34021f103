/** The 64-bit words in which the C and C++ code counts. */
module Words {
  const WORD_LIMIT: nat := 0x1_0000_0000_0000_0000

  type Word = n: nat | n < WORD_LIMIT

  function Wrap(n: int): Word {
    n % WORD_LIMIT
  }

  lemma WrapTwice(a: int, b: int)
    ensures Wrap(Wrap(a) + b) == Wrap(a + b) && Wrap(Wrap(a) - b) == Wrap(a - b)
  {
    WrapIs(Wrap(a) + b, (a + b) / WORD_LIMIT - a / WORD_LIMIT, Wrap(a + b));
    WrapIs(Wrap(a) - b, (a - b) / WORD_LIMIT - a / WORD_LIMIT, Wrap(a - b));
  }

  lemma WrapIs(n: int, k: int, r: Word)
    requires n == k * WORD_LIMIT + r
    ensures Wrap(n) == r
  {
  }

  lemma WrapFits(n: int)
    ensures Wrap(n) == n <==> 0 <= n < WORD_LIMIT
  {
  }

  /** Sums and differences of two words wrap around once at most. */
  lemma WrapOnce(n: int)
    requires 0 <= n + WORD_LIMIT < 3 * WORD_LIMIT
    ensures Wrap(n) == if n < 0 then n + WORD_LIMIT else if n < WORD_LIMIT then n else n - WORD_LIMIT
  {
    if n < 0 { WrapIs(n, -1, n + WORD_LIMIT); }
    else if n < WORD_LIMIT { WrapIs(n, 0, n); }
    else { WrapIs(n, 1, n - WORD_LIMIT); }
  }

  /** A word that is raised past the limit ends up below what it was raised by. */
  lemma WrapIsLow(a: Word, b: Word)
    ensures a + b >= WORD_LIMIT <==> Wrap(a + b) != a + b
    ensures a + b >= WORD_LIMIT ==> Wrap(a + b) == a + b - WORD_LIMIT < b
  {
  }
}
