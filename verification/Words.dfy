// Machine words, and the arithmetic the other modules share.

module Words {
  const U32 := 0x1_0000_0000

  /** A 32-bit word as a number. */
  type u32 = v: int | 0 <= v < 0x1_0000_0000

  /** A byte as a number. */
  type byte = b: int | 0 <= b < 256

  /** The range of a C int. */
  predicate Int32(v: int) {
    -0x8000_0000 <= v < 0x8000_0000
  }

  /** The range of an int64_t. */
  predicate Int64(v: int) {
    -0x8000_0000_0000_0000 <= v < 0x8000_0000_0000_0000
  }

  datatype Option<T> = None | Some(value: T)

  function Min(a: int, b: int): int {
    if a < b then a else b
  }

  function Max(a: int, b: int): int {
    if a < b then b else a
  }

  lemma Small(x: nat, n: nat)
    requires x < n
    ensures x % n == x
  {
  }

  lemma {:induction false} MulGap(p: int, q: int, b: int)
    requires b >= 0
    ensures p < q ==> p * b + b <= q * b
    decreases q - p
  {
    if p < q - 1 {
      MulGap(p, q - 1, b);
      assert (q - 1) * b == q * b - b;
    }
  }

  /** q is the quotient exactly when a is within one divisor above q * b. */
  lemma DivExactly(a: int, b: int, q: int)
    requires b > 0
    ensures q == a / b <==> q * b <= a < q * b + b
  {
    if q * b <= a < q * b + b { DivIs(a, b, q); }
  }

  lemma DivIs(a: int, b: int, q: int)
    requires b > 0 && q * b <= a < q * b + b
    ensures a / b == q
  {
    MulGap(a / b, q, b);
    MulGap(q, a / b, b);
  }
}
