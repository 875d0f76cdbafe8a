/** Division facts the layout proofs rest on, and the 32-bit helpers of the client. */
module Arithmetic {

  const TWO32: nat := 0x1_0000_0000

  function Min(a: int, b: int): int { if a <= b then a else b }

  function Max(a: int, b: int): int { if a >= b then a else b }

  function Bit(b: bool): nat { if b then 1 else 0 }

  lemma {:induction false} DivBounds(a: nat, b: nat)
    requires b > 0
    ensures 0 <= (a / b) * b <= a < (a / b) * b + b && a % b == a - (a / b) * b
  {
  }

  /** The multiple of `b` at or before `a`. */
  function RoundDown(a: nat, b: nat): (r: nat)
    requires b > 0
    ensures r <= a < r + b
  {
    DivBounds(a, b);
    (a / b) * b
  }

  lemma {:induction false} MulMono(a: int, b: int, c: nat)
    requires a <= b
    ensures a * c <= b * c
  {
  }

  lemma {:induction false} MulNext(a: int, c: int)
    ensures (a + 1) * c == a * c + c
  {
  }

  /** The quotient and the remainder are the only ones of their kind. */
  lemma {:induction false} DivUnique(a: nat, b: nat, q: nat, r: nat)
    requires b > 0 && r < b && a == q * b + r
    ensures a / b == q && a % b == r
  {
    DivBounds(a, b);
    if a / b < q {
      MulNext(a / b, b);
      MulMono(a / b + 1, q, b);
    } else if a / b > q {
      MulNext(q, b);
      MulMono(q + 1, a / b, b);
    }
  }

  /** Division rounding up, on 32-bit unsigned operands. */
  function CeilDiv32(a: nat, b: nat): nat
    requires 0 < b < TWO32 && a < TWO32
  {
    ((a + b - 1) % TWO32) / b
  }

  function CeilDiv(a: nat, b: nat): nat
    requires b > 0
  {
    (a + b - 1) / b
  }

  lemma {:induction false} CeilDivBounds(a: nat, b: nat)
    requires b > 0
    ensures a > 0 ==> (CeilDiv(a, b) - 1) * b < a
    ensures a <= CeilDiv(a, b) * b && (a > 0 <==> CeilDiv(a, b) >= 1)
  {
    DivBounds(a + b - 1, b);
    var q: int := CeilDiv(a, b);
    MulNext(q - 1, b);
    if a == 0 && q > 0 { MulMono(1, q, b); }
  }

  /** The rounding is right exactly when the sum does not leave 32 bits. */
  lemma {:induction false} CeilDiv32IsExact(a: nat, b: nat)
    requires 0 < b < TWO32 && a < TWO32
    ensures CeilDiv32(a, b) == CeilDiv(a, b) <==> a + b - 1 < TWO32
  {
    if a + b - 1 >= TWO32 {
      DivUnique(a + b - 1, TWO32, 1, a + b - 1 - TWO32);
      DivUnique(a + b - 1 - TWO32, b, 0, a + b - 1 - TWO32);
      CeilDivBounds(a, b);
    }
  }

  /** Two in steps of nearly 2^32 come out as none. */
  lemma {:induction false} CeilDiv32Wraps()
    ensures CeilDiv32(2, TWO32 - 1) == 0 && CeilDiv(2, TWO32 - 1) == 1
  {
    DivUnique(TWO32, TWO32, 1, 0);
    DivUnique(TWO32, TWO32 - 1, 1, 1);
  }

  /** Index `c` counts a chunk of the piece exactly when the chunk begins inside it. */
  lemma {:induction false} ChunkBegins(c: nat, length: nat, size: nat)
    requires size > 0
    ensures c < CeilDiv(length, size) <==> c * size < length
  {
    CeilDivBounds(length, size);
    var n := CeilDiv(length, size);
    if c < n { MulMono(c, n - 1, size); } else { MulMono(n, c, size); }
  }
}
