/** The 64-by-32-bit division of src/types.h: shift-subtract on machine words. */
module Division {
  import opened Words

  const TWO63: int := 0x8000_0000_0000_0000
  const TWO64: int := 0x1_0000_0000_0000_0000

  /** A power of two, as the doubling loop's multiplier is. */
  predicate PowerOfTwo(d: nat) { d == 1 || (d > 1 && d % 2 == 0 && PowerOfTwo(d / 2)) }

  lemma Doubled(d: nat)
    requires PowerOfTwo(d)
    ensures PowerOfTwo(d + d)
  {
    assert (d + d) / 2 == d;
  }

  lemma HalfScaled(base: nat, d: nat)
    requires d % 2 == 0
    ensures base * d / 2 == base * (d / 2) && base * d % 2 == 0
  {
    assert d == 2 * (d / 2);
    assert base * d == 2 * (base * (d / 2));
  }

  /** Subtracting `base * d` from the remainder and adding `d` to the quotient. */
  lemma SubtractStep(n: int, res: int, base: int, rem: int, b: int, d: int)
    requires n == res * base + rem && b == base * d
    ensures n == (res + d) * base + (rem - b)
  {}

  lemma QuotientBound(n: int, q: int, base: int, r: int)
    requires n == q * base + r && 0 <= r && base > 0 && q >= 0
    ensures q <= n
  {
    assert (q - 0) * (base - 1) >= 0;
  }

  /** The reduction step: the high word's quotient, scaled by 2^32. */
  lemma HighPart(n: nat, high: nat, base: nat)
    requires base > 0 && high == n / 0x1_0000_0000
    ensures var q := high / base;
            && n == q * 0x1_0000_0000 * base + (n - q * base * 0x1_0000_0000)
            && q * base <= high && n - q * base * 0x1_0000_0000 >= 0
  {
    var q := high / base;
    assert high == q * base + high % base;
    assert q * 0x1_0000_0000 * base == q * base * 0x1_0000_0000;
  }

  /** DivideAndMod64by32: quotient (left in `*n`) and remainder, for every 64-bit dividend and
      every non-zero base. Every assignment keeps its machine type: nothing overflows. */
  method DivideAndMod64by32(n: uint64, base: uint32) returns (quotient: uint64, remainder: uint32)
    requires base > 0
    ensures n == quotient * base + remainder && remainder < base
  {
    var res, rem := Reduce(n, base);
    var b, d := Double(base, rem);
    quotient, remainder := Subtract(n, base, res, rem, b, d);
  }

  /** "Reduce the thing a bit first": divide the high word alone. */
  method Reduce(n: uint64, base: uint32) returns (res: uint64, rem: uint64)
    requires base > 0
    ensures n == res * base + rem
  {
    rem := n;
    res := 0;
    var high: uint32 := rem / 0x1_0000_0000;
    if high >= base {
      HighPart(n, high, base);
      high := high / base;
      var product: uint32 := high * base;
      res := high * 0x1_0000_0000;
      rem := rem - product * 0x1_0000_0000;
    }
  }

  /** The doubling loop stops at the first scaled base that reaches the remainder, or when the
      top bit makes it negative as a signed word; doubling it once more would pass `rem`. */
  method Double(base: uint32, rem: uint64) returns (b: uint64, d: uint64)
    requires base > 0
    ensures d > 0 && b == base * d && PowerOfTwo(d) && rem < 2 * b
  {
    b, d := base, 1;
    while b < TWO63 && b < rem
      invariant b > 0 && d > 0 && b == base * d && PowerOfTwo(d)
      decreases TWO64 - b
    {
      Doubled(d);
      assert base * (d + d) == b + b;
      QuotientBound(b + b, d + d, base, 0);
      b := b + b;
      d := d + d;
    }
  }

  method Subtract(n: uint64, base: uint32, res0: uint64, rem0: uint64, b0: uint64, d0: uint64)
    returns (res: uint64, rem: uint32)
    requires base > 0 && d0 > 0 && b0 == base * d0 && PowerOfTwo(d0)
    requires n == res0 * base + rem0 && rem0 < 2 * b0
    ensures n == res * base + rem && rem < base
  {
    var left: uint64, b: uint64, d: uint64 := rem0, b0, d0;
    res := res0;
    while true
      invariant d > 0 && b == base * d && PowerOfTwo(d) && left < 2 * b && n == res * base + left
      decreases d
    {
      if left >= b {
        SubtractStep(n, res, base, left, b, d);
        QuotientBound(n, res + d, base, left - b);
        left := left - b;
        res := res + d;
      }
      if d == 1 {
        break;
      }
      HalfScaled(base, d);
      b := b / 2;
      d := d / 2;
    }
    rem := left;
  }

  method Divide64by32(a: uint64, b: uint32) returns (q: uint64)
    requires b > 0
    ensures q == a / b
  {
    var n := a;
    var r;
    n, r := DivideAndMod64by32(n, b);
    DivModUnique(a, b, n, r);
    q := n;
  }

  method Modulo64by32(a: uint64, b: uint32) returns (r: uint32)
    requires b > 0
    ensures r == a % b
  {
    var q;
    q, r := DivideAndMod64by32(a, b);
    DivModUnique(a, b, q, r);
  }
}
