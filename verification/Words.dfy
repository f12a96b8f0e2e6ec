/** Machine words, the rounding helpers of src/types.h, and byte-addressed memory with
    the byte loops of src/system.c as functions on it. */
module Words {

  const WORD: int := 0x1_0000_0000
  const PAGESIZE: int := 4096

  type byte = x: int | 0 <= x < 0x100
  type uint32 = x: int | 0 <= x < 0x1_0000_0000
  type uint64 = x: int | 0 <= x < 0x1_0000_0000_0000_0000

  function RoundDown(a: uint32, b: uint32): (r: uint32)
    requires b > 0
    ensures r <= a < r + b && r % b == 0
  {
    DivModUnique(a - a % b, b, a / b, 0);
    a - a % b
  }

  /** The addition wraps at 32 bits, so rounding up is right exactly where it does not. */
  function RoundUp(a: uint32, b: uint32): (r: uint32)
    requires b > 0
    ensures r % b == 0
    ensures a + b <= WORD <==> a <= r
    ensures r < a + b
  {
    RoundDown((a + b - 1) % WORD, b)
  }

  /** Quotient and remainder are determined by the division equation. */
  lemma DivModUnique(a: nat, b: nat, q: int, r: nat)
    requires b > 0 && a == q * b + r && r < b
    ensures q == a / b && r == a % b
  {
    var k := q - a / b;
    assert k * b == a % b - r by { assert a == a / b * b + a % b; }
    if k > 0 {
      SmallerProduct(1, k, b);
    } else if k < 0 {
      SmallerProduct(k, -1, b);
    }
  }

  lemma SmallerProduct(x: int, y: int, b: nat)
    requires x <= y
    ensures x * b <= y * b
  {
    assert (y - x) * b >= 0;
  }

  /** The elements before the first `stop`: a C string, if `stop` is NUL. */
  function Before<T(==)>(s: seq<T>, stop: T): (r: seq<T>)
    ensures r <= s && stop !in r && (|r| < |s| ==> s[|r|] == stop)
  {
    if s == [] || s[0] == stop then [] else [s[0]] + Before(s[1..], stop)
  }

  /** `r` is `m` with the bytes of `data` stored from address `a` on. */
  function Blit(m: seq<byte>, a: nat, data: seq<byte>): (r: seq<byte>)
    requires a + |data| <= |m|
    ensures |r| == |m|
    ensures forall i :: 0 <= i < |m| ==> r[i] == if a <= i < a + |data| then data[i - a] else m[i]
  {
    m[..a] + data + m[a + |data|..]
  }

  /** MemSet: `n` bytes from `a` on hold `v`. */
  function Fill(m: seq<byte>, a: nat, n: nat, v: byte): (r: seq<byte>)
    requires a + n <= |m|
    ensures |r| == |m|
    ensures forall i :: 0 <= i < |m| ==> r[i] == if a <= i < a + n then v else m[i]
  {
    Blit(m, a, seq(n, i => v))
  }

  /** MemCopy: the byte loop, lowest address first, each byte read after the earlier writes. */
  function CopyForward(m: seq<byte>, dst: nat, src: nat, n: nat): (r: seq<byte>)
    requires dst + n <= |m| && src + n <= |m|
    ensures |r| == |m|
  {
    if n == 0 then m
    else
      var before := CopyForward(m, dst, src, n - 1);
      before[dst + n - 1 := before[src + n - 1]]
  }

  /** Copying towards lower addresses, or between disjoint ranges, moves the original bytes. */
  lemma {:induction false} CopyForwardMoves(m: seq<byte>, dst: nat, src: nat, n: nat)
    requires dst + n <= |m| && src + n <= |m|
    requires dst <= src || src + n <= dst
    ensures CopyForward(m, dst, src, n) == Blit(m, dst, m[src..src + n])
  {
    if n > 0 {
      CopyForwardMoves(m, dst, src, n - 1);
    }
  }

  /** Copying to a higher overlapping address instead repeats the first `dst - src` bytes. */
  lemma {:induction false} CopyForwardRepeats(m: seq<byte>, dst: nat, src: nat, n: nat)
    requires src < dst < src + n && dst + n <= |m|
    ensures forall i :: dst <= i < dst + n ==> CopyForward(m, dst, src, n)[i] == m[src + (i - dst) % (dst - src)]
    ensures forall i :: 0 <= i < |m| && !(dst <= i < dst + n) ==> CopyForward(m, dst, src, n)[i] == m[i]
  {
    CopyForwardPrefix(m, dst, src, n);
  }

  lemma {:induction false} CopyForwardPrefix(m: seq<byte>, dst: nat, src: nat, n: nat)
    requires src < dst && dst + n <= |m|
    ensures forall i :: dst <= i < dst + n ==> CopyForward(m, dst, src, n)[i] == m[src + (i - dst) % (dst - src)]
    ensures forall i :: 0 <= i < |m| && !(dst <= i < dst + n) ==> CopyForward(m, dst, src, n)[i] == m[i]
  {
    if n > 0 {
      CopyForwardPrefix(m, dst, src, n - 1);
      var gap: int := dst - src;
      if n - 1 < gap {
        DivModUnique(n - 1, gap, 0, n - 1);
      } else {
        var k := n - 1 - gap;
        assert src + n - 1 == dst + k;
        assert k == k / gap * gap + k % gap;
        DivModUnique(n - 1, gap, k / gap + 1, k % gap);
      }
    }
  }

  /** The little-endian word stored at `a`. */
  function Word(m: seq<byte>, a: nat): (w: uint32)
    requires a + 4 <= |m|
  {
    m[a] as int + 0x100 * m[a + 1] as int + 0x1_0000 * m[a + 2] as int + 0x100_0000 * m[a + 3] as int
  }

  function WordBytes(w: uint32): (s: seq<byte>)
    ensures |s| == 4 && s[0] as int + 0x100 * s[1] as int + 0x1_0000 * s[2] as int + 0x100_0000 * s[3] as int == w
  {
    [w % 0x100, w / 0x100 % 0x100, w / 0x1_0000 % 0x100, w / 0x100_0000]
  }

  function SetWord(m: seq<byte>, a: nat, w: uint32): (r: seq<byte>)
    requires a + 4 <= |m|
    ensures |r| == |m| && Word(r, a) == w
    ensures forall i :: 0 <= i < |m| && !(a <= i < a + 4) ==> r[i] == m[i]
  {
    Blit(m, a, WordBytes(w))
  }

  lemma Pick(a: set<int>) returns (x: int)
    requires a != {}
    ensures x in a
  {
    assert (forall y :: y !in a) ==> a == {};
    x :| x in a;
  }

  /** Two finite sets matched one to one. */
  lemma {:induction false} SameSize(a: set<int>, b: set<int>, g: int -> int)
    requires forall x :: x in a ==> g(x) in b
    requires forall x, y :: x in a && y in a && g(x) == g(y) ==> x == y
    requires forall y :: y in b ==> exists x :: x in a && g(x) == y
    ensures |a| == |b|
    decreases |a|
  {
    if a != {} {
      var x := Pick(a);
      var a', b' := a - {x}, b - {g(x)};
      forall y | y in b' ensures exists z :: z in a' && g(z) == y {
        var z :| z in a && g(z) == y;
        assert z in a';
      }
      SameSize(a', b', g);
    } else if b != {} {
      var y := Pick(b);
    }
  }
}
