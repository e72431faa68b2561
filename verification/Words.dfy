/** Fixed-width words as unsigned integers. Shifts and truncations are written by halving and doubling, so that
    everything about them is linear: Scale(x, n) is x * 2^n, Shr(x, n) is x / 2^n and Low(x, n) is x mod 2^n. */
module Words {

  type u8 = x: int | 0 <= x < 0x100
  type u16 = x: int | 0 <= x < 0x1_0000
  type u32 = x: int | 0 <= x < 0x1_0000_0000

  function Pow2(n: nat): (p: nat)
    ensures p >= 1
  {
    if n == 0 then 1 else 2 * Pow2(n - 1)
  }

  function Scale(x: nat, n: nat): nat
    decreases n, x
  {
    if n == 0 then x else 2 * Scale(x, n - 1)
  }

  /** The C expression `x >> n`. */
  function Shr(x: nat, n: nat): nat
    decreases n, x
  {
    if n == 0 then x else Shr(x / 2, n - 1)
  }

  /** The low n bits of x: what a cast to an n-bit word keeps. */
  function Low(x: nat, n: nat): (r: nat)
    ensures r < Pow2(n)
    decreases n, x
  {
    if n == 0 then 0 else 2 * Low(x / 2, n - 1) + x % 2
  }

  /** Bit k of x, counting from the least significant. */
  predicate Bit(x: nat, k: nat) {
    Shr(x, k) % 2 == 1
  }

  /** The bitwise or of two unsigned words. */
  function BitOr(x: nat, y: nat): nat {
    if x == 0 then y
    else if y == 0 then x
    else 2 * BitOr(x / 2, y / 2) + (if x % 2 == 1 || y % 2 == 1 then 1 else 0)
  }

  lemma Pow2Literals()
    ensures Pow2(8) == 0x100 && Pow2(16) == 0x1_0000 && Pow2(32) == 0x1_0000_0000
  {
    assert Pow2(4) == 16;
    assert Pow2(12) == 4096;
    assert Pow2(20) == 0x10_0000;
    assert Pow2(26) == 0x400_0000;
  }

  /** The C test `x & mask`, for a mask with a single bit set. */
  predicate TestMask(x: nat, mask: nat) {
    mask > 0 && x / mask % 2 == 1
  }

  lemma DivDiv(x: nat, m: nat)
    requires m > 0
    ensures x / 2 / m == x / (2 * m)
  {
    var q, r := x / 2 / m, x / 2 % m;
    assert x == 2 * (q * m + r) + x % 2;
    Regroup(q, m);
    DivIs(x, 2 * m, q, 2 * r + x % 2);
  }

  lemma Regroup(q: int, m: int)
    ensures 2 * (q * m) == q * (2 * m)
  {
  }

  lemma DivIs(x: int, m: int, q: int, r: int)
    requires 0 <= r < m && x == q * m + r
    ensures x / m == q
  {
    var d := x / m - q;
    assert x == x / m * m + x % m;
    assert d * m == x / m * m - q * m;
    MulSmall(d, m);
  }

  lemma MulSmall(d: int, m: int)
    requires -m < d * m < m
    ensures d == 0
  {
  }

  lemma {:induction false} ShrIsDiv(x: nat, k: nat)
    ensures Shr(x, k) == x / Pow2(k)
    decreases k
  {
    if k > 0 {
      ShrIsDiv(x / 2, k - 1);
      DivDiv(x, Pow2(k - 1));
    }
  }

  /** A one-bit mask test reads that bit. */
  lemma MaskIsBit(x: nat, k: nat)
    ensures TestMask(x, Pow2(k)) <==> Bit(x, k)
  {
    ShrIsDiv(x, k);
  }

  // ---- Scaling -------------------------------------------------------------------------------

  lemma {:induction false} ScaleAdd(a: nat, b: nat, m: nat)
    ensures Scale(a + b, m) == Scale(a, m) + Scale(b, m)
    decreases m
  {
    if m > 0 { ScaleAdd(a, b, m - 1); }
  }

  lemma {:induction false} ScaleMono(a: nat, b: nat, m: nat)
    requires a <= b
    ensures Scale(a, m) <= Scale(b, m)
    decreases m
  {
    if m > 0 { ScaleMono(a, b, m - 1); }
  }

  lemma {:induction false} ScaleOne(m: nat)
    ensures Scale(1, m) == Pow2(m)
    ensures Scale(0, m) == 0
  {
    if m > 0 { ScaleOne(m - 1); }
  }

  lemma {:induction false} ScaleScale(x: nat, a: nat, b: nat)
    ensures Scale(Scale(x, a), b) == Scale(x, a + b)
    decreases b
  {
    if b > 0 { ScaleScale(x, a, b - 1); }
  }

  lemma {:induction false} ScalePow2(a: nat, b: nat)
    ensures Scale(Pow2(a), b) == Pow2(a + b)
    decreases b
  {
    if b > 0 { ScalePow2(a, b - 1); }
  }

  lemma {:induction false} Pow2Mono(a: nat, b: nat)
    requires a <= b
    ensures Pow2(a) <= Pow2(b)
  {
    if a > 0 { Pow2Mono(a - 1, b - 1); }
  }

  /** One more unit. */
  lemma ScaleNext(a: nat, m: nat)
    ensures Scale(a + 1, m) == Scale(a, m) + Pow2(m)
  {
    ScaleAdd(a, 1, m);
    ScaleOne(m);
  }

  lemma ScaleStrict(a: nat, b: nat, m: nat)
    requires a < b
    ensures Scale(a, m) + Pow2(m) <= Scale(b, m)
  {
    ScaleNext(a, m);
    ScaleMono(a + 1, b, m);
  }

  lemma {:induction false} Split(x: nat, m: nat)
    ensures x == Scale(Shr(x, m), m) + Low(x, m)
    decreases m
  {
    if m > 0 { Split(x / 2, m - 1); }
  }

  lemma {:induction false} Unsplit(q: nat, r: nat, m: nat)
    requires r < Pow2(m)
    ensures Shr(Scale(q, m) + r, m) == q
    ensures Low(Scale(q, m) + r, m) == r
    decreases m
  {
    if m > 0 {
      Unsplit(q, r / 2, m - 1);
      assert (Scale(q, m) + r) / 2 == Scale(q, m - 1) + r / 2;
    }
  }

  lemma {:induction false} ShrBelow(x: nat, a: nat, b: nat)
    requires x < Pow2(a + b)
    ensures Shr(x, b) < Pow2(a)
    decreases b
  {
    if b > 0 { ShrBelow(x / 2, a, b - 1); }
  }

  /** Dividing a number below n units gives less than n. */
  lemma ShrUnits(x: nat, n: nat, m: nat)
    requires x < Scale(n, m)
    ensures Shr(x, m) < n
    ensures Scale(Shr(x, m), m) <= x < Scale(Shr(x, m), m) + Pow2(m)
  {
    Split(x, m);
    if Shr(x, m) >= n {
      ScaleMono(n, Shr(x, m), m);
    }
  }

  lemma {:induction false} ShrShr(x: nat, a: nat, b: nat)
    ensures Shr(Shr(x, a), b) == Shr(x, a + b)
    decreases a
  {
    if a > 0 { ShrShr(x / 2, a - 1, b); }
  }

  // ---- Bits -----------------------------------------------------------------------------------

  lemma {:induction false} ZeroBit(k: nat)
    ensures !Bit(0, k)
  {
    if k > 0 { ZeroBit(k - 1); }
  }

  /** Appending a low digit moves every bit up by one. */
  lemma BitPush(x: nat, d: nat, k: nat)
    requires d < 2
    ensures Bit(2 * x + d, 0) <==> d == 1
    ensures Bit(2 * x + d, k + 1) <==> Bit(x, k)
  {
    assert (2 * x + d) / 2 == x;
  }

  lemma BitHalf(x: nat, k: nat)
    ensures Bit(x, 0) <==> x % 2 == 1
    ensures Bit(x, k + 1) <==> Bit(x / 2, k)
  {
  }

  lemma {:induction false} BitOfOr(x: nat, y: nat, k: nat)
    ensures Bit(BitOr(x, y), k) <==> Bit(x, k) || Bit(y, k)
    decreases k
  {
    ZeroBit(k);
    if x != 0 && y != 0 {
      var h, d := BitOr(x / 2, y / 2), if x % 2 == 1 || y % 2 == 1 then 1 else 0;
      assert BitOr(x, y) == 2 * h + d;
      if k == 0 {
        BitHalf(x, 0);
        BitHalf(y, 0);
        BitPush(h, d, 0);
      } else {
        BitOfOr(x / 2, y / 2, k - 1);
        BitHalf(x, k - 1);
        BitHalf(y, k - 1);
        BitPush(h, d, k - 1);
      }
    }
  }

  lemma {:induction false} BitOfScale(x: nat, n: nat, k: nat)
    ensures Bit(Scale(x, n), k) <==> k >= n && Bit(x, k - n)
    decreases n
  {
    if n > 0 && k > 0 {
      BitOfScale(x, n - 1, k - 1);
      assert Scale(x, n) / 2 == Scale(x, n - 1);
    }
  }

  lemma BitOfShr(x: nat, n: nat, k: nat)
    ensures Bit(Shr(x, n), k) <==> Bit(x, n + k)
  {
    ShrShr(x, n, k);
  }

  lemma {:induction false} BitOfLow(x: nat, m: nat, k: nat)
    ensures Bit(Low(x, m), k) <==> k < m && Bit(x, k)
    decreases m
  {
    if m == 0 {
      ZeroBit(k);
    } else if k > 0 {
      LowHalf(x, m);
      hide Low;
      BitOfLow(x / 2, m - 1, k - 1);
    }
  }

  lemma LowHalf(x: nat, m: nat)
    requires m > 0
    ensures Low(x, m) / 2 == Low(x / 2, m - 1)
  {
  }

  /** Words below 2^m with the same low m bits are equal. */
  lemma {:induction false} SameBits(x: nat, y: nat, m: nat)
    requires x < Pow2(m) && y < Pow2(m)
    requires forall k: nat :: k < m ==> (Bit(x, k) <==> Bit(y, k))
    ensures x == y
    decreases m
  {
    if m > 0 {
      assert Bit(x, 0) <==> Bit(y, 0);
      forall k: nat | k < m - 1
        ensures Bit(x / 2, k) <==> Bit(y / 2, k)
      {
        assert Bit(x, k + 1) <==> Bit(y, k + 1);
      }
      SameBits(x / 2, y / 2, m - 1);
    }
  }

  lemma {:induction false} OrBound(x: nat, y: nat, m: nat)
    requires x < Pow2(m) && y < Pow2(m)
    ensures BitOr(x, y) < Pow2(m)
    decreases m
  {
    if m > 0 && x != 0 && y != 0 { OrBound(x / 2, y / 2, m - 1); }
  }

  // ---- Aligned blocks -------------------------------------------------------------------------

  /** a is a multiple of 2^m. */
  predicate Aligned(a: nat, m: nat) {
    m == 0 || (a % 2 == 0 && Aligned(a / 2, m - 1))
  }

  lemma {:induction false} ScaleAligned(i: nat, m: nat)
    ensures Aligned(Scale(i, m), m)
  {
    if m > 0 {
      ScaleAligned(i, m - 1);
      assert Scale(i, m) / 2 == Scale(i, m - 1);
    }
  }

  lemma {:induction false} AlignedApart(a: nat, b: nat, m: nat)
    requires Aligned(a, m) && Aligned(b, m) && a < b
    ensures a + Pow2(m) <= b
  {
    if m > 0 { AlignedApart(a / 2, b / 2, m - 1); }
  }

  /** Two aligned blocks that meet: the smaller is inside the larger. */
  lemma {:induction false} Nested(a: nat, m: nat, b: nat, k: nat)
    requires m <= k && Aligned(a, m) && Aligned(b, k)
    requires a < b + Pow2(k) && b < a + Pow2(m)
    ensures b <= a && a + Pow2(m) <= b + Pow2(k)
  {
    if m > 0 { Nested(a / 2, m - 1, b / 2, k - 1); }
  }

  /** Both halves of an aligned block are aligned. */
  lemma {:induction false} HalfAligned(a: nat, m: nat)
    requires m >= 1 && Aligned(a, m)
    ensures Aligned(a, m - 1) && Aligned(a + Pow2(m - 1), m - 1)
  {
    if m > 1 {
      HalfAligned(a / 2, m - 1);
      assert (a + Pow2(m - 1)) / 2 == a / 2 + Pow2(m - 2);
    }
  }

  /** Inside an aligned block of size 2^(m+1), bit m says which half a word is in. */
  lemma {:induction false} HalfBit(x: nat, a: nat, m: nat)
    requires Aligned(a, m + 1) && a <= x < a + Pow2(m + 1)
    ensures Bit(x, m) <==> x >= a + Pow2(m)
  {
    if m > 0 { HalfBit(x / 2, a / 2, m - 1); }
  }

  // ---- Little-endian fields ---------------------------------------------------------------------

  /** The 32-bit field of b at i. */
  function Field32(b: seq<u8>, i: nat): u32
    requires i + 4 <= |b|
  {
    var v: seq<int> := b;
    v[i] + 0x100 * v[i + 1] + 0x1_0000 * v[i + 2] + 0x100_0000 * v[i + 3]
  }

  function Little32(x: u32): (b: seq<u8>)
    ensures |b| == 4
  {
    var v: int := x;
    [v % 0x100, v / 0x100 % 0x100, v / 0x1_0000 % 0x100, v / 0x100_0000]
  }

  lemma LittleField(b: seq<u8>, i: nat, x: u32)
    requires i + 4 <= |b| && b[i..i + 4] == Little32(x)
    ensures Field32(b, i) == x
  {
    var w := Little32(x);
    assert b[i] == w[0] && b[i + 1] == w[1] && b[i + 2] == w[2] && b[i + 3] == w[3];
    var v: int := x;
    assert v / 0x1_0000 == v / 0x100_0000 * 0x100 + v / 0x1_0000 % 0x100;
  }

  /** 256^w, the number of values of a field of w bytes. */
  function Range(w: nat): (n: nat)
    ensures n > 0
  {
    if w == 0 then 1 else 0x100 * Range(w - 1)
  }

  function FieldValue(b: seq<u8>): (v: nat)
    ensures v < Range(|b|)
  {
    if b == [] then 0
    else
      var first: int := b[0];
      first + 0x100 * FieldValue(b[1..])
  }

  function FieldBytes(x: nat, w: nat): (b: seq<u8>)
    ensures |b| == w
    decreases w, x
  {
    if w == 0 then [] else [x % 0x100] + FieldBytes(x / 0x100, w - 1)
  }

  lemma {:induction false} BytesOfValue(b: seq<u8>)
    ensures FieldBytes(FieldValue(b), |b|) == b
  {
    if b != [] {
      BytesOfValue(b[1..]);
      assert FieldValue(b) / 0x100 == FieldValue(b[1..]);
    }
  }

  lemma {:induction false} ValueOfBytes(x: nat, w: nat)
    requires x < Range(w)
    ensures FieldValue(FieldBytes(x, w)) == x
    decreases w, x
  {
    if w > 0 {
      ValueOfBytes(x / 0x100, w - 1);
      assert FieldBytes(x, w)[1..] == FieldBytes(x / 0x100, w - 1);
    }
  }

  lemma {:induction false} RangeIsPow2(w: nat)
    ensures Range(w) == Pow2(8 * w)
  {
    if w > 0 {
      RangeIsPow2(w - 1);
      ScalePow2(8 * (w - 1), 8);
      assert Scale(Pow2(8 * (w - 1)), 8) == 0x100 * Pow2(8 * (w - 1)) by { ScaleByte(Pow2(8 * (w - 1))); }
    }
  }

  lemma ScaleByte(x: nat)
    ensures Scale(x, 8) == 0x100 * x
  {
    assert Scale(x, 1) == 2 * x && Scale(x, 2) == 4 * x;
    assert Scale(x, 3) == 8 * x && Scale(x, 4) == 16 * x;
    assert Scale(x, 5) == 32 * x && Scale(x, 6) == 64 * x;
    assert Scale(x, 7) == 128 * x;
  }
}
