/** A byte buffer read as a stream of bits, most significant first, with zeros on both sides. */
module BitStream {
  import opened Words

  /** Bit i of the stream; positions before the first byte and after the last read as zero. */
  predicate StreamBit(src: seq<u8>, i: int) {
    i >= 0 && BitFrom(src, i)
  }

  predicate BitFrom(src: seq<u8>, i: nat) {
    if src == [] then false
    else if i < 8 then Bit(src[0], 7 - i)
    else BitFrom(src[1..], i - 8)
  }

  function StreamDigit(src: seq<u8>, i: int): (d: nat)
    ensures d < 2
  {
    if StreamBit(src, i) then 1 else 0
  }

  /** The n bits from position p, as a big-endian number. */
  function Window(src: seq<u8>, p: int, n: nat): (w: nat)
    ensures w < Pow2(n)
  {
    if n == 0 then 0 else 2 * Window(src, p, n - 1) + StreamDigit(src, p + n - 1)
  }

  lemma {:induction false} WindowBit(src: seq<u8>, p: int, n: nat, k: nat)
    ensures Bit(Window(src, p, n), k) <==> k < n && StreamBit(src, p + n - 1 - k)
    decreases n
  {
    if n == 0 {
      ZeroBit(k);
    } else if k == 0 {
      BitPush(Window(src, p, n - 1), StreamDigit(src, p + n - 1), 0);
    } else {
      WindowBit(src, p, n - 1, k - 1);
      BitPush(Window(src, p, n - 1), StreamDigit(src, p + n - 1), k - 1);
    }
  }

  lemma {:induction false} WindowSplit(src: seq<u8>, p: int, a: nat, b: nat)
    ensures Window(src, p, a + b) == Scale(Window(src, p, a), b) + Window(src, p + a, b)
    decreases b
  {
    if b > 0 {
      WindowSplit(src, p, a, b - 1);
    }
  }

  /** Shifting a window right keeps its leading bits. */
  lemma WindowShr(src: seq<u8>, p: int, a: nat, b: nat)
    ensures Shr(Window(src, p, a + b), b) == Window(src, p, a)
  {
    WindowSplit(src, p, a, b);
    Unsplit(Window(src, p, a), Window(src, p + a, b), b);
  }

  /** A byte of the buffer is the eight bits at its position; beyond the buffer it is zero. */
  function ByteAt(src: seq<u8>, i: nat): u8 {
    if i < |src| then src[i] else 0
  }

  lemma {:induction false} ByteBit(src: seq<u8>, i: nat, k: nat)
    requires k < 8
    ensures StreamBit(src, 8 * i + 7 - k) <==> Bit(ByteAt(src, i), k)
    decreases i
  {
    if src == [] {
      ZeroBit(k);
    } else if i > 0 {
      ByteBit(src[1..], i - 1, k);
      assert ByteAt(src, i) == ByteAt(src[1..], i - 1);
    }
  }

  lemma WindowByte(src: seq<u8>, i: nat)
    ensures Window(src, 8 * i, 8) == ByteAt(src, i)
  {
    forall k: nat | k < 8
      ensures Bit(Window(src, 8 * i, 8), k) <==> Bit(ByteAt(src, i), k)
    {
      WindowBit(src, 8 * i, 8, k);
      ByteBit(src, i, k);
    }
    Pow2Literals();
    SameBits(Window(src, 8 * i, 8), ByteAt(src, i), 8);
  }

  /** Before the buffer there are only zeros. */
  lemma {:induction false} WindowBefore(src: seq<u8>, p: int, n: nat)
    requires p + n <= 0
    ensures Window(src, p, n) == 0
  {
    if n > 0 { WindowBefore(src, p, n - 1); }
  }

  // ---- Bit strings -------------------------------------------------------------------------

  /** The bit string bits stands at position p of the stream. */
  predicate Holds(src: seq<u8>, p: int, bits: seq<bool>) {
    forall i {:trigger bits[i]} :: 0 <= i < |bits| ==> StreamBit(src, p + i) == bits[i]
  }

  /** v in n big-endian binary digits. */
  function Binary(v: nat, n: nat): (bits: seq<bool>)
    ensures |bits| == n
  {
    if n == 0 then [] else Binary(v / 2, n - 1) + [v % 2 == 1]
  }

  lemma HoldsSplit(src: seq<u8>, p: int, a: seq<bool>, b: seq<bool>)
    ensures Holds(src, p, a + b) <==> Holds(src, p, a) && Holds(src, p + |a|, b)
  {
    if Holds(src, p, a + b) {
      forall i | 0 <= i < |a|
        ensures StreamBit(src, p + i) == a[i]
      {
        assert (a + b)[i] == a[i];
      }
      forall i | 0 <= i < |b|
        ensures StreamBit(src, p + |a| + i) == b[i]
      {
        assert (a + b)[|a| + i] == b[i];
        assert StreamBit(src, p + (|a| + i)) == (a + b)[|a| + i];
      }
    }
    if Holds(src, p, a) && Holds(src, p + |a|, b) {
      forall i | 0 <= i < |a + b|
        ensures StreamBit(src, p + i) == (a + b)[i]
      {
        if i >= |a| {
          assert StreamBit(src, p + |a| + (i - |a|)) == b[i - |a|];
        }
      }
    }
  }

  /** Reading n bits where Binary(v, n) stands gives v back. */
  lemma {:induction false} ReadBinary(src: seq<u8>, p: int, v: nat, n: nat)
    requires Holds(src, p, Binary(v, n)) && v < Pow2(n)
    ensures Window(src, p, n) == v
  {
    if n > 0 {
      var front, last := Binary(v / 2, n - 1), [v % 2 == 1];
      HoldsSplit(src, p, front, last);
      ReadBinary(src, p, v / 2, n - 1);
      assert StreamBit(src, p + (n - 1) + 0) == last[0];
    }
  }

  // ---- Packing bits into bytes -----------------------------------------------------------------

  predicate BitOrZero(bits: seq<bool>, i: nat) { i < |bits| && bits[i] }

  /** Bits p, ..., p + n - 1 as a big-endian number, with zeros behind the end. */
  function Packing(bits: seq<bool>, p: nat, n: nat): (v: nat)
    ensures v < Pow2(n)
  {
    if n == 0 then 0 else 2 * Packing(bits, p, n - 1) + if BitOrZero(bits, p + n - 1) then 1 else 0
  }

  lemma {:induction false} PackingBit(bits: seq<bool>, p: nat, n: nat, k: nat)
    requires k < n
    ensures Bit(Packing(bits, p, n), k) <==> BitOrZero(bits, p + n - 1 - k)
    decreases n
  {
    var d := if BitOrZero(bits, p + n - 1) then 1 else 0;
    BitPush(Packing(bits, p, n - 1), d, if k == 0 then 0 else k - 1);
    if k > 0 { PackingBit(bits, p, n - 1, k - 1); }
  }

  /** A bit string as bytes, the last one padded with zeros. */
  function Packed(bits: seq<bool>): (src: seq<u8>)
    decreases |bits|
  {
    if bits == [] then []
    else
      Pow2Literals();
      [Packing(bits, 0, 8)] + Packed(if |bits| > 8 then bits[8..] else [])
  }

  lemma {:induction false} PackedBit(bits: seq<bool>, i: nat)
    ensures BitFrom(Packed(bits), i) <==> BitOrZero(bits, i)
    decreases |bits|
  {
    hide Bit, Packing;
    if bits != [] {
      var rest := if |bits| > 8 then bits[8..] else [];
      Pow2Literals();
      assert Packed(bits)[1..] == Packed(rest) && Packed(bits)[0] == Packing(bits, 0, 8);
      if i < 8 { PackingBit(bits, 0, 8, 7 - i); } else { PackedBit(rest, i - 8); }
    }
  }

  /** Packing a bit string gives a stream that holds it, and zeros behind it. */
  lemma PackedHolds(bits: seq<bool>)
    ensures Holds(Packed(bits), 0, bits) && forall i :: i >= |bits| ==> !StreamBit(Packed(bits), i)
  {
    forall i | 0 <= i < |bits| ensures StreamBit(Packed(bits), 0 + i) == bits[i] { PackedBit(bits, i); }
    forall i | i >= |bits| ensures !StreamBit(Packed(bits), i) { PackedBit(bits, i); }
  }
}
