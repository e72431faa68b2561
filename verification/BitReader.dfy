/** What the two bit buffers hold, and why or-ing the stale bits of the byte buffer in again is harmless. The width
    m of the main buffer is a parameter here; the source uses 32. */
module BitReader {
  import opened Words
  import opened BitStream

  /** The main buffer while n of its m bits, starting at stream position q, still have to be read. */
  function Partial(src: seq<u8>, q: int, m: nat, n: nat): nat
    requires n <= m
  {
    Scale(Window(src, q, m - n), n)
  }

  lemma PartialBit(src: seq<u8>, q: int, m: nat, n: nat, k: nat)
    requires n <= m
    ensures Bit(Partial(src, q, m, n), k) <==> n <= k < m && StreamBit(src, q + m - 1 - k)
  {
    BitOfScale(Window(src, q, m - n), n, k);
    if k >= n {
      WindowBit(src, q, m - n, k - n);
    }
  }

  lemma PartialBound(src: seq<u8>, q: int, m: nat, n: nat)
    requires n <= m
    ensures Partial(src, q, m, n) < Pow2(m)
  {
    ScaleStrict(Window(src, q, m - n), Pow2(m - n), n);
    ScalePow2(m - n, n);
  }

  /** The byte buffer holds the last byte read, of which count bits are still unused; e is the position after it. */
  lemma ByteShiftedBit(src: seq<u8>, e: int, m: nat, n: nat, k: nat)
    requires k < m
    ensures Bit(Low(Scale(Window(src, e - 8, 8), n), m), k) <==> n <= k < n + 8 && StreamBit(src, e - 1 - (k - n))
  {
    BitOfLow(Scale(Window(src, e - 8, 8), n), m, k);
    BitOfScale(Window(src, e - 8, 8), n, k);
    if k >= n {
      WindowBit(src, e - 8, 8, k - n);
    }
  }

  /** Shifting the full buffer left makes room for n bits. */
  lemma ShiftOut(src: seq<u8>, p: int, m: nat, n: nat)
    requires n <= m
    ensures Low(Scale(Window(src, p, m), n), m) == Partial(src, p + n, m, n)
  {
    forall k: nat | k < m
      ensures Bit(Low(Scale(Window(src, p, m), n), m), k) <==> Bit(Partial(src, p + n, m, n), k)
    {
      BitOfLow(Scale(Window(src, p, m), n), m, k);
      BitOfScale(Window(src, p, m), n, k);
      if k >= n {
        WindowBit(src, p, m, k - n);
      }
      PartialBit(src, p + n, m, n, k);
    }
    PartialBound(src, p + n, m, n);
    SameBits(Low(Scale(Window(src, p, m), n), m), Partial(src, p + n, m, n), m);
  }

  /** Or-ing the shifted byte in reads all its unused bits; its stale high bits meet equal bits or are cut off. */
  lemma OrByte(src: seq<u8>, q: int, m: nat, n: nat, left: nat)
    requires left <= n <= m && n - left <= 8
    ensures BitOr(Partial(src, q, m, n), Low(Scale(Window(src, q + m - left - 8, 8), left), m)) ==
      Partial(src, q, m, left)
  {
    var x, y := Partial(src, q, m, n), Low(Scale(Window(src, q + m - left - 8, 8), left), m);
    forall k: nat | k < m
      ensures Bit(BitOr(x, y), k) <==> Bit(Partial(src, q, m, left), k)
    {
      BitOfOr(x, y, k);
      PartialBit(src, q, m, n, k);
      PartialBit(src, q, m, left, k);
      ByteShiftedBit(src, q + m - left, m, left, k);
    }
    PartialBound(src, q, m, n);
    PartialBound(src, q, m, left);
    OrBound(x, y, m);
    SameBits(BitOr(x, y), Partial(src, q, m, left), m);
  }

  /** The last or: the byte is shifted right so that only the bits asked for remain unread above it. */
  lemma OrRest(src: seq<u8>, q: int, m: nat, n: nat, keep: nat)
    requires n <= m && 8 <= m && n + keep <= 8
    ensures BitOr(Partial(src, q, m, n), Shr(Window(src, q + m + keep - 8, 8), keep)) == Window(src, q, m)
  {
    var x, y := Partial(src, q, m, n), Shr(Window(src, q + m + keep - 8, 8), keep);
    forall k: nat | k < m
      ensures Bit(BitOr(x, y), k) <==> Bit(Window(src, q, m), k)
    {
      BitOfOr(x, y, k);
      PartialBit(src, q, m, n, k);
      BitOfShr(Window(src, q + m + keep - 8, 8), keep, k);
      WindowBit(src, q + m + keep - 8, 8, keep + k);
      WindowBit(src, q, m, k);
    }
    PartialBound(src, q, m, n);
    RestBound(src, q + m + keep - 8, keep, m);
    OrBound(x, y, m);
    SameBits(BitOr(x, y), Window(src, q, m), m);
  }

  lemma RestBound(src: seq<u8>, p: int, keep: nat, m: nat)
    requires keep <= 8 <= m
    ensures Shr(Window(src, p, 8), keep) < Pow2(m)
  {
    ShrBelow(Window(src, p, 8), 8 - keep, keep);
    Pow2Mono(8 - keep, m);
  }

  // ---- The reader's state -----------------------------------------------------------------------

  /** How much of the source has been taken when e bits are accounted for. */
  predicate Consumed(src: seq<u8>, e: int, inBuf: nat, compSize: nat) {
    && e >= 0 && e % 8 == 0
    && inBuf == (if e / 8 < |src| then e / 8 else |src|)
    && inBuf + compSize == |src|
  }

  /** All fields of the reader, n bits short of a full buffer that starts at stream position q. */
  predicate Reads(src: seq<u8>, q: int, m: nat, n: nat, buf: nat, sub: nat, count: nat, inBuf: nat, compSize: nat)
    requires n <= m
  {
    && buf == Partial(src, q, m, n)
    && count <= 8
    && sub == Window(src, q + m - n + count - 8, 8)
    && Consumed(src, q + m - n + count, inBuf, compSize)
  }

  /** The next byte to load is the one the position says. */
  lemma NextByte(src: seq<u8>, e: int, inBuf: nat, compSize: nat)
    requires Consumed(src, e, inBuf, compSize)
    ensures compSize > 0 ==>
      inBuf < |src| && src[inBuf] == Window(src, e, 8) && Consumed(src, e + 8, inBuf + 1, compSize - 1)
    ensures compSize == 0 ==> Window(src, e, 8) == 0 && Consumed(src, e + 8, inBuf, 0)
  {
    WindowByte(src, e / 8);
    assert 8 * (e / 8) == e;
  }

  /** Shifting the main buffer left by n. */
  lemma BeginRefill(src: seq<u8>, p: int, m: nat, n: nat, buf: nat, sub: nat, count: nat, inBuf: nat, compSize: nat)
    requires Reads(src, p, m, 0, buf, sub, count, inBuf, compSize) && n <= m
    ensures Reads(src, p + n, m, n, Low(Scale(buf, n), m), sub, count, inBuf, compSize)
  {
    ShiftOut(src, p, m, n);
  }

  /** One turn of the refill loop: or the byte in, then take the next byte, or zero at the end of the source. */
  lemma RefillStep(src: seq<u8>, q: int, m: nat, n: nat, buf: nat, sub: nat, count: nat, inBuf: nat, compSize: nat)
    requires n <= m && Reads(src, q, m, n, buf, sub, count, inBuf, compSize) && count < n
    ensures var buf' := BitOr(buf, Low(Scale(sub, n - count), m));
      && buf' < Pow2(m)
      && (compSize > 0 ==> inBuf < |src| && Reads(src, q, m, n - count, buf', src[inBuf], 8, inBuf + 1, compSize - 1))
      && (compSize == 0 ==> Reads(src, q, m, n - count, buf', 0, 8, inBuf, 0))
  {
    OrByte(src, q, m, n, n - count);
    PartialBound(src, q, m, n - count);
    NextByte(src, q + m - n + count, inBuf, compSize);
  }

  /** The end of the refill: the buffer is full again at the new position. */
  lemma EndRefill(src: seq<u8>, q: int, m: nat, n: nat, buf: nat, sub: nat, count: nat, inBuf: nat, compSize: nat)
    requires n <= m && 8 <= m && Reads(src, q, m, n, buf, sub, count, inBuf, compSize) && n <= count
    ensures var buf' := BitOr(buf, Shr(sub, count - n));
      buf' < Pow2(m) && Reads(src, q, m, 0, buf', sub, count - n, inBuf, compSize)
  {
    OrRest(src, q, m, n, count - n);
  }
}
