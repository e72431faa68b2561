/** How a pixel is packed into the bytes of the frame buffer and read back. */
module PixelCodec {
  import opened Words

  /** A colour's place in a packed pixel: its position, and a mask of size ones. */
  datatype Channel = Channel(pos: nat, size: nat)

  datatype Pixel = Pixel(red: u8, green: u8, blue: u8)

  /** A packed pixel of width bytes and where its colours are. */
  datatype Layout = Layout(width: nat, red: Channel, green: Channel, blue: Channel)

  predicate ChannelsApart(c: Channel, d: Channel) {
    c.pos + c.size <= d.pos || d.pos + d.size <= c.pos
  }

  predicate LayoutOk(l: Layout) {
    && 1 <= l.width <= 4
    && l.red.size <= 8 && l.green.size <= 8 && l.blue.size <= 8
    && l.red.pos + l.red.size <= 8 * l.width && l.green.pos + l.green.size <= 8 * l.width
    && l.blue.pos + l.blue.size <= 8 * l.width
    && ChannelsApart(l.red, l.green) && ChannelsApart(l.red, l.blue) && ChannelsApart(l.green, l.blue)
  }

  /** The C expression `(value & mask) << position`. */
  function Place(x: nat, c: Channel): nat { Scale(Low(x, c.size), c.pos) }

  /** The C expression `(pixel >> position) & mask`. */
  function Take(v: nat, c: Channel): nat { Low(Shr(v, c.pos), c.size) }

  function Pack(p: Pixel, l: Layout): nat {
    BitOr(BitOr(Place(p.red, l.red), Place(p.green, l.green)), Place(p.blue, l.blue))
  }

  lemma {:induction false} LowByte(v: nat, size: nat)
    requires size <= 8
    ensures Low(v, size) < 0x100
  {
    Pow2Mono(size, 8);
    Pow2Literals();
  }

  function Unpack(v: nat, l: Layout): Pixel
    requires LayoutOk(l)
  {
    LowByte(Shr(v, l.red.pos), l.red.size);
    LowByte(Shr(v, l.green.pos), l.green.size);
    LowByte(Shr(v, l.blue.pos), l.blue.size);
    Pixel(Take(v, l.red), Take(v, l.green), Take(v, l.blue))
  }

  /** A placed colour has bits inside its channel only. */
  lemma PlacedBit(x: nat, c: Channel, k: nat)
    ensures Bit(Place(x, c), k) <==> c.pos <= k < c.pos + c.size && Bit(x, k - c.pos)
  {
    BitOfScale(Low(x, c.size), c.pos, k);
    if k >= c.pos { BitOfLow(x, c.size, k - c.pos); }
  }

  lemma PackedBit(p: Pixel, l: Layout, k: nat)
    ensures Bit(Pack(p, l), k) <==>
      Bit(Place(p.red, l.red), k) || Bit(Place(p.green, l.green), k) || Bit(Place(p.blue, l.blue), k)
  {
    BitOfOr(BitOr(Place(p.red, l.red), Place(p.green, l.green)), Place(p.blue, l.blue), k);
    BitOfOr(Place(p.red, l.red), Place(p.green, l.green), k);
  }

  /** Where only one colour has bits, taking its channel gives that colour, cut to its mask. */
  lemma TakeBack(v: nat, x: nat, c: Channel)
    requires forall k: nat :: c.pos <= k < c.pos + c.size ==> (Bit(v, k) <==> Bit(x, k - c.pos))
    ensures Take(v, c) == Low(x, c.size)
  {
    forall k: nat | k < c.size ensures Bit(Take(v, c), k) <==> Bit(Low(x, c.size), k) {
      BitOfLow(Shr(v, c.pos), c.size, k);
      BitOfShr(v, c.pos, k);
      BitOfLow(x, c.size, k);
      assert Bit(v, c.pos + k) <==> Bit(x, c.pos + k - c.pos);
    }
    SameBits(Take(v, c), Low(x, c.size), c.size);
  }

  lemma PackedRed(p: Pixel, l: Layout)
    requires LayoutOk(l)
    ensures Take(Pack(p, l), l.red) == Low(p.red, l.red.size)
  {
    forall k: nat | l.red.pos <= k < l.red.pos + l.red.size ensures Bit(Pack(p, l), k) <==> Bit(p.red, k - l.red.pos) {
      PackedBits(p, l, k);
    }
    TakeBack(Pack(p, l), p.red, l.red);
  }

  lemma PackedGreen(p: Pixel, l: Layout)
    requires LayoutOk(l)
    ensures Take(Pack(p, l), l.green) == Low(p.green, l.green.size)
  {
    forall k: nat | l.green.pos <= k < l.green.pos + l.green.size
      ensures Bit(Pack(p, l), k) <==> Bit(p.green, k - l.green.pos)
    {
      PackedBits(p, l, k);
    }
    TakeBack(Pack(p, l), p.green, l.green);
  }

  lemma PackedBlue(p: Pixel, l: Layout)
    requires LayoutOk(l)
    ensures Take(Pack(p, l), l.blue) == Low(p.blue, l.blue.size)
  {
    forall k: nat | l.blue.pos <= k < l.blue.pos + l.blue.size
      ensures Bit(Pack(p, l), k) <==> Bit(p.blue, k - l.blue.pos)
    {
      PackedBits(p, l, k);
    }
    TakeBack(Pack(p, l), p.blue, l.blue);
  }

  predicate In(k: nat, c: Channel) { c.pos <= k < c.pos + c.size }

  lemma PackedBits(p: Pixel, l: Layout, k: nat)
    ensures Bit(Pack(p, l), k) <==>
      (In(k, l.red) && Bit(p.red, k - l.red.pos)) || (In(k, l.green) && Bit(p.green, k - l.green.pos)) ||
      (In(k, l.blue) && Bit(p.blue, k - l.blue.pos))
  {
    hide Bit, Pack, Place;
    PackedBit(p, l, k);
    PlacedBit(p.red, l.red, k);
    PlacedBit(p.green, l.green, k);
    PlacedBit(p.blue, l.blue, k);
  }

  /** And bit k of a colour read back is bit k of its channel. */
  lemma UnpackBits(v: nat, l: Layout, k: nat)
    requires LayoutOk(l)
    ensures var p := Unpack(v, l);
      && (Bit(p.red, k) <==> k < l.red.size && Bit(v, l.red.pos + k))
      && (Bit(p.green, k) <==> k < l.green.size && Bit(v, l.green.pos + k))
      && (Bit(p.blue, k) <==> k < l.blue.size && Bit(v, l.blue.pos + k))
  {
    hide Bit;
    TakenBit(v, l.red, k);
    TakenBit(v, l.green, k);
    TakenBit(v, l.blue, k);
  }

  lemma TakenBit(v: nat, c: Channel, k: nat)
    ensures Bit(Take(v, c), k) <==> k < c.size && Bit(v, c.pos + k)
  {
    BitOfLow(Shr(v, c.pos), c.size, k);
    BitOfShr(v, c.pos, k);
  }

  lemma PlaceBound(x: nat, c: Channel, m: nat)
    requires c.pos + c.size <= m
    ensures Place(x, c) < Pow2(m)
  {
    ScaleStrict(Low(x, c.size), Pow2(c.size), c.pos);
    ScalePow2(c.size, c.pos);
    Pow2Mono(c.size + c.pos, m);
  }

  lemma PackBound(p: Pixel, l: Layout)
    requires LayoutOk(l)
    ensures Pack(p, l) < Range(l.width)
  {
    var m := 8 * l.width;
    RangeIsPow2(l.width);
    PlaceBound(p.red, l.red, m);
    PlaceBound(p.green, l.green, m);
    PlaceBound(p.blue, l.blue, m);
    OrBound(Place(p.red, l.red), Place(p.green, l.green), m);
    OrBound(BitOr(Place(p.red, l.red), Place(p.green, l.green)), Place(p.blue, l.blue), m);
  }

  /** The bytes of a pixel in the frame buffer. */
  function PixelBytes(p: Pixel, l: Layout): seq<u8> { FieldBytes(Pack(p, l), l.width) }

  /** A pixel cut to the masks of its channels. */
  function Masked(p: Pixel, l: Layout): Pixel
    requires LayoutOk(l)
  {
    LowByte(p.red, l.red.size);
    LowByte(p.green, l.green.size);
    LowByte(p.blue, l.blue.size);
    Pixel(Low(p.red, l.red.size), Low(p.green, l.green.size), Low(p.blue, l.blue.size))
  }

  /** Reading a written pixel back gives its colours, each cut to the bits the mode has for it. */
  lemma PixelRoundTrip(p: Pixel, l: Layout)
    requires LayoutOk(l)
    ensures Unpack(FieldValue(PixelBytes(p, l)), l) == Masked(p, l)
  {
    PackBound(p, l);
    ValueOfBytes(Pack(p, l), l.width);
    PackedRed(p, l);
    PackedGreen(p, l);
    PackedBlue(p, l);
  }

  // ---- Lines of pixels --------------------------------------------------------------------------

  /** x pixels of this many bytes. */
  function Bytes(x: nat, width: nat): nat { x * width }

  lemma BytesAdd(x: nat, n: nat, width: nat)
    ensures Bytes(x + n, width) == Bytes(x, width) + Bytes(n, width)
  {
  }

  lemma BytesOne(width: nat)
    ensures Bytes(1, width) == width && Bytes(0, width) == 0
  {
  }

  lemma BytesMono(x: nat, y: nat, width: nat)
    requires x <= y
    ensures Bytes(x, width) <= Bytes(y, width)
  {
    BytesAdd(x, y - x, width);
  }

  /** The bytes of a run of pixels in a line of the frame buffer. */
  function LineBytes(ps: seq<Pixel>, l: Layout): (b: seq<u8>)
    ensures |b| == Bytes(|ps|, l.width)
  {
    if ps == [] then []
    else
      var n := |ps| - 1;
      BytesAdd(n, 1, l.width);
      BytesOne(l.width);
      LineBytes(ps[..n], l) + PixelBytes(ps[n], l)
  }

  /** Pixel k's bytes are where the reader looks for them. */
  lemma {:induction false} LineAt(ps: seq<Pixel>, l: Layout, k: nat)
    requires k < |ps|
    ensures Bytes(k, l.width) + l.width <= |LineBytes(ps, l)|
    ensures LineBytes(ps, l)[Bytes(k, l.width)..Bytes(k, l.width) + l.width] == PixelBytes(ps[k], l)
    decreases |ps|
  {
    hide Bytes, PixelBytes;
    var n := |ps| - 1;
    BytesAdd(k, 1, l.width);
    BytesOne(l.width);
    BytesMono(k + 1, |ps|, l.width);
    if k < n {
      BytesMono(k + 1, n, l.width);
      LineAt(ps[..n], l, k);
      assert LineBytes(ps, l)[Bytes(k, l.width)..Bytes(k, l.width) + l.width] ==
        LineBytes(ps[..n], l)[Bytes(k, l.width)..Bytes(k, l.width) + l.width];
    }
  }

  /** Every pixel of a written line reads back as itself, cut to the masks. */
  lemma LineRoundTrip(ps: seq<Pixel>, l: Layout, k: nat)
    requires LayoutOk(l) && k < |ps|
    ensures Bytes(k, l.width) + l.width <= |LineBytes(ps, l)|
    ensures Unpack(FieldValue(LineBytes(ps, l)[Bytes(k, l.width)..Bytes(k, l.width) + l.width]), l) == Masked(ps[k], l)
  {
    hide Unpack, Masked, PixelBytes, LineBytes;
    LineAt(ps, l, k);
    PixelRoundTrip(ps[k], l);
  }

  /** The pixel that a line of the frame buffer shows at column x. */
  function RowPixel(row: seq<u8>, x: nat, l: Layout): Pixel
    requires LayoutOk(l) && Bytes(x, l.width) + l.width <= |row|
  {
    Unpack(FieldValue(row[Bytes(x, l.width)..Bytes(x, l.width) + l.width]), l)
  }

  lemma ColumnInside(x: nat, width: nat, k: nat, l: Layout)
    requires k < width
    ensures Bytes(x + k, l.width) + l.width <= Bytes(x, l.width) + Bytes(width, l.width)
    ensures Bytes(x + k, l.width) == Bytes(x, l.width) + Bytes(k, l.width)
    ensures Bytes(k, l.width) + l.width <= Bytes(width, l.width)
  {
    BytesAdd(x, k, l.width);
    BytesAdd(k, 1, l.width);
    BytesOne(l.width);
    BytesMono(k + 1, width, l.width);
  }

  /** A line that holds the bytes of pixels from column x on shows those pixels, cut to the masks. */
  lemma ShownPixel(row: seq<u8>, x: nat, ps: seq<Pixel>, k: nat, l: Layout)
    requires LayoutOk(l) && k < |ps| && Bytes(x, l.width) + Bytes(|ps|, l.width) <= |row|
    requires row[Bytes(x, l.width)..Bytes(x, l.width) + Bytes(|ps|, l.width)] == LineBytes(ps, l)
    ensures Bytes(x + k, l.width) + l.width <= |row| && RowPixel(row, x + k, l) == Masked(ps[k], l)
  {
    hide Bytes, LineBytes, Unpack, Masked, FieldValue;
    ColumnInside(x, |ps|, k, l);
    LineRoundTrip(ps, l, k);
    SliceOfSlice(row, Bytes(x, l.width), Bytes(|ps|, l.width), Bytes(k, l.width), l.width);
  }

  lemma SliceOfSlice<T>(row: seq<T>, a: nat, n: nat, i: nat, w: nat)
    requires a + n <= |row| && i + w <= n
    ensures row[a..a + n][i..i + w] == row[a + i..a + i + w]
  {
    var part, whole := row[a..a + n][i..i + w], row[a + i..a + i + w];
    forall j | 0 <= j < w ensures part[j] == whole[j] {}
    assert part == whole;
  }

  /** Two lines with the same bytes for a run of pixels show the same pixels there. */
  lemma SamePixel(row: seq<u8>, x: nat, row0: seq<u8>, x0: nat, width: nat, k: nat, l: Layout)
    requires LayoutOk(l) && k < width
    requires Bytes(x, l.width) + Bytes(width, l.width) <= |row| && Bytes(x0, l.width) + Bytes(width, l.width) <= |row0|
    requires row[Bytes(x, l.width)..Bytes(x, l.width) + Bytes(width, l.width)] ==
      row0[Bytes(x0, l.width)..Bytes(x0, l.width) + Bytes(width, l.width)]
    ensures Bytes(x + k, l.width) + l.width <= |row| && Bytes(x0 + k, l.width) + l.width <= |row0|
    ensures RowPixel(row, x + k, l) == RowPixel(row0, x0 + k, l)
  {
    hide Bytes, Unpack, FieldValue;
    ColumnInside(x, width, k, l);
    ColumnInside(x0, width, k, l);
    SliceOfSlice(row, Bytes(x, l.width), Bytes(width, l.width), Bytes(k, l.width), l.width);
    SliceOfSlice(row0, Bytes(x0, l.width), Bytes(width, l.width), Bytes(k, l.width), l.width);
  }
}
