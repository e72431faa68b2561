/** Block transfers on a VBE frame buffer: a shadow in memory, and the hardware buffer that mirrors it. A buffer is
    modelled line by line; xb is a byte offset within a line. */
module BiosVideo {
  import opened EfiTypes
  import opened Words
  import opened PixelCodec

  /** A rectangle's part of line y of the caller's buffer, whose rows Delta spaces out. */
  function BltLine(blt: array2<Pixel>, y: nat, x: nat, width: nat): (ps: seq<Pixel>)
    requires y < blt.Length0 && x + width <= blt.Length1
    reads blt
    ensures |ps| == width
  {
    seq(width, i requires 0 <= i < width reads blt => blt[y, x + i])
  }

  class BiosVideoDev {
    /** VbeFrameBuffer and the linear frame buffer. */
    const shadow: array2<u8>
    const hardware: array2<u8>
    const horizontalResolution: nat
    const layout: Layout

    /** Any mode of 24 or 32 bits a pixel whose colours have eight bits at most and places of their own, with lines that
        hold its pixels. */
    constructor (screen: array2<u8>, frameBuffer: array2<u8>, resolution: nat, l: Layout)
      requires screen != frameBuffer && (l.width == 3 || l.width == 4)
      requires frameBuffer.Length0 == screen.Length0 && frameBuffer.Length1 == screen.Length1
      requires resolution * l.width <= screen.Length1
      requires l.red.size <= 8 && l.green.size <= 8 && l.blue.size <= 8
      requires l.red.pos + l.red.size <= 8 * l.width && l.green.pos + l.green.size <= 8 * l.width
      requires l.blue.pos + l.blue.size <= 8 * l.width
      requires l.red.pos + l.red.size <= l.green.pos || l.green.pos + l.green.size <= l.red.pos
      requires l.red.pos + l.red.size <= l.blue.pos || l.blue.pos + l.blue.size <= l.red.pos
      requires l.green.pos + l.green.size <= l.blue.pos || l.blue.pos + l.blue.size <= l.green.pos
      ensures Valid() && shadow == screen && hardware == frameBuffer
      ensures horizontalResolution == resolution && layout == l
    {
      shadow, hardware, horizontalResolution, layout := screen, frameBuffer, resolution, l;
    }

    /** A mode's lines hold its pixels. */
    ghost predicate Valid()
      reads this
    {
      && shadow != hardware && LayoutOk(layout)
      && hardware.Length0 == shadow.Length0 && hardware.Length1 == shadow.Length1
      && Bytes(horizontalResolution, layout.width) <= shadow.Length1
    }

    /** The hardware shows the shadow, byte for byte. */
    ghost predicate Mirrored()
      requires Valid()
      reads this, shadow, hardware
    {
      forall y, b :: 0 <= y < shadow.Length0 && 0 <= b < shadow.Length1 ==> hardware[y, b] == shadow[y, b]
    }

    // ---- Updating the hardware buffer -----------------------------------------------------------

    /** One Mem.Write: n bytes of shadow line y0 from b on to hardware line y. */
    method MemWrite(y0: nat, y: nat, b: nat, n: nat)
      requires Valid() && y0 < shadow.Length0 && y < shadow.Length0 && b + n <= shadow.Length1
      modifies hardware
      ensures forall v, c :: 0 <= v < hardware.Length0 && 0 <= c < hardware.Length1 ==>
        hardware[v, c] == if v == y && b <= c < b + n then shadow[y0, c] else old(hardware[v, c])
    {
      forall j | b <= j < b + n {
        hardware[y, j] := shadow[y0, j];
      }
    }

    /** CopyVideoBuffer: bytes up to the first aligned address, then whole words, then the remaining bytes. */
    method CopyVideoBuffer(address: nat, y0: nat, y: nat, b: nat, total: nat)
      requires Valid() && y0 < shadow.Length0 && y < shadow.Length0 && b + total <= shadow.Length1
      modifies hardware
      ensures forall v, c :: 0 <= v < hardware.Length0 && 0 <= c < hardware.Length1 ==>
        hardware[v, c] == if v == y && b <= c < b + total then shadow[y0, c] else old(hardware[v, c])
    {
      if total < 4 {
        MemWrite(y0, y, b, total);
        return;
      }
      var unaligned := (4 - address % 4) % 4;
      if unaligned != 0 { MemWrite(y0, y, b, unaligned); }
      var blocks, remaining := (total - unaligned) / 4, (total - unaligned) % 4;
      if blocks != 0 { MemWrite(y0, y, b + unaligned, 4 * blocks); }
      if remaining != 0 { MemWrite(y0, y, b + unaligned + 4 * blocks, remaining); }
    }

    // ---- Video to video -------------------------------------------------------------------------

    /** CopyMem within the shadow: the source is read as it was before. */
    method MoveLine(srcY: nat, srcB: nat, dstY: nat, dstB: nat, total: nat)
      requires Valid() && srcY < shadow.Length0 && dstY < shadow.Length0
      requires srcB + total <= shadow.Length1 && dstB + total <= shadow.Length1
      modifies shadow
      ensures forall v, c :: 0 <= v < shadow.Length0 && 0 <= c < shadow.Length1 ==>
        shadow[v, c] == if v == dstY && dstB <= c < dstB + total then
          old(shadow[srcY, c - dstB + srcB]) else old(shadow[v, c])
    {
      forall c | dstB <= c < dstB + total {
        shadow[dstY, c] := shadow[srcY, c - dstB + srcB];
      }
    }

    /** One line of a move, in both buffers. */
    method MoveBoth(srcY: nat, srcB: nat, dstY: nat, dstB: nat, total: nat, base: nat)
      requires Valid() && Mirrored() && srcY < shadow.Length0 && dstY < shadow.Length0
      requires srcB + total <= shadow.Length1 && dstB + total <= shadow.Length1
      modifies shadow, hardware
      ensures Mirrored()
      ensures forall v, c :: 0 <= v < shadow.Length0 && 0 <= c < shadow.Length1 ==>
        shadow[v, c] == if v == dstY && dstB <= c < dstB + total then
          old(shadow[srcY, c - dstB + srcB]) else old(shadow[v, c])
    {
      MoveLine(srcY, srcB, dstY, dstB, total);
      CopyVideoBuffer(base + Bytes(dstY, shadow.Length1) + dstB, dstY, dstY, dstB, total);
    }

    /** The line loop of a move: downwards or upwards, so that no line is overwritten before it is copied. */
    method MoveLines(srcY: nat, from: nat, dstY: nat, to: nat, total: nat, height: nat, base: nat)
      requires Valid() && Mirrored() && srcY + height <= shadow.Length0 && dstY + height <= shadow.Length0
      requires from + total <= shadow.Length1 && to + total <= shadow.Length1
      modifies shadow, hardware
      ensures Mirrored()
      ensures forall v, c {:trigger shadow[v, c]} :: 0 <= v < shadow.Length0 && 0 <= c < shadow.Length1 ==>
        shadow[v, c] == if dstY <= v < dstY + height && to <= c < to + total then
                          old(shadow[v - dstY + srcY, c - to + from])
                        else old(shadow[v, c])
    {
      hide LayoutOk;
      var index := 0;
      while index < height
        invariant index <= height && Mirrored()
        invariant var lo := if dstY <= srcY then dstY else dstY + height - index;
          forall v, c {:trigger shadow[v, c]} :: 0 <= v < shadow.Length0 && 0 <= c < shadow.Length1 ==>
            shadow[v, c] == if lo <= v < lo + index && to <= c < to + total then
                              old(shadow[v - dstY + srcY, c - to + from])
                            else old(shadow[v, c])
      {
        var y, y' := srcY + index, dstY + index;
        if dstY > srcY { y, y' := srcY + height - index - 1, dstY + height - index - 1; }
        MoveBoth(y, from, y', to, total, base);
        index := index + 1;
      }
    }

    /** EfiBltVideoToVideo. The source rectangle is not checked; it must lie on the screen. */
    method VideoToVideo(srcX: nat, srcY: nat, dstX: nat, dstY: nat, width: nat, height: nat, base: nat)
      returns (status: Status)
      requires Valid() && Mirrored() && srcY + height <= shadow.Length0 && srcX + width <= horizontalResolution
      modifies shadow, hardware
      ensures Mirrored()
      ensures width == 0 || height == 0 || dstY + height > shadow.Length0 || dstX + width > horizontalResolution ==>
        status == EFI_INVALID_PARAMETER &&
        forall v, c :: 0 <= v < shadow.Length0 && 0 <= c < shadow.Length1 ==> shadow[v, c] == old(shadow[v, c])
      ensures width != 0 && height != 0 && dstY + height <= shadow.Length0 && dstX + width <= horizontalResolution ==>
        status == EFI_SUCCESS &&
        var from, to, total := Bytes(srcX, layout.width), Bytes(dstX, layout.width), Bytes(width, layout.width);
        forall v, c {:trigger shadow[v, c]} :: 0 <= v < shadow.Length0 && 0 <= c < shadow.Length1 ==>
          (dstY <= v < dstY + height && to <= c < to + total ==>
             0 <= c - to + from < shadow.Length1 && shadow[v, c] == old(shadow[v - dstY + srcY, c - to + from])) &&
          (!(dstY <= v < dstY + height && to <= c < to + total) ==> shadow[v, c] == old(shadow[v, c]))
      ensures status == EFI_SUCCESS ==> forall v, k :: dstY <= v < dstY + height && dstX <= k < dstX + width ==>
        ScreenPixel(v, k) == old(ScreenPixel(v - dstY + srcY, k - dstX + srcX))
    {
      hide Bytes, LayoutOk, RowPixel;
      if width == 0 || height == 0 { return EFI_INVALID_PARAMETER; }
      if dstY + height > shadow.Length0 || dstX + width > horizontalResolution { return EFI_INVALID_PARAMETER; }
      var from, to, total := Bytes(srcX, layout.width), Bytes(dstX, layout.width), Bytes(width, layout.width);
      BytesAdd(srcX, width, layout.width);
      BytesAdd(dstX, width, layout.width);
      BytesMono(srcX + width, horizontalResolution, layout.width);
      BytesMono(dstX + width, horizontalResolution, layout.width);
      MoveLines(srcY, from, dstY, to, total, height, base);
      forall v, k | dstY <= v < dstY + height && dstX <= k < dstX + width
        ensures ScreenPixel(v, k) == old(ScreenPixel(v - dstY + srcY, k - dstX + srcX))
      {
        var row, was := Row(v)[to..to + total], old(Row(v - dstY + srcY))[from..from + total];
        forall c | 0 <= c < total ensures row[c] == was[c] { assert row[c] == shadow[v, to + c]; }
        assert row == was;
        SamePixel(Row(v), dstX, old(Row(v - dstY + srcY)), srcX, width, k - dstX, layout);
      }
      status := EFI_SUCCESS;
    }

    // ---- Writing pixels -------------------------------------------------------------------------

    /** The pixel loop of one line. */
    method WriteLine(y: nat, b: nat, ps: seq<Pixel>)
      requires Valid() && y < shadow.Length0 && b + Bytes(|ps|, layout.width) <= shadow.Length1
      modifies shadow
      ensures forall v, c :: 0 <= v < shadow.Length0 && 0 <= c < shadow.Length1 ==>
        shadow[v, c] == if v == y && b <= c < b + Bytes(|ps|, layout.width) then LineBytes(ps, layout)[c - b]
                        else old(shadow[v, c])
    {
      hide Bytes, PixelBytes, LayoutOk;
      BytesOne(layout.width);
      var k, at := 0, b;
      while k < |ps|
        invariant k <= |ps| && at == b + Bytes(k, layout.width)
        invariant forall v, c :: 0 <= v < shadow.Length0 && 0 <= c < shadow.Length1 ==>
          shadow[v, c] == if v == y && b <= c < at then LineBytes(ps[..k], layout)[c - b] else old(shadow[v, c])
      {
        BytesAdd(k, 1, layout.width);
        BytesMono(k + 1, |ps|, layout.width);
        assert ps[..k + 1][..k] == ps[..k];
        WritePixel(y, at, ps[k]);
        k, at := k + 1, at + layout.width;
      }
      assert ps[..k] == ps;
    }

    /** CopyMem of one packed pixel. */
    method WritePixel(y: nat, b: nat, p: Pixel)
      requires Valid() && y < shadow.Length0 && b + layout.width <= shadow.Length1
      modifies shadow
      ensures forall v, c :: 0 <= v < shadow.Length0 && 0 <= c < shadow.Length1 ==>
        shadow[v, c] == if v == y && b <= c < b + layout.width then PixelBytes(p, layout)[c - b] else old(shadow[v, c])
    {
      var x := PixelBytes(p, layout);
      forall c | b <= c < b + layout.width {
        shadow[y, c] := x[c - b];
      }
    }

    /** EfiBltVideoFill: write one line, copy it to the others, then show them all. */
    method VideoFill(p: Pixel, dstX: nat, dstY: nat, width: nat, height: nat, base: nat) returns (status: Status)
      requires Valid() && Mirrored()
      modifies shadow, hardware
      ensures Mirrored()
      ensures status ==
        if width > 0 && height > 0 && dstY + height <= shadow.Length0 && dstX + width <= horizontalResolution
        then EFI_SUCCESS else EFI_INVALID_PARAMETER
      ensures var to, total := Bytes(dstX, layout.width), Bytes(width, layout.width);
        forall v, c :: 0 <= v < shadow.Length0 && 0 <= c < shadow.Length1 ==>
          shadow[v, c] == if status == EFI_SUCCESS && dstY <= v < dstY + height && to <= c < to + total
                          then LineBytes(seq(width, _ => p), layout)[c - to] else old(shadow[v, c])
      ensures status == EFI_SUCCESS ==> forall v, k :: dstY <= v < dstY + height && dstX <= k < dstX + width ==>
        ScreenPixel(v, k) == Masked(p, layout)
    {
      hide Bytes, LayoutOk, LineBytes, RowPixel, Masked;
      if width == 0 || height == 0 { return EFI_INVALID_PARAMETER; }
      if dstY + height > shadow.Length0 || dstX + width > horizontalResolution { return EFI_INVALID_PARAMETER; }
      var to, total := Bytes(dstX, layout.width), Bytes(width, layout.width);
      BytesAdd(dstX, width, layout.width);
      BytesMono(dstX + width, horizontalResolution, layout.width);
      var ps := seq(width, _ => p);
      WriteLine(dstY, to, ps);
      var y := dstY + 1;
      while y < dstY + height
        invariant dstY < y <= dstY + height
        invariant forall v, c :: 0 <= v < shadow.Length0 && 0 <= c < shadow.Length1 ==>
          hardware[v, c] == old(hardware[v, c])
        invariant forall v, c :: 0 <= v < shadow.Length0 && 0 <= c < shadow.Length1 ==>
          shadow[v, c] == if dstY <= v < y && to <= c < to + total then
            LineBytes(ps, layout)[c - to] else old(shadow[v, c])
      {
        MoveLine(dstY, to, y, to, total);
        y := y + 1;
      }
      ShowLines(dstY, dstY, height, to, total, base);
      forall v, k | dstY <= v < dstY + height && dstX <= k < dstX + width
        ensures ScreenPixel(v, k) == Masked(p, layout)
      {
        assert Row(v)[to..to + total] == LineBytes(ps, layout);
        ShownPixel(Row(v), dstX, ps, k - dstX, layout);
      }
      status := EFI_SUCCESS;
    }

    /** Show lines that all hold what line y0 holds: the source passes line y0's address for each of them. */
    method ShowLines(y0: nat, dstY: nat, height: nat, to: nat, total: nat, base: nat)
      requires Valid() && dstY + height <= shadow.Length0 && y0 < shadow.Length0 && to + total <= shadow.Length1
      requires forall v, c :: dstY <= v < dstY + height && to <= c < to + total ==> shadow[v, c] == shadow[y0, c]
      requires forall v, c :: 0 <= v < shadow.Length0 && 0 <= c < shadow.Length1 ==>
        (dstY <= v < dstY + height && to <= c < to + total) || hardware[v, c] == shadow[v, c]
      modifies hardware
      ensures Mirrored()
    {
      hide Bytes;
      var y := dstY;
      while y < dstY + height
        invariant dstY <= y <= dstY + height
        invariant forall v, c :: 0 <= v < shadow.Length0 && 0 <= c < shadow.Length1 ==>
          (y <= v < dstY + height && to <= c < to + total) || hardware[v, c] == shadow[v, c]
      {
        CopyVideoBuffer(base + Bytes(y0, shadow.Length1) + to, y0, y, to, total);
        y := y + 1;
      }
    }

    /** EfiBltBufferToVideo: pack and show line by line. */
    method BufferToVideo(blt: array2<Pixel>, srcX: nat, srcY: nat, dstX: nat, dstY: nat, width: nat, height: nat,
                         base: nat)
      returns (status: Status)
      requires Valid() && Mirrored() && srcX + width <= blt.Length1 && srcY + height <= blt.Length0
      modifies shadow, hardware
      ensures Mirrored()
      ensures status ==
        if width > 0 && height > 0 && dstY + height <= shadow.Length0 && dstX + width <= horizontalResolution
        then EFI_SUCCESS else EFI_INVALID_PARAMETER
      ensures var to, total := Bytes(dstX, layout.width), Bytes(width, layout.width);
        forall v, c :: 0 <= v < shadow.Length0 && 0 <= c < shadow.Length1 ==>
          shadow[v, c] == if status == EFI_SUCCESS && dstY <= v < dstY + height && to <= c < to + total
                          then LineBytes(BltLine(blt, v - dstY + srcY, srcX, width), layout)[c - to]
                            else old(shadow[v, c])
      ensures status == EFI_SUCCESS ==> forall v, k :: dstY <= v < dstY + height && dstX <= k < dstX + width ==>
        ScreenPixel(v, k) == Masked(blt[v - dstY + srcY, k - dstX + srcX], layout)
    {
      hide Bytes, LayoutOk, LineBytes, RowPixel, Masked;
      if width == 0 || height == 0 { return EFI_INVALID_PARAMETER; }
      if dstY + height > shadow.Length0 || dstX + width > horizontalResolution { return EFI_INVALID_PARAMETER; }
      var to, total := Bytes(dstX, layout.width), Bytes(width, layout.width);
      BytesAdd(dstX, width, layout.width);
      BytesMono(dstX + width, horizontalResolution, layout.width);
      var i := 0;
      while i < height
        invariant i <= height && Mirrored()
        invariant forall v, c :: 0 <= v < shadow.Length0 && 0 <= c < shadow.Length1 ==>
          shadow[v, c] == if dstY <= v < dstY + i && to <= c < to + total
                          then LineBytes(BltLine(blt, v - dstY + srcY, srcX, width), layout)[c - to]
                            else old(shadow[v, c])
      {
        WriteBoth(dstY + i, to, BltLine(blt, srcY + i, srcX, width), base);
        i := i + 1;
      }
      forall v, k | dstY <= v < dstY + height && dstX <= k < dstX + width
        ensures ScreenPixel(v, k) == Masked(blt[v - dstY + srcY, k - dstX + srcX], layout)
      {
        assert Row(v)[to..to + total] == LineBytes(BltLine(blt, v - dstY + srcY, srcX, width), layout);
        ShownPixel(Row(v), dstX, BltLine(blt, v - dstY + srcY, srcX, width), k - dstX, layout);
      }
      status := EFI_SUCCESS;
    }

    /** One line of pixels, in both buffers. */
    method WriteBoth(y: nat, b: nat, ps: seq<Pixel>, base: nat)
      requires Valid() && Mirrored() && y < shadow.Length0 && b + Bytes(|ps|, layout.width) <= shadow.Length1
      modifies shadow, hardware
      ensures Mirrored()
      ensures forall v, c :: 0 <= v < shadow.Length0 && 0 <= c < shadow.Length1 ==>
        shadow[v, c] == if v == y && b <= c < b + Bytes(|ps|, layout.width) then LineBytes(ps, layout)[c - b]
                        else old(shadow[v, c])
    {
      hide Bytes, LineBytes;
      WriteLine(y, b, ps);
      CopyVideoBuffer(base + Bytes(y, shadow.Length1) + b, y, y, b, Bytes(|ps|, layout.width));
    }

    // ---- Reading pixels -------------------------------------------------------------------------

    /** Line y of the shadow. */
    function Row(y: nat): (row: seq<u8>)
      requires y < shadow.Length0
      reads this, shadow
      ensures |row| == shadow.Length1
    {
      seq(shadow.Length1, b requires 0 <= b < shadow.Length1 reads this, shadow => shadow[y, b])
    }

    /** The pixel the screen shows at column x of line y. */
    ghost function ScreenPixel(y: nat, x: nat): Pixel
      requires Valid() && y < shadow.Length0 && x < horizontalResolution
      reads this, shadow
    {
      InLine(x, horizontalResolution, layout.width);
      RowPixel(Row(y), x, layout)
    }

    /** EfiBltVideoToBltBuffer: unpack the rectangle from the shadow. */
    method VideoToBuffer(blt: array2<Pixel>, srcX: nat, srcY: nat, dstX: nat, dstY: nat, width: nat, height: nat)
      returns (status: Status)
      requires Valid() && dstX + width <= blt.Length1 && dstY + height <= blt.Length0
      modifies blt
      ensures status ==
        if width > 0 && height > 0 && srcY + height <= shadow.Length0 && srcX + width <= horizontalResolution
        then EFI_SUCCESS else EFI_INVALID_PARAMETER
      ensures forall v, k :: 0 <= v < blt.Length0 && 0 <= k < blt.Length1 ==>
        blt[v, k] == if status == EFI_SUCCESS && dstY <= v < dstY + height && dstX <= k < dstX + width
          then ScreenPixel(v - dstY + srcY, k - dstX + srcX) else old(blt[v, k])
    {
      hide LayoutOk, ScreenPixel;
      if width == 0 || height == 0 { return EFI_INVALID_PARAMETER; }
      if srcY + height > shadow.Length0 || srcX + width > horizontalResolution { return EFI_INVALID_PARAMETER; }
      var i := 0;
      while i < height
        invariant i <= height
        invariant forall v, k :: 0 <= v < blt.Length0 && 0 <= k < blt.Length1 ==>
          blt[v, k] == if dstY <= v < dstY + i && dstX <= k < dstX + width
            then ScreenPixel(v - dstY + srcY, k - dstX + srcX) else old(blt[v, k])
      {
        ReadLine(blt, srcX, srcY + i, dstX, dstY + i, width);
        i := i + 1;
      }
      status := EFI_SUCCESS;
    }

    /** The pixel loop of one line. */
    method ReadLine(blt: array2<Pixel>, srcX: nat, y: nat, dstX: nat, y': nat, width: nat)
      requires Valid() && y < shadow.Length0 && y' < blt.Length0 && dstX + width <= blt.Length1
      requires srcX + width <= horizontalResolution
      modifies blt
      ensures forall v, k :: 0 <= v < blt.Length0 && 0 <= k < blt.Length1 ==>
        blt[v, k] == if v == y' && dstX <= k < dstX + width then ScreenPixel(y, k - dstX + srcX) else old(blt[v, k])
    {
      hide LayoutOk, Unpack, FieldValue, Bytes;
      var x, at := dstX, Bytes(srcX, layout.width);
      while x < dstX + width
        invariant dstX <= x <= dstX + width && at == Bytes(x - dstX + srcX, layout.width)
        invariant forall v, k :: 0 <= v < blt.Length0 && 0 <= k < blt.Length1 ==>
          blt[v, k] == if v == y' && dstX <= k < x then ScreenPixel(y, k - dstX + srcX) else old(blt[v, k])
      {
        InLine(x - dstX + srcX, horizontalResolution, layout.width);
        blt[y', x] := Unpack(FieldValue(Row(y)[at..at + layout.width]), layout);
        BytesAdd(x - dstX + srcX, 1, layout.width);
        BytesOne(layout.width);
        x, at := x + 1, at + layout.width;
      }
    }
  }

  lemma InLine(k: nat, resolution: nat, width: nat)
    requires k < resolution
    ensures Bytes(k, width) + width <= Bytes(resolution, width)
  {
    BytesAdd(k, 1, width);
    BytesOne(width);
    BytesMono(k + 1, resolution, width);
  }
}
