/** The decompressor as the source runs it: one scratch record whose buffers, tables and counters every step updates. */
module TianoDecompress {
  import opened EfiTypes
  import opened Words
  import opened BitStream
  import opened BitReader
  import opened CanonicalCode
  import opened HuffmanTrie
  import opened MakeTable
  import opened TianoFormat

  const BITBUFSIZ: nat := 32

  // ---- Symbol lookup ----------------------------------------------------------------------------

  /** Table, tree and length array agree with the code of a set of n symbols. */
  ghost predicate TableFor(code: Code, n: nat, bits: nat, t: Trie, lens: seq<nat>) {
    && |t.table| >= Pow2(bits) && |lens| >= n
    && match code
       case Single(s) =>
         && s < n && (forall i: nat :: i < Pow2(bits) ==> t.table[i] == s)
         && (forall i :: 0 <= i < n ==> lens[i] == 0)
       case Canonical(l) => |l| == n && lens[..n] == l && Decodes(t, bits, l)
  }

  /** What the lookup must return for the 32-bit buffer buf. */
  ghost predicate Found(code: Code, n: nat, buf: nat, s: nat) {
    s < n && match code
             case Single(only) => s == only
             case Canonical(l) => IsPrefix(l, s, Shr(buf, CODE_BIT))
  }

  lemma TopWindow(buf: u32)
    ensures Shr(buf, CODE_BIT) < CODE_SPACE
  {
    Pow2Literals();
    ShrBelow(buf, CODE_BIT, CODE_BIT);
  }

  lemma EntryIndex(buf: u32, bits: nat)
    requires bits <= CODE_BIT
    ensures Shr(buf, BITBUFSIZ - bits) == Shr(Shr(buf, CODE_BIT), CODE_BIT - bits) < Pow2(bits)
  {
    TopWindow(buf);
    TopBits(Shr(buf, CODE_BIT), bits);
    ShrShr(buf, CODE_BIT, CODE_BIT - bits);
  }

  lemma {:induction false} MaskStep(k: nat)
    requires k > 0
    ensures Pow2(k) / 2 == Pow2(k - 1)
  {
  }

  /** The mask that selects bit m - 1 of the leading 16 bits of the buffer. */
  lemma MaskOfWindow(buf: nat, m: nat)
    requires m > 0
    ensures TestMask(buf, Pow2(m - 1 + CODE_BIT)) <==> Bit(Shr(buf, CODE_BIT), m - 1)
  {
    MaskIsBit(buf, m - 1 + CODE_BIT);
    BitOfShr(buf, CODE_BIT, m - 1);
  }

  /** Index the table, then follow the tree bit by bit (the loop DecodeC, DecodeP and ReadCLen each contain). */
  method FindSymbol(ghost code: Code, n: nat, bits: nat, table: array<u16>, left: array<u16>, right: array<u16>,
                    ghost lens: seq<nat>, buf: u32)
    returns (val: u16)
    requires bits < CODE_BIT && CodeOk(code, n)
    requires TableFor(code, n, bits, Snap(table, left, right), lens)
    ensures Found(code, n, buf, val)
  {
    EntryIndex(buf, bits);
    TopWindow(buf);
    val := table[Shr(buf, BITBUFSIZ - bits)];
    if val >= n {
      val := WalkTree(code.lens, n, bits, table, left, right, val, buf);
    } else if code.Canonical? {
      assert IsPrefix(code.lens, Lookup(Snap(table, left, right), bits, n, Shr(buf, CODE_BIT)), Shr(buf, CODE_BIT));
    }
  }

  method WalkTree(ghost l: seq<nat>, n: nat, bits: nat, table: array<u16>, left: array<u16>, right: array<u16>,
                  entry: u16, buf: u32)
    returns (val: u16)
    requires bits < CODE_BIT && Decodes(Snap(table, left, right), bits, l) && |l| == n
    requires Shr(buf, BITBUFSIZ - bits) < Pow2(bits) && entry == table[Shr(buf, BITBUFSIZ - bits)]
    ensures val < n && IsPrefix(l, val, Shr(buf, CODE_BIT))
  {
    ghost var t, w := Snap(table, left, right), Shr(buf, CODE_BIT);
    TopWindow(buf);
    EntryIndex(buf, bits);
    assert IsPrefix(l, Lookup(t, bits, n, w), w);
    val := entry;
    var mask := Pow2(BITBUFSIZ - 1 - bits);
    ghost var m: nat := CODE_BIT - bits;
    while val >= n
      invariant Walk(t, n, val, m, w) == Lookup(t, bits, n, w)
      invariant m > 0 ==> mask == Pow2(m - 1 + CODE_BIT)
      decreases m
    {
      MaskOfWindow(buf, m);
      MaskStep(m - 1 + CODE_BIT);
      if TestMask(buf, mask) {
        val := right[val];
      } else {
        val := left[val];
      }
      mask := mask / 2;
      m := m - 1;
    }
  }

  /** The ones that follow after three ones at p and k more. */
  function OnesFrom(src: seq<u8>, p: int, k: nat): nat
    requires k <= 10
  {
    Ones(src, p + 3 + k, 10 - k)
  }

  /** The C expression `(UINT32) (x << n)`. */
  function Shl32(x: nat, n: nat): u32 {
    Pow2Literals();
    Low(Scale(x, n), BITBUFSIZ)
  }

  /** RefillStep at the source's width. */
  lemma TakeStep(src: seq<u8>, q: int, n: nat, buf: nat, sub: nat, count: nat, inBuf: nat, compSize: nat, n': nat)
    requires n <= BITBUFSIZ && Reads(src, q, BITBUFSIZ, n, buf, sub, count, inBuf, compSize) && n == n' + count &&
      count < n
    ensures BitOr(buf, Shl32(sub, n')) < 0x1_0000_0000
    ensures compSize > 0 ==>
      inBuf < |src| && Reads(src, q, BITBUFSIZ, n', BitOr(buf, Shl32(sub, n')), src[inBuf], 8, inBuf + 1, compSize - 1)
    ensures compSize == 0 ==> Reads(src, q, BITBUFSIZ, n', BitOr(buf, Shl32(sub, n')), 0, 8, inBuf, 0)
  {
    Pow2Literals();
    RefillStep(src, q, BITBUFSIZ, n, buf, sub, count, inBuf, compSize);
  }

  /** EndRefill at the source's width. */
  lemma EndStep(src: seq<u8>, q: int, n: nat, buf: nat, sub: nat, count: nat, inBuf: nat, compSize: nat, keep: nat)
    requires n <= BITBUFSIZ && Reads(src, q, BITBUFSIZ, n, buf, sub, count, inBuf, compSize) && keep + n == count
    ensures BitOr(buf, Shr(sub, keep)) < 0x1_0000_0000
    ensures Reads(src, q, BITBUFSIZ, 0, BitOr(buf, Shr(sub, keep)), sub, keep, inBuf, compSize)
  {
    Pow2Literals();
    EndRefill(src, q, BITBUFSIZ, n, buf, sub, count, inBuf, compSize);
  }

  lemma ByteFits(x: u32, n: nat)
    ensures Shr(x, n) < 0x1_0000_0000
  {
    ShrLess(x, n);
  }

  /** SCRATCH_DATA. The arrays are embedded in the source's record, so they never change identity. */
  class ScratchData {
    const mSrcBase: seq<u8>
    const mDstBase: array<u8>
    const mOrigSize: u32
    const mPBit: nat
    const mLeft: array<u16>
    const mRight: array<u16>
    const mCLen: array<u8>
    const mPTLen: array<u8>
    const mCTable: array<u16>
    const mPTTable: array<u16>

    var mOutBuf: u32
    var mInBuf: nat
    var mBitCount: u16
    var mBitBuf: u32
    var mSubBitBuf: u32
    var mBlockSize: u16
    var mCompSize: nat
    var mBadTableFlag: u16

    /** The stream position of the first bit in mBitBuf. */
    ghost var pos: int

    /** A cleared record, just before the first FillBuf: its empty buffers stand for 32 zero bits before the stream. */
    constructor (src: seq<u8>, dst: array<u8>, origSize: u32, pbit: nat)
      requires dst.Length == origSize
      ensures Shaped() && Synced() && pos == -32 && Wrote([]) && mBadTableFlag == 0 && mBlockSize == 0
      ensures mSrcBase == src && mDstBase == dst && mOrigSize == origSize && mPBit == pbit
      ensures fresh(mLeft) && fresh(mRight) && fresh(mCLen) && fresh(mPTLen) && fresh(mCTable) && fresh(mPTTable)
    {
      mSrcBase, mDstBase, mOrigSize, mPBit := src, dst, origSize, pbit;
      mLeft := new u16[2 * NC - 1](_ => 0);
      mRight := new u16[2 * NC - 1](_ => 0);
      mCLen := new u8[NC](_ => 0);
      mPTLen := new u8[MAXNP](_ => 0);
      mCTable := new u16[4096](_ => 0);
      mPTTable := new u16[256](_ => 0);
      mOutBuf, mInBuf, mBitCount, mBitBuf, mSubBitBuf := 0, 0, 0, 0, 0;
      mBlockSize, mCompSize, mBadTableFlag, pos := 0, |src|, 0, -32;
      new;
      BlankReads(src);
    }

    /** The bit buffers hold the stream from pos on, whatever calls came before. */
    ghost predicate Synced()
      reads this
    {
      Reads(mSrcBase, pos, BITBUFSIZ, 0, mBitBuf, mSubBitBuf, mBitCount, mInBuf, mCompSize)
    }

    /** All fields agree while the buffer, starting at stream position q, is n bits short. */
    ghost predicate Filling(q: int, n: int)
      reads this
    {
      0 <= n <= BITBUFSIZ && Reads(mSrcBase, q, BITBUFSIZ, n, mBitBuf, mSubBitBuf, mBitCount, mInBuf, mCompSize)
    }

    /** One turn of FillBuf's loop. */
    method TakeByte(numOfBits: int, ghost q: int) returns (n: int)
      requires Filling(q, numOfBits) && numOfBits > mBitCount
      modifies `mBitBuf, `mBitCount, `mSubBitBuf, `mInBuf, `mCompSize
      ensures Filling(q, n) && n == numOfBits - old(mBitCount) && mBitCount == 8
    {
      n := numOfBits - mBitCount;
      TakeStep(mSrcBase, q, numOfBits, mBitBuf, mSubBitBuf, mBitCount, mInBuf, mCompSize, n);
      mBitBuf := BitOr(mBitBuf, Shl32(mSubBitBuf, n));
      if mCompSize > 0 {
        mCompSize := mCompSize - 1;
        mSubBitBuf := mSrcBase[mInBuf];
        mInBuf := mInBuf + 1;
        mBitCount := 8;
      } else {
        mSubBitBuf := 0;
        mBitCount := 8;
      }
    }

    method ShiftBuffer(numOfBits: u16)
      requires Synced() && numOfBits <= 32
      modifies `mBitBuf
      ensures Filling(pos + numOfBits, numOfBits)
    {
      BeginRefill(mSrcBase, pos, BITBUFSIZ, numOfBits, mBitBuf, mSubBitBuf, mBitCount, mInBuf, mCompSize);
      mBitBuf := Shl32(mBitBuf, numOfBits);
    }

    method FinishFill(n: int)
      requires Filling(pos, n) && n <= mBitCount
      modifies `mBitBuf, `mBitCount
      ensures Synced()
    {
      var keep := mBitCount - n;
      EndStep(mSrcBase, pos, n, mBitBuf, mSubBitBuf, mBitCount, mInBuf, mCompSize, keep);
      mBitCount := keep;
      mBitBuf := BitOr(mBitBuf, Shr(mSubBitBuf, keep));
    }

    /** Shift the buffer left and refill it from the byte buffer and the source. */
    method FillBuf(numOfBits: u16)
      requires Synced() && numOfBits <= 32
      modifies `mBitBuf, `mBitCount, `mSubBitBuf, `mInBuf, `mCompSize, `pos
      ensures Synced() && pos == old(pos) + numOfBits
    {
      ShiftBuffer(numOfBits);
      pos := pos + numOfBits;
      var n: int := numOfBits;
      while n > mBitCount
        invariant Filling(pos, n) && pos == old(pos) + numOfBits
        decreases n, 8 - mBitCount
      {
        n := TakeByte(n, pos);
      }
      FinishFill(n);
    }

    /** The leading n bits of the buffer, as the source reads them by shifting right. */
    lemma BufferTop(n: nat)
      requires Synced() && n <= BITBUFSIZ
      ensures Shr(mBitBuf, BITBUFSIZ - n) == Window(mSrcBase, pos, n)
    {
      WindowShr(mSrcBase, pos, n, BITBUFSIZ - n);
    }

    method GetBits(numOfBits: u16) returns (outBits: u32)
      requires Synced() && 1 <= numOfBits <= 32
      modifies `mBitBuf, `mBitCount, `mSubBitBuf, `mInBuf, `mCompSize, `pos
      ensures Synced() && pos == old(pos) + numOfBits
      ensures outBits == Window(mSrcBase, old(pos), numOfBits)
    {
      BufferTop(numOfBits);
      ByteFits(mBitBuf, BITBUFSIZ - numOfBits);
      outBits := Shr(mBitBuf, BITBUFSIZ - numOfBits);
      FillBuf(numOfBits);
    }

    // ---- Code lengths ---------------------------------------------------------------------------

    lemma MaskOfStream(j: nat)
      requires Synced() && j < BITBUFSIZ
      ensures TestMask(mBitBuf, Pow2(BITBUFSIZ - 1 - j)) <==> StreamBit(mSrcBase, pos + j)
    {
      MaskIsBit(mBitBuf, BITBUFSIZ - 1 - j);
      WindowBit(mSrcBase, pos, BITBUFSIZ, BITBUFSIZ - 1 - j);
    }

    /** The mask after k turns tells whether one more one follows. */
    lemma CountStep(k: nat)
      requires Synced() && k < 10
      ensures TestMask(mBitBuf, Pow2(28 - k)) <==> OnesFrom(mSrcBase, pos, k) > 0
      ensures OnesFrom(mSrcBase, pos, k) > 0 ==> OnesFrom(mSrcBase, pos, k) == 1 + OnesFrom(mSrcBase, pos, k + 1)
    {
      MaskOfStream(3 + k);
    }

    /** After three ones: count the ones that follow, by moving a mask along the buffer. */
    method ExtendLength() returns (charC: u16)
      requires Synced() && OnesFrom(mSrcBase, pos, 0) < 10
      ensures charC == 7 + OnesFrom(mSrcBase, pos, 0)
    {
      charC := 7;
      var mask := Pow2(28);
      ghost var k: nat := 0;
      CountStep(0);
      while TestMask(mBitBuf, mask)
        invariant k < 10 && charC == 7 + k && mask == Pow2(28 - k)
        invariant OnesFrom(mSrcBase, pos, 0) == k + OnesFrom(mSrcBase, pos, k)
        invariant TestMask(mBitBuf, mask) <==> OnesFrom(mSrcBase, pos, k) > 0
        decreases 10 - k
      {
        CountStep(k);
        MaskStep(28 - k);
        mask := mask / 2;
        charC := charC + 1;
        k := k + 1;
        CountStep(k);
      }
    }

    /** One code length of the Extra Set or the Position Set. */
    method ReadOneLength() returns (charC: u16)
      requires Synced() && pos >= 0 && ReadLength(mSrcBase, pos).Got?
      modifies `mBitBuf, `mBitCount, `mSubBitBuf, `mInBuf, `mCompSize, `pos
      ensures Synced() && pos >= 0 && charC <= 16
      ensures Got(charC, pos) == ReadLength(mSrcBase, old(pos))
    {
      BufferTop(3);
      SmallWindow(mSrcBase, pos);
      charC := Shr(mBitBuf, BITBUFSIZ - 3);
      if charC == 7 {
        charC := ExtendLength();
      }
      FillBuf(if charC < 7 then 3 else charC - 3);
    }

    /** The arrays have the source's sizes and are pairwise different. */
    ghost predicate Shaped() {
      && mLeft.Length == 2 * NC - 1 && mRight.Length == 2 * NC - 1
      && mCLen.Length == NC && mPTLen.Length == MAXNP && mCTable.Length == 4096 && mPTTable.Length == 256
      && mLeft != mRight && mLeft != mCTable && mLeft != mPTTable && mRight != mCTable && mRight != mPTTable
      && mCTable != mPTTable && mCLen != mPTLen && mDstBase != mCLen && mDstBase != mPTLen
      && ByteArraysApart(mCLen) && ByteArraysApart(mPTLen) && ByteArraysApart(mDstBase)
    }

    ghost predicate ByteArraysApart(a: array<u8>) {
      var o: object := a;
      o != mLeft && o != mRight && o != mCTable && o != mPTTable
    }

    method ReadPTItem(index: nat, special: nat, ghost acc: seq<nat>) returns (next: nat, ghost more: seq<nat>)
      requires Shaped() && Synced() && pos >= 0 && index < MAXNP && (special == 3 || special == NO_SPECIAL)
      requires index == |acc| && Begins(mPTLen[..], acc) && PTItem(mSrcBase, pos, special, acc).Got?
      modifies `mBitBuf, `mBitCount, `mSubBitBuf, `mInBuf, `mCompSize, `pos, mPTLen
      ensures Synced() && pos >= 0 && next == |more| <= MAXNP && index < next && Begins(mPTLen[..], more)
      ensures Got(more, pos) == PTItem(mSrcBase, old(pos), special, acc)
    {
      var charC := ReadOneLength();
      mPTLen[index] := charC;
      next := index + 1;
      more := acc + [charC];
      if next == special {
        var run := GetBits(2);
        RunOfTwo(mSrcBase, pos - 2);
        next := ZeroRunAt(mPTLen, next, run);
        more := more + Zeros(run);
      }
    }

    /** The loop of ReadPTLen over the printed lengths. */
    method ReadPTItems(number: nat, special: nat) returns (index: nat, ghost acc: seq<nat>)
      requires Shaped() && Synced() && pos >= 0 && number <= MAXNP && (special == 3 || special == NO_SPECIAL)
      requires ReadLengths(mSrcBase, pos, number, special, []).Got?
      modifies `mBitBuf, `mBitCount, `mSubBitBuf, `mInBuf, `mCompSize, `pos, mPTLen
      ensures Synced() && pos >= 0 && index == |acc| && Begins(mPTLen[..], acc)
      ensures Got(acc, pos) == ReadLengths(mSrcBase, old(pos), number, special, [])
    {
      index, acc := 0, [];
      while index < number
        invariant Synced() && pos >= 0 && index == |acc| <= MAXNP && Begins(mPTLen[..], acc)
        invariant ReadLengths(mSrcBase, pos, number, special, acc) ==
          ReadLengths(mSrcBase, old(pos), number, special, [])
      {
        index, acc := ReadPTItem(index, special, acc);
      }
    }

    // ---- The code of the Extra Set or the Position Set ------------------------------------------

    /** What ReadPTLen leaves behind when the format gives r. */
    ghost predicate PTDone(r: Read<Code>, nn: nat, status: u16)
      reads this, mPTTable, mPTLen, mLeft, mRight
    {
      match r
      case BadTable => status == BAD_TABLE
      case Outside => false
      case Got(code, p) => status == 0 && pos == p && TableFor(code, nn, 8, Snap(mPTTable, mLeft, mRight), mPTLen[..])
    }

    /** The Number == 0 case: every entry names one symbol, and all lengths are zero. */
    method SinglePT(charC: u16, nn: nat)
      requires Shaped() && charC < nn <= MAXNP && pos >= 0
      modifies mPTTable, mPTLen
      ensures PTDone(Got(Single(charC), pos), nn, 0)
      ensures OthersKept(old(Snap(mPTTable, mLeft, mRight)), Snap(mPTTable, mLeft, mRight), nn, nn - 1)
    {
      TableSizes();
      for i := 0 to 256
        invariant forall k :: 0 <= k < i ==> mPTTable[k] == charC
      {
        mPTTable[i] := charC;
      }
      for i := 0 to nn
        invariant forall k :: 0 <= k < 256 ==> mPTTable[k] == charC
        invariant forall k :: 0 <= k < i ==> mPTLen[k] == 0
      {
        mPTLen[i] := 0;
      }
    }

    method ReadPTLen(nn: nat, nbit: u16, special: nat) returns (status: u16)
      requires Shaped() && Synced() && pos >= 0 && 1 <= nn <= MAXNP && 1 <= nbit <= 5
      requires special == 3 || special == NO_SPECIAL
      requires !ReadPTCode(mSrcBase, pos, nn, nbit, special).Outside?
      modifies `mBitBuf, `mBitCount, `mSubBitBuf, `mInBuf, `mCompSize, `pos, mPTLen, mPTTable, mLeft, mRight
      ensures Synced() && pos >= 0
      ensures PTDone(ReadPTCode(mSrcBase, old(pos), nn, nbit, special), nn, status)
      ensures OthersKept(old(Snap(mPTTable, mLeft, mRight)), Snap(mPTTable, mLeft, mRight), nn, nn - 1)
    {
      ghost var p0 := pos;
      FewBits(mSrcBase, p0, nbit);
      var number := GetBits(nbit);
      if number == 0 {
        PTCodeSingle(mSrcBase, p0, nn, nbit, special);
        ReadSinglePT(nn, nbit);
        status := 0;
      } else {
        PTCodeLengths(mSrcBase, p0, nn, nbit, special);
        status := ReadPTTable(number, nn, special);
      }
    }

    /** A count of zero is followed by the one symbol of the set. */
    method ReadSinglePT(nn: nat, nbit: u16)
      requires Shaped() && Synced() && pos >= 0 && 1 <= nn <= MAXNP && 1 <= nbit <= 5
      requires Window(mSrcBase, pos, nbit) < nn
      modifies `mBitBuf, `mBitCount, `mSubBitBuf, `mInBuf, `mCompSize, `pos, mPTLen, mPTTable
      ensures Synced() && pos >= 0
      ensures PTDone(Got(Single(Window(mSrcBase, old(pos), nbit)), old(pos) + nbit), nn, 0)
      ensures OthersKept(old(Snap(mPTTable, mLeft, mRight)), Snap(mPTTable, mLeft, mRight), nn, nn - 1)
    {
      var charC := GetBits(nbit);
      SinglePT(charC, nn);
    }

    /** The code that printed lengths make. */
    ghost function PTTable(number: nat, nn: nat, special: nat): Read<Code>
      requires pos >= 0
      reads this
    {
      var (acc, p) :- ReadLengths(mSrcBase, pos, number, special, []);
      MakeCode(Fit(acc, nn), p)
    }

    /** Read the printed lengths and build the table from them. */
    method ReadPTTable(number: nat, nn: nat, special: nat) returns (status: u16)
      requires Shaped() && Synced() && pos >= 0 && number <= MAXNP && 1 <= nn <= MAXNP
      requires special == 3 || special == NO_SPECIAL
      requires ReadLengths(mSrcBase, pos, number, special, []).Got? && !PTTable(number, nn, special).Outside?
      modifies `mBitBuf, `mBitCount, `mSubBitBuf, `mInBuf, `mCompSize, `pos, mPTLen, mPTTable, mLeft, mRight
      ensures Synced() && pos >= 0
      ensures PTDone(old(PTTable(number, nn, special)), nn, status)
      ensures OthersKept(old(Snap(mPTTable, mLeft, mRight)), Snap(mPTTable, mLeft, mRight), nn, nn - 1)
    {
      var index; ghost var acc;
      index, acc := ReadPTItems(number, special);
      status := FinishPT(nn, index, acc);
    }

    /** Pad the lengths with zeros and build the table. */
    method FinishPT(nn: nat, index: nat, ghost acc: seq<nat>) returns (status: u16)
      requires Shaped() && pos >= 0 && 1 <= nn <= MAXNP && index == |acc| && Begins(mPTLen[..], acc)
      requires !MakeCode(Fit(acc, nn), pos).Outside?
      modifies mPTLen, mPTTable, mLeft, mRight
      ensures PTDone(MakeCode(Fit(acc, nn), pos), nn, status)
      ensures OthersKept(old(Snap(mPTTable, mLeft, mRight)), Snap(mPTTable, mLeft, mRight), nn, nn - 1)
    {
      ghost var before := mPTLen[..];
      ZeroRest(mPTLen, index, nn);
      BeginsFit(before, mPTLen[..], acc, nn);
      TableSizes();
      MakeTable.CompleteFits(mPTLen[..nn]);
      status := MakeTable.MakeTable(mPTLen[..nn], 8, mPTTable, mLeft, mRight);
    }

    // ---- Decoding a symbol ----------------------------------------------------------------------

    /** The found symbol is the one the format reads here. */
    lemma FoundIsRead(code: Code, n: nat, s: nat)
      requires Synced() && pos >= 0 && CodeOk(code, n) && Found(code, n, mBitBuf, s)
      ensures ReadSymbol(mSrcBase, pos, code, n).0 == s
    {
      if code.Canonical? {
        BufferTop(CODE_BIT);
        PrefixUnique(code.lens, s, ReadSymbol(mSrcBase, pos, code, n).0, Window(mSrcBase, pos, CODE_BIT));
      }
    }

    /** Look the next symbol up, then take as many bits as its code has. */
    method DecodeSymbol(ghost code: Code, n: nat, bits: nat, table: array<u16>, lens: array<u8>) returns (val: u16)
      requires Synced() && pos >= 0 && bits < CODE_BIT && CodeOk(code, n)
      requires TableFor(code, n, bits, Snap(table, mLeft, mRight), lens[..])
      modifies `mBitBuf, `mBitCount, `mSubBitBuf, `mInBuf, `mCompSize, `pos
      ensures Synced() && pos >= 0 && val < n
      ensures (val, pos) == ReadSymbol(mSrcBase, old(pos), code, n)
    {
      val := FindSymbol(code, n, bits, table, mLeft, mRight, lens[..], mBitBuf);
      FoundIsRead(code, n, val);
      ghost var l := lens[..];
      assert lens[val] == l[..n][val];
      FillBuf(lens[val]);
    }

    // ---- The code of the Char&Len Set -----------------------------------------------------------

    method ReadRun(s: u16) returns (run: u32)
      requires Synced() && pos >= 0 && s <= 2
      modifies `mBitBuf, `mBitCount, `mSubBitBuf, `mInBuf, `mCompSize, `pos
      ensures Synced() && pos >= 0
      ensures (run, pos) == ZeroRun(mSrcBase, old(pos), s)
    {
      TableSizes();
      if s == 0 {
        run := 1;
      } else if s == 1 {
        run := GetBits(4);
        run := run + 3;
      } else {
        run := GetBits(9);
        run := run + 20;
      }
    }

    method ReadCItem(index: nat, ghost extra: Code, ghost acc: seq<nat>) returns (next: nat, ghost more: seq<nat>)
      requires Shaped() && Synced() && pos >= 0 && CodeOk(extra, NT) && index == |acc| && Begins(mCLen[..], acc)
      requires TableFor(extra, NT, 8, Snap(mPTTable, mLeft, mRight), mPTLen[..])
      requires CItem(mSrcBase, pos, extra, acc).Got?
      modifies `mBitBuf, `mBitCount, `mSubBitBuf, `mInBuf, `mCompSize, `pos, mCLen
      ensures Synced() && pos >= 0 && next == |more| && index < next && Begins(mCLen[..], more)
      ensures Got(more, pos) == CItem(mSrcBase, old(pos), extra, acc)
    {
      var charC := DecodeSymbol(extra, NT, 8, mPTTable, mPTLen);
      if charC <= 2 {
        var run := ReadRun(charC);
        next := ZeroRunAt(mCLen, index, run);
        more := acc + Zeros(run);
      } else {
        mCLen[index] := charC - 2;
        next := index + 1;
        more := acc + [charC - 2];
      }
    }

    /** The loop of ReadCLen over the coded lengths. */
    method ReadCItems(number: nat, ghost extra: Code) returns (index: nat, ghost acc: seq<nat>)
      requires Shaped() && Synced() && pos >= 0 && CodeOk(extra, NT)
      requires TableFor(extra, NT, 8, Snap(mPTTable, mLeft, mRight), mPTLen[..])
      requires ReadCLengths(mSrcBase, pos, number, extra, []).Got?
      modifies `mBitBuf, `mBitCount, `mSubBitBuf, `mInBuf, `mCompSize, `pos, mCLen
      ensures Synced() && pos >= 0 && index == |acc| && Begins(mCLen[..], acc)
      ensures Got(acc, pos) == ReadCLengths(mSrcBase, old(pos), number, extra, [])
    {
      index, acc := 0, [];
      while index < number
        invariant Synced() && pos >= 0 && index == |acc| && Begins(mCLen[..], acc)
        invariant TableFor(extra, NT, 8, Snap(mPTTable, mLeft, mRight), mPTLen[..])
        invariant ReadCLengths(mSrcBase, pos, number, extra, acc) == ReadCLengths(mSrcBase, old(pos), number, extra, [])
      {
        index, acc := ReadCItem(index, extra, acc);
      }
    }

    /** What ReadCLen leaves behind when the format gives r. */
    ghost predicate CDone(r: Read<Code>)
      reads this, mCTable, mCLen, mLeft, mRight
    {
      r.Got? && pos == r.pos && TableFor(r.value, NC, 12, Snap(mCTable, mLeft, mRight), mCLen[..])
    }

    method SingleC(charC: u16)
      requires Shaped() && charC < NC && pos >= 0
      modifies mCTable, mCLen
      ensures CDone(Got(Single(charC), pos))
    {
      TableSizes();
      for i := 0 to NC
        invariant forall k :: 0 <= k < i ==> mCLen[k] == 0
      {
        mCLen[i] := 0;
      }
      for i := 0 to 4096
        invariant forall k :: 0 <= k < NC ==> mCLen[k] == 0
        invariant forall k :: 0 <= k < i ==> mCTable[k] == charC
      {
        mCTable[i] := charC;
      }
    }

    method FinishC(index: nat, ghost acc: seq<nat>)
      requires Shaped() && pos >= 0 && index == |acc| && Begins(mCLen[..], acc) && Complete(Fit(acc, NC))
      modifies mCLen, mCTable, mLeft, mRight
      ensures CDone(Got(Canonical(Fit(acc, NC)), pos))
    {
      ghost var before := mCLen[..];
      ZeroRest(mCLen, index, NC);
      BeginsFit(before, mCLen[..], acc, NC);
      TableSizes();
      MakeTable.CompleteFits(mCLen[..NC]);
      var status := MakeTable.MakeTable(mCLen[..NC], 12, mCTable, mLeft, mRight);
      assert mCLen[..NC] == Fit(acc, NC);
    }

    method ReadCLen(ghost extra: Code)
      requires Shaped() && Synced() && pos >= 0 && CodeOk(extra, NT)
      requires TableFor(extra, NT, 8, Snap(mPTTable, mLeft, mRight), mPTLen[..])
      requires ReadCCode(mSrcBase, pos, extra).Got?
      modifies `mBitBuf, `mBitCount, `mSubBitBuf, `mInBuf, `mCompSize, `pos, mCLen, mCTable, mLeft, mRight
      ensures Synced() && pos >= 0
      ensures CDone(ReadCCode(mSrcBase, old(pos), extra))
    {
      hide ReadCCode, ReadCLengths, Window, Complete, CodeOk, Fit;
      ghost var p0 := pos;
      var number := GetBits(9);
      CCodeCases(mSrcBase, p0, extra);
      if number == 0 {
        var charC := GetBits(9);
        SingleC(charC);
      } else {
        var index; ghost var acc;
        index, acc := ReadCItems(number, extra);
        FinishC(index, acc);
      }
    }

    // ---- Blocks ---------------------------------------------------------------------------------

    /** The tables of the open block decode its two codes. */
    ghost predicate Loaded(chars: Code, positions: Code)
      reads mCTable, mCLen, mPTTable, mPTLen, mLeft, mRight
    {
      && CodeOk(chars, NC) && CodeOk(positions, MAXNP)
      && TableFor(chars, NC, 12, Snap(mCTable, mLeft, mRight), mCLen[..])
      && TableFor(positions, MAXNP, 8, Snap(mPTTable, mLeft, mRight), mPTLen[..])
    }

    /** The record stands where the format's decoder d stands. */
    ghost predicate Ready(d: Decoder)
      reads this, mCTable, mCLen, mPTTable, mPTLen, mLeft, mRight
    {
      mBlockSize == d.block && pos == d.pos && (d.block > 0 ==> Loaded(d.chars, d.positions))
    }

    /** What starting a block leaves behind when the format gives r. */
    ghost predicate Opened(r: Read<Decoder>)
      reads this, mCTable, mCLen, mPTTable, mPTLen, mLeft, mRight
    {
      match r
      case BadTable => mBadTableFlag != 0
      case Outside => false
      case Got(open, _) =>
        mBadTableFlag == 0 && mBlockSize == open.block && pos == open.pos && Loaded(open.chars, open.positions)
    }

    /** Read the codes of the Char&Len Set and the Position Set; the second build leaves the first's tree alone. */
    method LoadCodes(ghost extra: Code)
      requires Shaped() && Synced() && pos >= 0 && CodeOk(extra, NT) && 1 <= mPBit <= 5 && mBadTableFlag == 0
      requires TableFor(extra, NT, 8, Snap(mPTTable, mLeft, mRight), mPTLen[..])
      requires !ReadCodes(mSrcBase, pos, extra, mPBit).Outside?
      modifies `mBitBuf, `mBitCount, `mSubBitBuf, `mInBuf, `mCompSize, `pos, `mBadTableFlag
      modifies mCLen, mCTable, mPTLen, mPTTable, mLeft, mRight
      ensures Synced() && pos >= 0
      ensures CodesLoaded(ReadCodes(mSrcBase, old(pos), extra, mPBit))
    {
      CodesSteps(mSrcBase, pos, extra, mPBit);
      ghost var c := ReadCCode(mSrcBase, pos, extra);
      ReadCLen(extra);
      ghost var t := Snap(mCTable, mLeft, mRight);
      ghost var p := Snap(mPTTable, mLeft, mRight);
      mBadTableFlag := ReadPTLen(MAXNP, mPBit, NO_SPECIAL);
      TableForFrame(c.value, NC, 12, t, Snap(mCTable, mLeft, mRight), mCLen[..]);
    }

    ghost predicate CodesLoaded(r: Read<(Code, Code)>)
      reads this, mCTable, mCLen, mPTTable, mPTLen, mLeft, mRight
    {
      match r
      case BadTable => mBadTableFlag != 0
      case Outside => false
      case Got(codes, p) => mBadTableFlag == 0 && pos == p && Loaded(codes.0, codes.1)
    }

    method ReadBlockHeader()
      requires Shaped() && Synced() && pos >= 0 && 1 <= mPBit <= 5 && mBadTableFlag == 0
      requires !ReadHeader(mSrcBase, pos, mPBit).Outside?
      modifies `mBitBuf, `mBitCount, `mSubBitBuf, `mInBuf, `mCompSize, `pos, `mBadTableFlag, `mBlockSize
      modifies mCLen, mCTable, mPTLen, mPTTable, mLeft, mRight
      ensures Synced() && pos >= 0
      ensures Opened(ReadHeader(mSrcBase, old(pos), mPBit))
    {
      hide ReadHeader, ReadPTCode, ReadCodes, CodeOk;
      HeaderSteps(mSrcBase, pos, mPBit);
      ghost var t := ReadPTCode(mSrcBase, pos + 16, NT, TBIT, 3);
      ReadSizeAndExtra();
      if mBadTableFlag == 0 {
        LoadCodes(t.value);
      }
    }

    /** The block size and the code of the Extra Set. */
    method ReadSizeAndExtra()
      requires Shaped() && Synced() && pos >= 0 && mBadTableFlag == 0
      requires !ReadPTCode(mSrcBase, pos + 16, NT, TBIT, 3).Outside?
      modifies `mBitBuf, `mBitCount, `mSubBitBuf, `mInBuf, `mCompSize, `pos, `mBadTableFlag, `mBlockSize
      modifies mPTLen, mPTTable, mLeft, mRight
      ensures Synced() && pos >= 0 && mBlockSize == Window(mSrcBase, old(pos), 16)
      ensures PTDone(ReadPTCode(mSrcBase, old(pos) + 16, NT, TBIT, 3), NT, mBadTableFlag)
    {
      WordWindow(mSrcBase, pos);
      mBlockSize := GetBits(16);
      mBadTableFlag := ReadPTLen(NT, 5, 3);
    }

    /** The first half of DecodeC: start a new block when none is open. */
    method StartBlock(ghost d: Decoder)
      requires Shaped() && Synced() && pos >= 0 && 1 <= mPBit <= 5 && mBadTableFlag == 0
      requires DecoderOk(d) && Ready(d) && !OpenBlock(mSrcBase, d, mPBit).Outside?
      modifies `mBitBuf, `mBitCount, `mSubBitBuf, `mInBuf, `mCompSize, `pos, `mBadTableFlag, `mBlockSize
      modifies mCLen, mCTable, mPTLen, mPTTable, mLeft, mRight
      ensures Synced() && pos >= 0
      ensures Opened(OpenBlock(mSrcBase, d, mPBit))
    {
      if mBlockSize == 0 {
        ReadBlockHeader();
      }
    }

    /** The second half of DecodeC: one symbol of the open block. */
    method NextChar(ghost open: Decoder) returns (c: u16)
      requires Synced() && pos >= 0 && mBlockSize == open.block && pos == open.pos && Loaded(open.chars, open.positions)
      modifies `mBitBuf, `mBitCount, `mSubBitBuf, `mInBuf, `mCompSize, `pos, `mBlockSize
      ensures Synced() && pos >= 0 && Loaded(open.chars, open.positions)
      ensures c == ReadChar(mSrcBase, open).0 && Ready(ReadChar(mSrcBase, open).1)
    {
      var size: int := mBlockSize;
      mBlockSize := (size + 0xFFFF) % 0x1_0000;
      c := DecodeSymbol(open.chars, NC, 12, mCTable, mCLen);
    }

    /** DecodeP: a symbol of the Position Set and its extra bits. */
    method DecodeP(ghost d: Decoder) returns (p: nat)
      requires Synced() && pos >= 0 && pos == d.pos && Loaded(d.chars, d.positions)
      modifies `mBitBuf, `mBitCount, `mSubBitBuf, `mInBuf, `mCompSize, `pos
      ensures Synced() && pos >= 0 && Loaded(d.chars, d.positions)
      ensures (p, pos) == ReadPosition(mSrcBase, old(pos), d.positions)
    {
      var val := DecodeSymbol(d.positions, MAXNP, 8, mPTTable, mPTLen);
      p := FinishPosition(val);
    }

    method FinishPosition(val: u16) returns (p: nat)
      requires Synced() && pos >= 0 && val < MAXNP
      modifies `mBitBuf, `mBitCount, `mSubBitBuf, `mInBuf, `mCompSize, `pos
      ensures Synced() && pos >= 0
      ensures (p, pos) == PositionFrom(mSrcBase, val, old(pos))
    {
      p := val;
      if val > 1 {
        var extra := GetBits(val - 1);
        p := Pow2(val - 1) + extra;
      }
    }

    // ---- The main loop --------------------------------------------------------------------------

    /** The bytes written so far. */
    ghost predicate Wrote(out: seq<u8>)
      reads this, mDstBase
    {
      mDstBase.Length == mOrigSize && mOutBuf == |out| <= mOrigSize && mDstBase[..mOutBuf] == out
    }

    method PutByte(b: u8, ghost out: seq<u8>)
      requires Wrote(out) && mOutBuf < mOrigSize
      modifies `mOutBuf, mDstBase
      ensures Wrote(out + [b])
    {
      mDstBase[mOutBuf] := b;
      mOutBuf := mOutBuf + 1;
    }

    /** Copy a match byte by byte; it may overlap what it writes. */
    method CopyMatch(dist: nat, length: nat, ghost out: seq<u8>) returns (done: bool, ghost more: seq<u8>)
      requires Wrote(out) && 1 <= dist <= mOutBuf < mOrigSize
      modifies `mOutBuf, mDstBase
      ensures Wrote(more) && more == Copy(out, dist, length, mOrigSize)
      ensures done <==> |more| >= mOrigSize
    {
      more := out;
      var dataIdx := mOutBuf - dist;
      var bytesRemain: int := length - 1;
      while bytesRemain >= 0
        invariant -1 <= bytesRemain && Wrote(more) && dataIdx + dist == mOutBuf < mOrigSize && 0 <= dataIdx
        invariant Copy(more, dist, bytesRemain + 1, mOrigSize) == Copy(out, dist, length, mOrigSize)
      {
        ghost var before := more;
        more := more + [mDstBase[dataIdx]];
        PutByte(mDstBase[dataIdx], before);
        dataIdx := dataIdx + 1;
        if mOutBuf >= mOrigSize {
          return true, more;
        }
        bytesRemain := bytesRemain - 1;
      }
      done := false;
    }

    /** A pointer: decode its position and copy. */
    method CopyPointer(c: u16, ghost d: Decoder, ghost out: seq<u8>) returns (done: bool, ghost more: seq<u8>)
      requires Shaped() && Synced() && pos >= 0 && Ready(d) && Loaded(d.chars, d.positions) && Wrote(out)
      requires 256 <= c < NC && mOutBuf < mOrigSize && ReadPosition(mSrcBase, d.pos, d.positions).0 + 1 <= |out|
      modifies `mBitBuf, `mBitCount, `mSubBitBuf, `mInBuf, `mCompSize, `pos, `mOutBuf, mDstBase
      ensures Synced() && pos >= 0 && Wrote(more)
      ensures more == Copy(out, ReadPosition(mSrcBase, d.pos, d.positions).0 + 1, c - 253, mOrigSize)
      ensures Ready(d.(pos := ReadPosition(mSrcBase, d.pos, d.positions).1))
      ensures done <==> |more| >= mOrigSize
    {
      hide Copy, ReadPosition, CodeOk;
      var p := DecodeP(d);
      done, more := CopyMatch(p + 1, c - 253, out);
    }

    /** Whether the record shows what the format's outcome says. */
    ghost predicate Shows(r: Outcome)
      reads this, mDstBase
    {
      match r
      case Undefined => false
      case Finished(out) => mBadTableFlag == 0 && mDstBase[..] == out
      case Corrupt(out) => mBadTableFlag != 0 && |out| <= mDstBase.Length && mDstBase[..|out|] == out
    }

    /** The invariant of Decode's loop. */
    ghost predicate Decoding(d: Decoder, out: seq<u8>)
      reads this, mCTable, mCLen, mPTTable, mPTLen, mLeft, mRight, mDstBase
    {
      && Shaped() && Synced() && pos >= 0 && 1 <= mPBit <= 5 && mBadTableFlag == 0
      && DecoderOk(d) && Ready(d) && Wrote(out)
    }

    /** The record after a turn of Decode's loop that the format says comes to s. */
    ghost predicate Stepped(s: Step, done: bool, d: Decoder, out: seq<u8>)
      reads this, mCTable, mCLen, mPTTable, mPTLen, mLeft, mRight, mDstBase
    {
      match s
      case Wild => false
      case Refused => done && mBadTableFlag != 0 && Wrote(out)
      case Stop(all) => done && mBadTableFlag == 0 && mDstBase[..] == all
      case Go(next, more) => !done && d == next && out == more && Decoding(d, out)
    }

    /** One turn of Decode's loop, after DecodeC has returned the symbol c. */
    method Emit(c: u16, ghost d: Decoder, ghost out: seq<u8>)
      returns (done: bool, ghost d': Decoder, ghost more: seq<u8>)
      requires Decoding(d, out) && Loaded(d.chars, d.positions) && c < NC
      requires AfterChar(mSrcBase, mOrigSize, c, d, out) != Wild
      modifies `mBitBuf, `mBitCount, `mSubBitBuf, `mInBuf, `mCompSize, `pos, `mOutBuf, mDstBase
      ensures Stepped(AfterChar(mSrcBase, mOrigSize, c, d, out), done, d', more)
    {
      d', more := d, out;
      if c < 256 {
        if mOutBuf >= mOrigSize {
          return true, d, out;
        }
        PutByte(c, out);
        return false, d, out + [c];
      }
      d' := d.(pos := ReadPosition(mSrcBase, d.pos, d.positions).1);
      done, more := CopyPointer(c, d, out);
    }

    /** One turn of Decode's loop: DecodeC, then a byte or a match. */
    method DecodeNext(ghost d: Decoder, ghost out: seq<u8>) returns (done: bool, ghost d': Decoder, ghost more: seq<u8>)
      requires Decoding(d, out) && NextStep(mSrcBase, mPBit, mOrigSize, d, out) != Wild
      modifies `mBitBuf, `mBitCount, `mSubBitBuf, `mInBuf, `mCompSize, `pos, `mBadTableFlag, `mBlockSize, `mOutBuf
      modifies mCLen, mCTable, mPTLen, mPTTable, mLeft, mRight, mDstBase
      ensures Stepped(NextStep(mSrcBase, mPBit, mOrigSize, d, out), done, d', more)
      ensures mBadTableFlag != 0 ==> more == out
    {
      hide AfterChar, ReadHeader, ReadSymbol;
      StartBlock(d);
      if mBadTableFlag != 0 {
        return true, d, out;
      }
      ghost var open := OpenBlock(mSrcBase, d, mPBit).value;
      var c := NextChar(open);
      done, d', more := Emit(c, ReadChar(mSrcBase, open).1, out);
    }

    method Decode()
      requires Decoding(Decoder(0, Single(0), Single(0), 0), [])
      requires Expand(mSrcBase, mPBit, mOrigSize) != Undefined
      modifies `mBitBuf, `mBitCount, `mSubBitBuf, `mInBuf, `mCompSize, `pos, `mBadTableFlag, `mBlockSize, `mOutBuf
      modifies mCLen, mCTable, mPTLen, mPTTable, mLeft, mRight, mDstBase
      ensures Shows(Expand(mSrcBase, mPBit, mOrigSize))
    {
      ghost var d, out := Decoder(0, Single(0), Single(0), 0), [];
      var done := false;
      while !done
        invariant !done ==>
          Decoding(d, out) && Run(mSrcBase, mPBit, mOrigSize, d, out) == Expand(mSrcBase, mPBit, mOrigSize)
        invariant done ==> Shows(Expand(mSrcBase, mPBit, mOrigSize))
        decreases !done, mOrigSize - |out|
      {
        done, d, out := DecodeNext(d, out);
      }
    }
  }

  lemma CCodeCases(src: seq<u8>, pos: nat, extra: Code)
    requires CodeOk(extra, NT) && ReadCCode(src, pos, extra).Got?
    ensures Window(src, pos, 9) == 0 ==>
      var c := Window(src, pos + 9, 9);
      c < NC && ReadCCode(src, pos, extra) == Got(Single(c), pos + 9 + 9)
    ensures Window(src, pos, 9) != 0 ==>
      var r := ReadCLengths(src, pos + 9, Window(src, pos, 9), extra, []);
      r.Got? && Complete(Fit(r.value, NC)) && ReadCCode(src, pos, extra) == Got(Canonical(Fit(r.value, NC)), r.pos)
  {
  }

  /** Writes to lower node numbers leave a table right. */
  lemma TableForFrame(code: Code, n: nat, bits: nat, t: Trie, t': Trie, lens: seq<u8>)
    requires TableFor(code, n, bits, t, lens) && t'.table == t.table && bits <= CODE_BIT
    requires |t.left| == |t.right| == |t'.left| == |t'.right|
    requires forall v :: n <= v < |t.left| ==> t.left[v] == t'.left[v] && t.right[v] == t'.right[v]
    ensures TableFor(code, n, bits, t', lens)
  {
    if code.Canonical? {
      DecodesFrame(t, t', bits, code.lens);
    }
  }

  lemma BlankReads(src: seq<u8>)
    ensures Reads(src, -32, BITBUFSIZ, 0, 0, 0, 0, 0, |src|)
  {
    WindowBefore(src, -32, BITBUFSIZ);
    WindowBefore(src, -8, 8);
  }

  lemma WordWindow(src: seq<u8>, p: int)
    ensures Window(src, p, 16) < 0x1_0000
  {
    Pow2Literals();
  }

  lemma CodesSteps(src: seq<u8>, pos: nat, extra: Code, pbit: nat)
    requires CodeOk(extra, NT) && !ReadCodes(src, pos, extra, pbit).Outside?
    ensures var c := ReadCCode(src, pos, extra);
      && c.Got? && !ReadPTCode(src, c.pos, MAXNP, pbit, NO_SPECIAL).Outside?
  {
  }

  lemma HeaderSteps(src: seq<u8>, pos: nat, pbit: nat)
    requires !ReadHeader(src, pos, pbit).Outside?
    ensures var t := ReadPTCode(src, pos + 16, NT, TBIT, 3);
      && !t.Outside?
      && (t.BadTable? ==> ReadHeader(src, pos, pbit) == BadTable)
      && (t.Got? ==> !ReadCodes(src, t.pos, t.value, pbit).Outside?)
      && (t.Got? ==> ReadHeader(src, pos, pbit) == WithSize(Window(src, pos, 16), ReadCodes(src, t.pos, t.value, pbit)))
  {
  }

  lemma PTCodeSingle(src: seq<u8>, pos: nat, nn: nat, nbit: nat, special: nat)
    requires Window(src, pos, nbit) == 0 && !ReadPTCode(src, pos, nn, nbit, special).Outside?
    ensures var c := Window(src, pos + nbit, nbit);
      c < nn && ReadPTCode(src, pos, nn, nbit, special) == Got(Single(c), pos + nbit + nbit)
  {
  }

  /** With a nonzero count, the code is what the padded lengths make. */
  lemma PTCodeLengths(src: seq<u8>, pos: nat, nn: nat, nbit: nat, special: nat)
    requires Window(src, pos, nbit) != 0 && !ReadPTCode(src, pos, nn, nbit, special).Outside?
    ensures var r := ReadLengths(src, pos + nbit, Window(src, pos, nbit), special, []);
      r.Got? && ReadPTCode(src, pos, nn, nbit, special) == MakeCode(Fit(r.value, nn), r.pos)
  {
  }

  lemma TableSizes()
    ensures Pow2(8) == 256 && Pow2(9) == 512 && Pow2(12) == 4096 && Pow2(13) == 8192
  {
    assert Pow2(8) == 256;
    assert Pow2(12) == 4096;
  }

  lemma FewBits(src: seq<u8>, p: int, n: nat)
    requires n <= 5
    ensures Window(src, p, n) < 32
  {
    Pow2Mono(n, 5);
    assert Pow2(5) == 32;
  }

  lemma RunOfTwo(src: seq<u8>, p: int)
    ensures Window(src, p, 2) <= 3
  {
    assert Pow2(2) == 4;
  }

  lemma SmallWindow(src: seq<u8>, p: int)
    ensures Window(src, p, 3) < 8
  {
    assert Pow2(3) == 8;
  }

  /** Write a run of zero lengths, as the source's countdown loops do. */
  method ZeroRunAt(lens: array<u8>, index: nat, charC: int) returns (next: nat)
    requires charC >= 0 && index + charC <= lens.Length
    modifies lens
    ensures next == index + charC
    ensures forall i :: 0 <= i < lens.Length ==> lens[i] == if index <= i < next then 0 else old(lens[i])
  {
    next := index;
    var c := charC - 1;
    while c >= 0
      invariant -1 <= c && next + c + 1 == index + charC
      invariant index <= next
      invariant forall i :: 0 <= i < lens.Length ==> lens[i] == if index <= i < next then 0 else old(lens[i])
    {
      lens[next] := 0;
      next := next + 1;
      c := c - 1;
    }
  }

  /** Fill the rest of the length array with zeros. */
  method ZeroRest(lens: array<u8>, index: nat, nn: nat)
    requires nn <= lens.Length
    modifies lens
    ensures forall i :: 0 <= i < lens.Length ==> lens[i] == if index <= i < nn then 0 else old(lens[i])
  {
    var i := index;
    while i < nn
      invariant index <= i && (i <= nn || i == index)
      invariant forall k :: 0 <= k < lens.Length ==> lens[k] == if index <= k < i then 0 else old(lens[k])
    {
      lens[i] := 0;
      i := i + 1;
    }
  }

  /** The array begins with these lengths. */
  ghost predicate Begins(lens: seq<u8>, acc: seq<nat>) {
    |acc| <= |lens| && forall i :: 0 <= i < |acc| ==> lens[i] == acc[i]
  }

  lemma BeginsFit(lens: seq<u8>, lens': seq<u8>, acc: seq<nat>, nn: nat)
    requires Begins(lens, acc) && |lens'| == |lens| && nn <= |lens|
    requires forall i :: 0 <= i < |lens| ==> lens'[i] == if |acc| <= i < nn then 0 else lens[i]
    ensures lens'[..nn] == Fit(acc, nn)
  {
  }

  // ---- The call ---------------------------------------------------------------------------------

  /** EfiDecompress is version 1, TianoDecompress version 2. */
  method Decompress(source: seq<u8>, dst: array<u8>, scratchSize: nat, sizeOfScratch: nat, version: nat)
    returns (status: Status)
    requires |source| < 0x1_0000_0000
    requires CallOf(source, dst.Length, scratchSize >= sizeOfScratch, version) != Overrun
    requires CallOf(source, dst.Length, scratchSize >= sizeOfScratch, version) != Ran(Undefined)
    modifies dst
    ensures match CallOf(source, dst.Length, scratchSize >= sizeOfScratch, version)
            case Rejected => status == EFI_INVALID_PARAMETER && dst[..] == old(dst[..])
            case Nothing => status == EFI_SUCCESS && dst[..] == old(dst[..])
            case Overrun => false
            case Ran(Undefined) => false
            case Ran(Finished(out)) => status == EFI_SUCCESS && dst[..] == out
            case Ran(Corrupt(out)) => status == EFI_INVALID_PARAMETER && |out| <= dst.Length && dst[..|out|] == out
  {
    if scratchSize < sizeOfScratch || |source| < 8 {
      return EFI_INVALID_PARAMETER;
    }
    var compSize, origSize := Field32(source, 0), Field32(source, 4);
    if origSize == 0 {
      return EFI_SUCCESS;
    }
    var needed: int := compSize;
    if |source| < (needed + 8) % 0x1_0000_0000 || dst.Length != origSize {
      return EFI_INVALID_PARAMETER;
    }
    var pBit := 0;
    if version == 1 {
      pBit := 4;
    } else if version == 2 {
      pBit := 5;
    } else {
      return EFI_INVALID_PARAMETER;
    }
    var sd := new ScratchData(source[8..8 + compSize], dst, origSize, pBit);
    sd.FillBuf(32);
    sd.Decode();
    status := if sd.mBadTableFlag != 0 then EFI_INVALID_PARAMETER else EFI_SUCCESS;
  }
}
