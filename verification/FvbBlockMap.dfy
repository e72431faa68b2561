/** The block map of a firmware volume: which bytes each logical block has, and erasing lists of blocks. */
module FvbBlockMap {
  import opened EfiTypes
  import opened Words

  /** A run of num blocks of length bytes each. The entry after the last one is zero and ends the map. */
  datatype MapEntry = MapEntry(num: u32, length: u32)

  /** A block's offset in the volume, its length, and how many blocks from it on have the same length. */
  datatype Block = Block(offset: nat, length: nat, count: nat)

  predicate Ends(blockMap: seq<MapEntry>, i: nat) {
    i >= |blockMap| || blockMap[i].num == 0 || blockMap[i].length == 0
  }

  /** Blocks and bytes of a run; the source multiplies them in 32 bits. */
  function RunBytes(e: MapEntry): nat {
    var n: int, l: int := e.num, e.length;
    Product(n, l)
  }

  function Product(n: nat, l: nat): nat { n * l }

  lemma ProductStep(n: nat, l: nat)
    ensures Product(n + 1, l) == Product(n, l) + l && Product(0, l) == 0
  {
  }

  lemma ProductMono(n: nat, m: nat, l: nat)
    requires n <= m
    ensures Product(n, l) <= Product(m, l)
  {
    assert Product(m, l) == Product(n, l) + Product(m - n, l) by { assert m * l == n * l + (m - n) * l; }
  }

  /** FvbGetLbaAddress from map entry i on, which begins with block start at offset. */
  function Locate(blockMap: seq<MapEntry>, i: nat, start: nat, offset: nat, lba: nat): Option<Block>
    requires i <= |blockMap|
    decreases |blockMap| - i
  {
    if Ends(blockMap, i) then None
    else
      var next := start + blockMap[i].num;
      if start <= lba < next then
        Some(Block(offset + Product(lba - start, blockMap[i].length), blockMap[i].length, next - lba))
      else Locate(blockMap, i + 1, next, offset + RunBytes(blockMap[i]) % 0x1_0000_0000, lba)
  }

  function GetLba(blockMap: seq<MapEntry>, lba: nat): Option<Block> { Locate(blockMap, 0, 0, 0, lba) }

  /** Blocks and bytes of the volume, from entry i on. */
  function BlocksFrom(blockMap: seq<MapEntry>, i: nat): nat
    requires i <= |blockMap|
    decreases |blockMap| - i
  {
    if Ends(blockMap, i) then 0 else blockMap[i].num + BlocksFrom(blockMap, i + 1)
  }

  function BytesFrom(blockMap: seq<MapEntry>, i: nat): nat
    requires i <= |blockMap|
    decreases |blockMap| - i
  {
    if Ends(blockMap, i) then 0 else RunBytes(blockMap[i]) + BytesFrom(blockMap, i + 1)
  }

  function Blocks(blockMap: seq<MapEntry>): nat { BlocksFrom(blockMap, 0) }

  function Bytes(blockMap: seq<MapEntry>): nat { BytesFrom(blockMap, 0) }

  /** A volume below 4 GB: no run's size wraps. */
  predicate MapOk(blockMap: seq<MapEntry>) { Bytes(blockMap) < 0x1_0000_0000 }

  // ---- Tiling -----------------------------------------------------------------------------------

  lemma RunFits(blockMap: seq<MapEntry>, i: nat)
    requires i < |blockMap| && !Ends(blockMap, i) && BytesFrom(blockMap, i) < 0x1_0000_0000
    ensures RunBytes(blockMap[i]) % 0x1_0000_0000 == RunBytes(blockMap[i]) && BytesFrom(blockMap, i + 1) < 0x1_0000_0000
    ensures BytesFrom(blockMap, i) == RunBytes(blockMap[i]) + BytesFrom(blockMap, i + 1)
  {
  }

  /** A block exists exactly below the block count, and lies inside the volume. */
  lemma {:induction false} LocateFinds(blockMap: seq<MapEntry>, i: nat, start: nat, offset: nat, lba: nat)
    requires i <= |blockMap| && BytesFrom(blockMap, i) < 0x1_0000_0000 && start <= lba
    ensures Locate(blockMap, i, start, offset, lba).Some? <==> lba < start + BlocksFrom(blockMap, i)
    ensures Locate(blockMap, i, start, offset, lba).Some? ==>
      var b := Locate(blockMap, i, start, offset, lba).value;
      offset <= b.offset && 0 < b.length && b.offset + b.length <= offset + BytesFrom(blockMap, i)
    decreases |blockMap| - i
  {
    hide Product;
    if !Ends(blockMap, i) {
      RunFits(blockMap, i);
      var next := start + blockMap[i].num;
      if lba < next {
        ProductStep(lba - start, blockMap[i].length);
        ProductMono(lba - start + 1, blockMap[i].num, blockMap[i].length);
      } else {
        LocateFinds(blockMap, i + 1, next, offset + RunBytes(blockMap[i]), lba);
      }
    }
  }

  /** Where the first block from entry i on begins. */
  lemma LocateFirst(blockMap: seq<MapEntry>, i: nat, start: nat, offset: nat)
    requires i <= |blockMap| && !Ends(blockMap, i)
    ensures Locate(blockMap, i, start, offset, start).Some? &&
      Locate(blockMap, i, start, offset, start).value.offset == offset
  {
    ProductStep(0, blockMap[i].length);
  }

  /** Each block ends where the next one begins; the last ends with the volume. */
  lemma {:induction false} LocateNext(blockMap: seq<MapEntry>, i: nat, start: nat, offset: nat, lba: nat)
    requires i <= |blockMap| && BytesFrom(blockMap, i) < 0x1_0000_0000 && start <= lba < start + BlocksFrom(blockMap, i)
    ensures Locate(blockMap, i, start, offset, lba).Some?
    ensures var b, c := Locate(blockMap, i, start, offset, lba).value, Locate(blockMap, i, start, offset, lba + 1);
      b.offset + b.length == if c.Some? then c.value.offset else offset + BytesFrom(blockMap, i)
    decreases |blockMap| - i
  {
    hide Product;
    RunFits(blockMap, i);
    var next := start + blockMap[i].num;
    if lba + 1 < next {
      ProductStep(lba - start, blockMap[i].length);
    } else if lba + 1 == next {
      ProductStep(lba - start, blockMap[i].length);
      if !Ends(blockMap, i + 1) { LocateFirst(blockMap, i + 1, next, offset + RunBytes(blockMap[i])); }
    } else {
      LocateNext(blockMap, i + 1, next, offset + RunBytes(blockMap[i]), lba);
    }
  }

  /** FvbGetLbaAddress tiles the volume: it succeeds exactly below the block count, the first block begins at 0, each
      block ends where the next begins, and the last ends with the volume. */
  lemma Tiles(blockMap: seq<MapEntry>, lba: nat)
    requires MapOk(blockMap)
    ensures GetLba(blockMap, lba).Some? <==> lba < Blocks(blockMap)
    ensures GetLba(blockMap, lba).Some? ==>
      var b, next := GetLba(blockMap, lba).value, GetLba(blockMap, lba + 1);
      && (lba == 0 ==> b.offset == 0) && 0 < b.length && b.offset + b.length <= Bytes(blockMap)
      && b.offset + b.length == (if next.Some? then next.value.offset else Bytes(blockMap))
  {
    LocateFinds(blockMap, 0, 0, 0, lba);
    LocateFinds(blockMap, 0, 0, 0, lba + 1);
    if lba < Blocks(blockMap) {
      LocateNext(blockMap, 0, 0, 0, lba);
      LocateFirst(blockMap, 0, 0, 0);
    }
  }

  // ---- Block numbers and run sums ---------------------------------------------------------------

  /** Blocks and bytes of the first i runs. */
  function BlocksBefore(blockMap: seq<MapEntry>, i: nat): nat
    requires i <= |blockMap|
  {
    if i == 0 then 0 else BlocksBefore(blockMap, i - 1) + blockMap[i - 1].num
  }

  function BytesBefore(blockMap: seq<MapEntry>, i: nat): nat
    requires i <= |blockMap|
  {
    if i == 0 then 0
    else
      var n: int, l: int := blockMap[i - 1].num, blockMap[i - 1].length;
      BytesBefore(blockMap, i - 1) + n * l
  }

  /** The first i entries do not end the map. */
  predicate Reaches(blockMap: seq<MapEntry>, i: nat) {
    i <= |blockMap| && forall k :: 0 <= k < i ==> blockMap[k].num != 0 && blockMap[k].length != 0
  }

  lemma {:induction false} SumsAgree(blockMap: seq<MapEntry>, i: nat)
    requires Reaches(blockMap, i)
    ensures BytesBefore(blockMap, i) + BytesFrom(blockMap, i) == Bytes(blockMap)
    ensures BlocksBefore(blockMap, i) + BlocksFrom(blockMap, i) == Blocks(blockMap)
  {
    if i > 0 { SumsAgree(blockMap, i - 1); }
  }

  lemma {:induction false} LocateSkips(blockMap: seq<MapEntry>, i: nat, lba: nat)
    requires MapOk(blockMap) && Reaches(blockMap, i) && BlocksBefore(blockMap, i) <= lba
    ensures GetLba(blockMap, lba) == Locate(blockMap, i, BlocksBefore(blockMap, i), BytesBefore(blockMap, i), lba)
    ensures BytesBefore(blockMap, i) + BytesFrom(blockMap, i) == Bytes(blockMap)
    ensures BlocksBefore(blockMap, i) + BlocksFrom(blockMap, i) == Blocks(blockMap)
  {
    SumsAgree(blockMap, i);
    if i > 0 {
      SumsAgree(blockMap, i - 1);
      LocateSkips(blockMap, i - 1, lba);
      RunFits(blockMap, i - 1);
    }
  }

  /** Block j of run i stands behind all earlier runs and j blocks of its own run, and the rest of its run follows
      it. */
  lemma BlockAt(blockMap: seq<MapEntry>, i: nat, j: nat)
    requires MapOk(blockMap) && Reaches(blockMap, i + 1) && j < blockMap[i].num
    ensures var n: int, l: int := blockMap[i].num, blockMap[i].length;
      GetLba(blockMap, BlocksBefore(blockMap, i) + j) == Some(Block(BytesBefore(blockMap, i) + j * l, l, n - j))
  {
    LocateSkips(blockMap, i, BlocksBefore(blockMap, i) + j);
  }

  /** Every block is such a block. */
  lemma {:induction false} RunOf(blockMap: seq<MapEntry>, i: nat, lba: nat) returns (k: nat, j: nat)
    requires MapOk(blockMap) && Reaches(blockMap, i) && BlocksBefore(blockMap, i) <= lba < Blocks(blockMap)
    ensures Reaches(blockMap, k + 1) && j < blockMap[k].num && lba == BlocksBefore(blockMap, k) + j
    decreases |blockMap| - i
  {
    LocateSkips(blockMap, i, lba);
    if lba < BlocksBefore(blockMap, i) + blockMap[i].num {
      k, j := i, lba - BlocksBefore(blockMap, i);
    } else {
      k, j := RunOf(blockMap, i + 1, lba);
    }
  }

  /** The count says how many blocks from this one on are alike: each has the same length and follows the one before. */
  lemma CountIsAlike(blockMap: seq<MapEntry>, lba: nat, d: nat)
    requires MapOk(blockMap) && GetLba(blockMap, lba).Some? && d < GetLba(blockMap, lba).value.count
    ensures var b := GetLba(blockMap, lba).value;
      GetLba(blockMap, lba + d) == Some(Block(b.offset + d * b.length, b.length, b.count - d))
  {
    hide GetLba, Blocks;
    Tiles(blockMap, lba);
    assert BlocksBefore(blockMap, 0) == 0;
    var i, j := RunOf(blockMap, 0, lba);
    BlockAt(blockMap, i, j);
    BlockAt(blockMap, i, j + d);
    var l: int := blockMap[i].length;
    assert (j + d) * l == j * l + d * l;
  }

  predicate InBlock(blockMap: seq<MapEntry>, lba: nat, p: nat) {
    && GetLba(blockMap, lba).Some?
    && var b := GetLba(blockMap, lba).value;
       b.offset <= p < b.offset + b.length
  }

  lemma {:induction false} BlocksOrdered(blockMap: seq<MapEntry>, lba: nat, lba': nat)
    requires MapOk(blockMap) && lba < lba' < Blocks(blockMap)
    ensures GetLba(blockMap, lba).Some? && GetLba(blockMap, lba').Some?
    ensures var b := GetLba(blockMap, lba).value;
      b.offset + b.length <= GetLba(blockMap, lba').value.offset
    decreases lba' - lba
  {
    hide Bytes, Blocks, GetLba;
    Tiles(blockMap, lba);
    Tiles(blockMap, lba');
    if lba + 1 < lba' {
      Tiles(blockMap, lba + 1);
      BlocksOrdered(blockMap, lba + 1, lba');
    }
  }

  /** No byte belongs to two blocks. */
  lemma BlocksDisjoint(blockMap: seq<MapEntry>, lba: nat, lba': nat, p: nat)
    requires MapOk(blockMap) && InBlock(blockMap, lba, p) && lba != lba'
    ensures !InBlock(blockMap, lba', p)
  {
    Tiles(blockMap, lba);
    Tiles(blockMap, lba');
    if lba' < Blocks(blockMap) {
      BlocksOrdered(blockMap, if lba < lba' then lba else lba', if lba < lba' then lba' else lba);
    }
  }

  // ---- Erasing ----------------------------------------------------------------------------------

  function EraseBlock(mem: seq<u8>, blockMap: seq<MapEntry>, lba: nat): (mem': seq<u8>)
    ensures |mem'| == |mem|
  {
    seq(|mem|, p requires 0 <= p < |mem| => if InBlock(blockMap, lba, p) then 0xff else mem[p])
  }

  /** A 64-bit block number; all ones ends an argument list. */
  type Lba = x: int | 0 <= x < 0xFFFF_FFFF_FFFF_FFFF

  /** A pair of EraseBlocks' argument list: the first block and how many. */
  datatype LbaRange = LbaRange(lba: Lba, num: u32)

  /** The second loop of EraseBlocks over one pair: the volume, and whether a block was missing. */
  function EraseRange(mem: seq<u8>, blockMap: seq<MapEntry>, lba: nat, num: nat): (r: (seq<u8>, bool))
    ensures |r.0| == |mem|
    decreases num
  {
    if num == 0 then (mem, true)
    else if GetLba(blockMap, lba).None? then (mem, false)
    else EraseRange(EraseBlock(mem, blockMap, lba), blockMap, lba + 1, num - 1)
  }

  function EraseAll(mem: seq<u8>, blockMap: seq<MapEntry>, ranges: seq<LbaRange>): (r: (seq<u8>, bool))
    ensures |r.0| == |mem|
    decreases |ranges|
  {
    if ranges == [] then (mem, true)
    else
      var (mem', ok) := EraseRange(mem, blockMap, ranges[0].lba, ranges[0].num);
      if !ok then (mem', false) else EraseAll(mem', blockMap, ranges[1..])
  }

  /** EraseBlocks' first loop; the source adds in 64 bits. */
  predicate Checked(ranges: seq<LbaRange>, numOfBlocks: nat) {
    forall k :: 0 <= k < |ranges| ==>
      ranges[k].num != 0 && (ranges[k].lba + ranges[k].num) % 0x1_0000_0000_0000_0000 <= numOfBlocks
  }

  /** The pair's last block number does not fit in 64 bits. */
  predicate Wraps(r: LbaRange) { r.lba + r.num >= 0x1_0000_0000_0000_0000 }

  predicate NoWrap(ranges: seq<LbaRange>) {
    forall k :: 0 <= k < |ranges| ==> !Wraps(ranges[k])
  }

  /** The pairs before the first one that wraps. */
  function Sane(ranges: seq<LbaRange>): seq<LbaRange> {
    if ranges == [] || Wraps(ranges[0]) then [] else [ranges[0]] + Sane(ranges[1..])
  }

  /** Byte p is in one of the blocks lba, lba + 1, ... */
  predicate InRange(blockMap: seq<MapEntry>, lba: nat, num: nat, p: nat)
    decreases num
  {
    num > 0 && (InBlock(blockMap, lba, p) || InRange(blockMap, lba + 1, num - 1, p))
  }

  predicate Requested(blockMap: seq<MapEntry>, ranges: seq<LbaRange>, p: nat)
    decreases |ranges|
  {
    ranges != [] && (InRange(blockMap, ranges[0].lba, ranges[0].num, p) || Requested(blockMap, ranges[1..], p))
  }

  lemma {:induction false} InRangeIs(blockMap: seq<MapEntry>, lba: nat, num: nat, p: nat)
    ensures InRange(blockMap, lba, num, p) <==> exists k: nat :: lba <= k < lba + num && InBlock(blockMap, k, p)
    decreases num
  {
    if num > 0 { InRangeIs(blockMap, lba + 1, num - 1, p); }
  }

  lemma {:induction false} EraseRangeExact(mem: seq<u8>, blockMap: seq<MapEntry>, lba: nat, num: nat, p: nat)
    requires MapOk(blockMap) && lba + num <= Blocks(blockMap) && p < |mem|
    ensures EraseRange(mem, blockMap, lba, num).0[p] == if InRange(blockMap, lba, num, p) then 0xff else mem[p]
    decreases num
  {
    hide GetLba, Blocks, MapOk;
    if num > 0 {
      Tiles(blockMap, lba);
      EraseRangeExact(EraseBlock(mem, blockMap, lba), blockMap, lba + 1, num - 1, p);
    }
  }

  lemma {:induction false} FewBlocks(blockMap: seq<MapEntry>, i: nat)
    requires i <= |blockMap|
    ensures BlocksFrom(blockMap, i) <= BytesFrom(blockMap, i)
    decreases |blockMap| - i
  {
    hide Product;
    if !Ends(blockMap, i) {
      FewBlocks(blockMap, i + 1);
      RunAtLeast(blockMap[i].num, blockMap[i].length);
    }
  }

  lemma RunAtLeast(n: nat, l: nat)
    requires l > 0
    ensures n <= Product(n, l)
  {
    assert n * 1 <= n * l;
  }

  /** A pair that wraps passes the check by its small sum, but its first block does not exist. */
  lemma WrapMisses(blockMap: seq<MapEntry>, r: LbaRange)
    requires MapOk(blockMap) && Wraps(r)
    ensures GetLba(blockMap, r.lba).None?
  {
    hide GetLba;
    FewBlocks(blockMap, 0);
    Tiles(blockMap, r.lba);
  }

  lemma NoWrapCons(ranges: seq<LbaRange>)
    requires ranges != []
    ensures NoWrap(ranges) <==> !Wraps(ranges[0]) && NoWrap(ranges[1..])
  {
    if !Wraps(ranges[0]) && NoWrap(ranges[1..]) {
      forall k | 0 <= k < |ranges| ensures !Wraps(ranges[k]) { assert k > 0 ==> !Wraps(ranges[1..][k - 1]); }
    } else if NoWrap(ranges) {
      forall k | 0 <= k < |ranges[1..]| ensures !Wraps(ranges[1..][k]) { assert !Wraps(ranges[k + 1]); }
    }
  }

  lemma {:induction false} SaneAll(ranges: seq<LbaRange>)
    ensures NoWrap(ranges) <==> Sane(ranges) == ranges
  {
    if ranges != [] {
      NoWrapCons(ranges);
      SaneAll(ranges[1..]);
      assert ranges == [ranges[0]] + ranges[1..];
      assert !Wraps(ranges[0]) ==> Sane(ranges)[1..] == Sane(ranges[1..]);
    }
  }

  lemma {:induction false} EraseRangeDone(mem: seq<u8>, blockMap: seq<MapEntry>, lba: nat, num: nat)
    requires MapOk(blockMap) && lba + num <= Blocks(blockMap)
    ensures EraseRange(mem, blockMap, lba, num).1
    decreases num
  {
    hide GetLba, Blocks, MapOk;
    if num > 0 {
      Tiles(blockMap, lba);
      EraseRangeDone(EraseBlock(mem, blockMap, lba), blockMap, lba + 1, num - 1);
    }
  }

  /** A checked list is erased up to its first pair that wraps: the bytes of the blocks requested before it, and no
      others, become 0xff. */
  lemma {:induction false} EraseAllExact(mem: seq<u8>, blockMap: seq<MapEntry>, ranges: seq<LbaRange>, p: nat)
    requires MapOk(blockMap) && Checked(ranges, Blocks(blockMap)) && p < |mem|
    ensures EraseAll(mem, blockMap, ranges).0[p] == if Requested(blockMap, Sane(ranges), p) then 0xff else mem[p]
    decreases |ranges|
  {
    hide Blocks, MapOk, GetLba;
    if ranges != [] {
      var r := ranges[0];
      if Wraps(r) {
        WrapMisses(blockMap, r);
      } else {
        EraseRangeDone(mem, blockMap, r.lba, r.num);
        EraseRangeExact(mem, blockMap, r.lba, r.num, p);
        EraseAllExact(EraseRange(mem, blockMap, r.lba, r.num).0, blockMap, ranges[1..], p);
        assert ([r] + Sane(ranges[1..]))[1..] == Sane(ranges[1..]);
      }
    }
  }

  /** It is erased to its end if and only if no pair wraps. */
  lemma {:induction false} EraseAllOk(mem: seq<u8>, blockMap: seq<MapEntry>, ranges: seq<LbaRange>)
    requires MapOk(blockMap) && Checked(ranges, Blocks(blockMap))
    ensures EraseAll(mem, blockMap, ranges).1 <==> NoWrap(ranges)
    decreases |ranges|
  {
    hide Blocks, MapOk, GetLba;
    if ranges != [] {
      var r := ranges[0];
      NoWrapCons(ranges);
      if Wraps(r) {
        WrapMisses(blockMap, r);
      } else {
        EraseRangeDone(mem, blockMap, r.lba, r.num);
        EraseAllOk(EraseRange(mem, blockMap, r.lba, r.num).0, blockMap, ranges[1..]);
      }
    }
  }

  /** The check in terms of blocks: no pair is empty, and a pair that does not wrap names existing blocks only. Of one
      that does, the check sees what is left of its end. */
  lemma CheckedIs(blockMap: seq<MapEntry>, ranges: seq<LbaRange>)
    requires MapOk(blockMap)
    ensures Checked(ranges, Blocks(blockMap)) <==> forall k :: 0 <= k < |ranges| ==>
      && ranges[k].num > 0
      && if ranges[k].lba + ranges[k].num < 0x1_0000_0000_0000_0000 then Exist(blockMap, ranges[k])
         else ranges[k].lba + ranges[k].num - 0x1_0000_0000_0000_0000 <= Blocks(blockMap)
  {
    hide MapOk, Blocks, Exist;
    forall k | 0 <= k < |ranges| && ranges[k].num > 0
      ensures Exist(blockMap, ranges[k]) <==> ranges[k].lba + ranges[k].num <= Blocks(blockMap)
    {
      ExistIs(blockMap, ranges[k]);
    }
  }

  /** All blocks that the pair names have an address. */
  predicate Exist(blockMap: seq<MapEntry>, r: LbaRange) {
    forall b: nat :: r.lba <= b < r.lba + r.num ==> GetLba(blockMap, b).Some?
  }

  lemma ExistIs(blockMap: seq<MapEntry>, r: LbaRange)
    requires MapOk(blockMap) && r.num > 0
    ensures Exist(blockMap, r) <==> r.lba + r.num <= Blocks(blockMap)
  {
    hide GetLba, Blocks;
    forall b: nat ensures GetLba(blockMap, b).Some? <==> b < Blocks(blockMap) { Tiles(blockMap, b); }
    if Exist(blockMap, r) { assert GetLba(blockMap, r.lba + r.num - 1).Some?; }
  }

  /** Byte p lies in a block that a pair of the list names. */
  ghost predicate NamedByte(blockMap: seq<MapEntry>, ranges: seq<LbaRange>, p: nat) {
    exists k, b: nat ::
      0 <= k < |ranges| && ranges[k].lba <= b < ranges[k].lba + ranges[k].num && InBlock(blockMap, b, p)
  }

  lemma {:induction false} RequestedIs(blockMap: seq<MapEntry>, ranges: seq<LbaRange>, p: nat)
    ensures Requested(blockMap, ranges, p) <==> NamedByte(blockMap, ranges, p)
    decreases |ranges|
  {
    hide InBlock;
    if ranges != [] {
      InRangeIs(blockMap, ranges[0].lba, ranges[0].num, p);
      RequestedIs(blockMap, ranges[1..], p);
      if NamedByte(blockMap, ranges[1..], p) {
        var k, b: nat :| 0 <= k < |ranges[1..]| && ranges[1..][k].lba <= b < ranges[1..][k].lba + ranges[1..][k].num &&
          InBlock(blockMap, b, p);
        assert ranges[k + 1] == ranges[1..][k];
      }
      if NamedByte(blockMap, ranges, p) {
        var k, b: nat :| 0 <= k < |ranges| && ranges[k].lba <= b < ranges[k].lba + ranges[k].num &&
          InBlock(blockMap, b, p);
        assert k > 0 ==> ranges[1..][k - 1] == ranges[k];
      }
    }
  }

  /** mem' is mem with exactly the requested blocks erased. */
  predicate Erased(mem: seq<u8>, blockMap: seq<MapEntry>, ranges: seq<LbaRange>, mem': seq<u8>) {
    && |mem'| == |mem|
    && forall p :: 0 <= p < |mem| ==> mem'[p] == if Requested(blockMap, ranges, p) then 0xff else mem[p]
  }

  /** The requested blocks hold nothing to lose. */
  predicate Blank(mem: seq<u8>, blockMap: seq<MapEntry>, ranges: seq<LbaRange>) {
    forall p :: 0 <= p < |mem| && Requested(blockMap, ranges, p) ==> mem[p] == 0xff
  }

  /** A checked list is erased as requested, or not at all and reported as bad, if and only if no pair wraps or all
      that comes before the first one that does is blank already. */
  lemma AllOrNothing(mem: seq<u8>, blockMap: seq<MapEntry>, ranges: seq<LbaRange>)
    requires MapOk(blockMap) && Checked(ranges, Blocks(blockMap))
    ensures var (mem', ok) := EraseAll(mem, blockMap, ranges);
      (if ok then Erased(mem, blockMap, ranges, mem') else mem' == mem) <==>
        NoWrap(ranges) || Blank(mem, blockMap, Sane(ranges))
  {
    hide MapOk, Checked, EraseAll, Requested, NoWrap, Sane;
    SaneAll(ranges);
    forall p | 0 <= p < |mem|
      ensures EraseAll(mem, blockMap, ranges).0[p] == if Requested(blockMap, Sane(ranges), p) then 0xff else mem[p]
    {
      EraseAllExact(mem, blockMap, ranges, p);
    }
    EraseAllOk(mem, blockMap, ranges);
  }

  /** Such a list: the second pair wraps, and block 0 has gone when it stops the erasing. */
  lemma WrapErasesHalf(mem: seq<u8>)
    requires |mem| == 16
    ensures var blockMap, ranges := [MapEntry(2, 8)], [LbaRange(0, 1), LbaRange(0xFFFF_FFFF_FFFF_FFFE, 2)];
      && MapOk(blockMap) && Blocks(blockMap) == 2 && Checked(ranges, 2) && !NoWrap(ranges)
      && !EraseAll(mem, blockMap, ranges).1 && EraseAll(mem, blockMap, ranges).0[0] == 0xff
  {
    var blockMap := [MapEntry(2, 8)];
    var a, b := LbaRange(0, 1), LbaRange(0xFFFF_FFFF_FFFF_FFFE, 2);
    var ranges := [a, b];
    assert Ends(blockMap, 1) && BlocksFrom(blockMap, 1) == 0 && BytesFrom(blockMap, 1) == 0;
    assert GetLba(blockMap, 0) == Some(Block(0, 8, 2));
    assert Locate(blockMap, 1, 2, 16, 0xFFFF_FFFF_FFFF_FFFE) == None;
    assert GetLba(blockMap, 0xFFFF_FFFF_FFFF_FFFE) == None;
    assert ranges[1..] == [b];
    assert ranges[1].lba == 0xFFFF_FFFF_FFFF_FFFE;
    var mem' := EraseBlock(mem, blockMap, 0);
    assert EraseRange(mem', blockMap, 1, 0) == (mem', true);
    assert EraseRange(mem, blockMap, 0, 1) == (mem', true);
    assert EraseRange(mem', blockMap, 0xFFFF_FFFF_FFFF_FFFE, 2) == (mem', false);
    assert EraseAll(mem', blockMap, [b]) == (mem', false);
  }

  /** All pairs name existing blocks, at least one each. */
  predicate AllExist(blockMap: seq<MapEntry>, ranges: seq<LbaRange>) {
    forall k :: 0 <= k < |ranges| ==> ranges[k].num > 0 && Exist(blockMap, ranges[k])
  }

  /** The documented behaviour, for lists without a wrapping pair: if all blocks exist, exactly they are erased;
      otherwise the list is refused. */
  lemma EraseAllOrRefuse(mem: seq<u8>, blockMap: seq<MapEntry>, ranges: seq<LbaRange>)
    requires MapOk(blockMap)
    requires forall k :: 0 <= k < |ranges| ==> ranges[k].lba + ranges[k].num < 0x1_0000_0000_0000_0000
    ensures Checked(ranges, Blocks(blockMap)) <==> AllExist(blockMap, ranges)
    ensures AllExist(blockMap, ranges) ==>
      var (mem', ok) := EraseAll(mem, blockMap, ranges);
      ok && forall p :: 0 <= p < |mem| ==> mem'[p] == if NamedByte(blockMap, ranges, p) then 0xff else mem[p]
  {
    hide MapOk, Checked, EraseAll, Requested, Blocks, Exist, NamedByte;
    CheckedIs(blockMap, ranges);
    if AllExist(blockMap, ranges) {
      EraseAllOk(mem, blockMap, ranges);
      SaneAll(ranges);
      forall p | 0 <= p < |mem|
        ensures EraseAll(mem, blockMap, ranges).0[p] == if NamedByte(blockMap, ranges, p) then 0xff else mem[p]
      {
        EraseAllExact(mem, blockMap, ranges, p);
        RequestedIs(blockMap, ranges, p);
      }
    }
  }
}
