/** The firmware volume block device: attributes, reads, writes and erasing of a memory image mirrored to a file. */
module FvbDevice {
  import opened EfiTypes
  import opened Words
  import opened FvbBlockMap

  const EFI_FVB2_READ_DISABLED_CAP: bv32 := 0x1
  const EFI_FVB2_READ_ENABLED_CAP: bv32 := 0x2
  const EFI_FVB2_READ_STATUS: bv32 := 0x4
  const EFI_FVB2_WRITE_DISABLED_CAP: bv32 := 0x8
  const EFI_FVB2_WRITE_ENABLED_CAP: bv32 := 0x10
  const EFI_FVB2_WRITE_STATUS: bv32 := 0x20
  const EFI_FVB2_LOCK_CAP: bv32 := 0x40
  const EFI_FVB2_LOCK_STATUS: bv32 := 0x80
  const EFI_FVB2_CAPABILITIES: bv32 := 0x5b
  const EFI_FVB2_STATUS: bv32 := 0xa4

  // ---- Attributes -------------------------------------------------------------------------------

  function WithStatus(a: bv32, status: bv32): bv32 { (a & (0xFFFF_FFFF & !EFI_FVB2_STATUS)) | status }

  /** FvbSetVolumeAttributes: the status and the volume's attributes afterwards. */
  function SetAttributes(a: bv32, request: bv32): (Status, bv32) {
    var caps, was, now := a & EFI_FVB2_CAPABILITIES, a & EFI_FVB2_STATUS, request & EFI_FVB2_STATUS;
    if a & EFI_FVB2_LOCK_STATUS != 0 && was ^ now != 0 then (EFI_ACCESS_DENIED, a)
    else if caps & EFI_FVB2_READ_DISABLED_CAP == 0 && now & EFI_FVB2_READ_STATUS == 0 then (EFI_INVALID_PARAMETER, a)
    else if caps & EFI_FVB2_READ_ENABLED_CAP == 0 && now & EFI_FVB2_READ_STATUS != 0 then (EFI_INVALID_PARAMETER, a)
    else if caps & EFI_FVB2_WRITE_DISABLED_CAP == 0 && now & EFI_FVB2_WRITE_STATUS == 0 then (EFI_INVALID_PARAMETER, a)
    else if caps & EFI_FVB2_WRITE_ENABLED_CAP == 0 && now & EFI_FVB2_WRITE_STATUS != 0 then (EFI_INVALID_PARAMETER, a)
    else if caps & EFI_FVB2_LOCK_CAP == 0 && now & EFI_FVB2_LOCK_STATUS != 0 then (EFI_INVALID_PARAMETER, a)
    else (EFI_SUCCESS, WithStatus(a, now))
  }

  /** Any sequence of requests. */
  function SetAll(a: bv32, requests: seq<bv32>): bv32
    decreases |requests|
  {
    if requests == [] then a else SetAll(SetAttributes(a, requests[0]).1, requests[1..])
  }

  lemma WithStatusBits(a: bv32, request: bv32)
    ensures WithStatus(a, request & EFI_FVB2_STATUS) & !EFI_FVB2_STATUS == a & !EFI_FVB2_STATUS
    ensures WithStatus(a, request & EFI_FVB2_STATUS) & EFI_FVB2_STATUS == request & EFI_FVB2_STATUS
  {
  }

  lemma SameStatus(a: bv32, request: bv32)
    requires (a & EFI_FVB2_STATUS) ^ (request & EFI_FVB2_STATUS) == 0
    ensures WithStatus(a, request & EFI_FVB2_STATUS) == a
  {
  }

  lemma SetCases(a: bv32, request: bv32)
    ensures var r, changes := SetAttributes(a, request), (a & EFI_FVB2_STATUS) ^ (request & EFI_FVB2_STATUS) != 0;
      && (r == (EFI_SUCCESS, WithStatus(a, request & EFI_FVB2_STATUS)) || (r.0 != EFI_SUCCESS && r.1 == a))
      && (a & EFI_FVB2_LOCK_STATUS != 0 && changes ==> r.0 != EFI_SUCCESS)
  {
    hide WithStatus;
  }

  /** When a request succeeds, bit by bit: a locked volume keeps its status, and reading, writing and locking are turned
      on or off only where the volume says that they can be. Then the three status bits are as requested, and all others
      as before. */
  lemma RequestSucceeds(a: bv32, request: bv32)
    ensures var (status, a') := SetAttributes(a, request);
      && (status == EFI_SUCCESS <==>
            && (a & 0x80 != 0 ==> (a ^ request) & 0xa4 == 0)
            && (if request & 0x4 != 0 then a & 0x2 != 0 else a & 0x1 != 0)
            && (if request & 0x20 != 0 then a & 0x10 != 0 else a & 0x8 != 0)
            && (request & 0x80 != 0 ==> a & 0x40 != 0))
      && (status == EFI_SUCCESS ==> a' == (a & 0xFFFF_FF5B) | (request & 0xa4))
      && (status == EFI_ACCESS_DENIED <==> a & 0x80 != 0 && (a ^ request) & 0xa4 != 0)
      && (status == EFI_SUCCESS || status == EFI_ACCESS_DENIED || status == EFI_INVALID_PARAMETER)
  {
  }

  /** One request changes status bits only, none of them when the volume is locked, and sets them as asked if it
      succeeds. */
  lemma OneRequest(a: bv32, request: bv32)
    ensures var (status, a') := SetAttributes(a, request);
      && a' & !EFI_FVB2_STATUS == a & !EFI_FVB2_STATUS
      && (a & EFI_FVB2_LOCK_STATUS != 0 ==> a' == a)
      && (status == EFI_SUCCESS ==> a' & EFI_FVB2_STATUS == request & EFI_FVB2_STATUS)
      && (status != EFI_SUCCESS ==> a' == a)
  {
    hide WithStatus, SetAttributes;
    SetCases(a, request);
    WithStatusBits(a, request);
    if (a & EFI_FVB2_STATUS) ^ (request & EFI_FVB2_STATUS) == 0 { SameStatus(a, request); }
  }

  /** Once locked, no sequence of requests changes anything; and none ever changes a capability. */
  lemma {:induction false} LockedForever(a: bv32, requests: seq<bv32>)
    ensures SetAll(a, requests) & !EFI_FVB2_STATUS == a & !EFI_FVB2_STATUS
    ensures a & EFI_FVB2_LOCK_STATUS != 0 ==> SetAll(a, requests) == a
    decreases |requests|
  {
    if requests != [] {
      OneRequest(a, requests[0]);
      LockedForever(SetAttributes(a, requests[0]).1, requests[1..]);
    }
  }

  /** Every status bit that some sequence of requests sets or clears has the capability for it. */
  predicate Permitted(a: bv32, a': bv32) {
    && (a' & EFI_FVB2_READ_STATUS != 0 && a & EFI_FVB2_READ_STATUS == 0 ==> a & EFI_FVB2_READ_ENABLED_CAP != 0)
    && (a' & EFI_FVB2_READ_STATUS == 0 && a & EFI_FVB2_READ_STATUS != 0 ==> a & EFI_FVB2_READ_DISABLED_CAP != 0)
    && (a' & EFI_FVB2_WRITE_STATUS != 0 && a & EFI_FVB2_WRITE_STATUS == 0 ==> a & EFI_FVB2_WRITE_ENABLED_CAP != 0)
    && (a' & EFI_FVB2_WRITE_STATUS == 0 && a & EFI_FVB2_WRITE_STATUS != 0 ==> a & EFI_FVB2_WRITE_DISABLED_CAP != 0)
    && (a' & EFI_FVB2_LOCK_STATUS != 0 && a & EFI_FVB2_LOCK_STATUS == 0 ==> a & EFI_FVB2_LOCK_CAP != 0)
  }

  lemma {:induction false} OnlyPermitted(a: bv32, requests: seq<bv32>)
    ensures Permitted(a, SetAll(a, requests))
    decreases |requests|
  {
    if requests != [] {
      var a1 := SetAttributes(a, requests[0]).1;
      hide SetAttributes, Permitted;
      OneRequest(a, requests[0]);
      OnePermitted(a, requests[0]);
      OnlyPermitted(a1, requests[1..]);
      PermittedTwice(a, a1, SetAll(a1, requests[1..]));
    }
  }

  lemma OnePermitted(a: bv32, request: bv32)
    ensures Permitted(a, SetAttributes(a, request).1)
  {
    hide WithStatus;
    StatusBits(a, request);
  }

  lemma StatusBits(a: bv32, request: bv32)
    ensures var a', now := WithStatus(a, request & EFI_FVB2_STATUS), request & EFI_FVB2_STATUS;
      && a' & EFI_FVB2_READ_STATUS == now & EFI_FVB2_READ_STATUS
      && a' & EFI_FVB2_WRITE_STATUS == now & EFI_FVB2_WRITE_STATUS
      && a' & EFI_FVB2_LOCK_STATUS == now & EFI_FVB2_LOCK_STATUS
  {
  }

  lemma PermittedTwice(a: bv32, b: bv32, c: bv32)
    requires Permitted(a, b) && Permitted(b, c) && a & !EFI_FVB2_STATUS == b & !EFI_FVB2_STATUS
    ensures Permitted(a, c)
  {
  }

  // ---- The volume -------------------------------------------------------------------------------

  class FirmwareVolume {
    /** The volume in memory from FvBase on, and the file it was read from, which lacks the first offset bytes. */
    const mem: array<u8>
    const file: array<u8>
    const offset: nat
    const blockMap: seq<MapEntry>
    const numOfBlocks: nat
    /** The file is present; writing was enabled when the volume was set up. */
    const mapped: bool
    const writeEnabled: bool
    var attributes: bv32

    /** The set-up of a volume below 4 GB whose block map is not broken off: its blocks are counted. */
    constructor (bytes: array<u8>, image: array<u8>, missing: nat, runs: seq<MapEntry>, attr: bv32, device: bool)
      requires bytes != image && forall k :: 0 <= k < |runs| ==> runs[k].num != 0 && runs[k].length != 0
      requires BytesBefore(runs, |runs|) < 0x1_0000_0000 && BytesBefore(runs, |runs|) <= bytes.Length
      requires device ==> missing + image.Length == bytes.Length && (runs != [] ==> missing <= runs[0].length)
      ensures Valid() && numOfBlocks == BlocksBefore(runs, |runs|) && writeEnabled
      ensures mem == bytes && file == image && offset == missing && blockMap == runs && mapped == device
      ensures attributes == attr
    {
      var n: nat, i := 0, 0;
      while i < |runs|
        invariant i <= |runs| && n == BlocksBefore(runs, i)
      {
        n, i := n + runs[i].num, i + 1;
      }
      mem, file, offset, blockMap, numOfBlocks := bytes, image, missing, runs, n;
      mapped, writeEnabled, attributes := device, true, attr;
      new;
      SumsAgree(runs, |runs|);
      if runs != [] { BlockAt(runs, 0, 0); }
    }

    ghost predicate Valid()
      reads this
    {
      && mem != file && MapOk(blockMap) && Bytes(blockMap) <= mem.Length && numOfBlocks == Blocks(blockMap)
      && (mapped ==> offset + file.Length == mem.Length)
      && (mapped && GetLba(blockMap, 0).Some? ==> offset <= GetLba(blockMap, 0).value.length)
    }

    /** The file equals the memory image from offset on. */
    ghost predicate Mirrored()
      requires Valid()
      reads this, mem, file
    {
      mapped ==> file[..] == mem[offset..]
    }

    /** FileWrite of the memory image: length bytes from memory offset p on, to the file at p less the header. */
    method FileWrite(p: nat, length: nat)
      requires Valid() && mapped && offset <= p && p + length <= mem.Length
      modifies file
      ensures forall i :: 0 <= i < file.Length ==>
        file[i] == if p <= offset + i < p + length then mem[offset + i] else old(file[i])
    {
      forall i | 0 <= i < length {
        file[p - offset + i] := mem[p + i];
      }
    }

    /** FlashFdWrite, and FlashFdErase with x all 0xff: outside runtime the file follows. An access that begins in the
        part the file lacks must reach past it. */
    method FlashFdWrite(p: nat, x: seq<u8>, rt: bool)
      requires Valid() && p + |x| <= mem.Length && (mapped && !rt ==> p + |x| >= offset)
      modifies mem, file
      ensures mem[..] == Overwrite(old(mem[..]), p, x)
      ensures !rt && old(Mirrored()) ==> Mirrored()
      ensures rt ==> file[..] == old(file[..])
    {
      forall i | 0 <= i < |x| { mem[p + i] := x[i]; }
      if !rt && mapped {
        if p < offset {
          FileWrite(offset, |x| - (offset - p));
        } else {
          FileWrite(p, |x|);
        }
      }
    }

    method GetLbaAddress(lba: nat) returns (b: Option<Block>)
      requires Valid()
      ensures b == GetLba(blockMap, lba)
    {
      var i: nat, start: nat, at: nat := 0, 0, 0;
      while i < |blockMap| && blockMap[i].num != 0 && blockMap[i].length != 0
        invariant i <= |blockMap| && start <= lba && Locate(blockMap, i, start, at, lba) == GetLba(blockMap, lba)
      {
        var next := start + blockMap[i].num;
        if lba >= start && lba < next {
          return Some(Block(at + Product(lba - start, blockMap[i].length), blockMap[i].length, next - lba));
        }
        start, at, i := next, at + RunBytes(blockMap[i]) % 0x1_0000_0000, i + 1;
      }
      b := None;
    }

    /** The bytes of an access to a block, cut at the block's end. */
    function Clipped(b: Block, blockOffset: nat, n: nat): nat
      requires blockOffset <= b.length
    {
      if b.length < n + blockOffset then b.length - blockOffset else n
    }

    method ReadBlock(lba: nat, blockOffset: nat, n: nat) returns (status: Status, data: seq<u8>)
      requires Valid()
      ensures var b := GetLba(blockMap, lba);
        if n == 0 || b.None? then status == EFI_INVALID_PARAMETER
        else if attributes & EFI_FVB2_READ_STATUS == 0 then status == EFI_ACCESS_DENIED
        else if blockOffset > b.value.length then status == EFI_INVALID_PARAMETER
        else
          var m := Clipped(b.value, blockOffset, n);
          && status == (if m < n then EFI_BAD_BUFFER_SIZE else EFI_SUCCESS)
          && b.value.offset + blockOffset + m <= mem.Length
          && data == mem[b.value.offset + blockOffset..b.value.offset + blockOffset + m]
          && blockOffset + m <= b.value.length && (m == n || (m < n && blockOffset + m == b.value.length))
    {
      data := [];
      if n == 0 { return EFI_INVALID_PARAMETER, data; }
      var b := GetLbaAddress(lba);
      if b.None? { return EFI_INVALID_PARAMETER, data; }
      if attributes & EFI_FVB2_READ_STATUS == 0 { return EFI_ACCESS_DENIED, data; }
      if blockOffset > b.value.length { return EFI_INVALID_PARAMETER, data; }
      Tiles(blockMap, lba);
      status := EFI_SUCCESS;
      var m := n;
      if b.value.length < n + blockOffset {
        m, status := b.value.length - blockOffset, EFI_BAD_BUFFER_SIZE;
      }
      data := mem[b.value.offset + blockOffset..b.value.offset + blockOffset + m];
    }

    method WriteBlock(lba: nat, blockOffset: nat, x: seq<u8>, rt: bool) returns (status: Status, written: nat)
      requires Valid()
      requires mapped && !rt ==> forall b :: GetLba(blockMap, lba) == Some(b) && blockOffset <= b.length ==>
        b.offset + blockOffset + Clipped(b, blockOffset, |x|) >= offset
      modifies mem, file
      ensures !rt && old(Mirrored()) ==> Mirrored()
      ensures var b := GetLba(blockMap, lba);
        if !writeEnabled then status == EFI_ACCESS_DENIED && mem[..] == old(mem[..])
        else if x == [] || b.None? then status == EFI_INVALID_PARAMETER && mem[..] == old(mem[..])
        else if attributes & EFI_FVB2_WRITE_STATUS == 0 then status == EFI_ACCESS_DENIED && mem[..] == old(mem[..])
        else if blockOffset > b.value.length then status == EFI_INVALID_PARAMETER && mem[..] == old(mem[..])
        else
          && written == Clipped(b.value, blockOffset, |x|)
          && status == (if written < |x| then EFI_BAD_BUFFER_SIZE else EFI_SUCCESS)
          && b.value.offset + blockOffset + written <= mem.Length
          && mem[..] == Overwrite(old(mem[..]), b.value.offset + blockOffset, x[..written])
          && blockOffset + written <= b.value.length
          && (written == |x| || (written < |x| && blockOffset + written == b.value.length))
    {
      written := 0;
      if !writeEnabled { return EFI_ACCESS_DENIED, written; }
      if x == [] { return EFI_INVALID_PARAMETER, written; }
      var b := GetLbaAddress(lba);
      if b.None? { return EFI_INVALID_PARAMETER, written; }
      if attributes & EFI_FVB2_WRITE_STATUS == 0 { return EFI_ACCESS_DENIED, written; }
      if blockOffset > b.value.length { return EFI_INVALID_PARAMETER, written; }
      Tiles(blockMap, lba);
      status, written := EFI_SUCCESS, |x|;
      if b.value.length < |x| + blockOffset {
        written, status := b.value.length - blockOffset, EFI_BAD_BUFFER_SIZE;
      }
      FlashFdWrite(b.value.offset + blockOffset, x[..written], rt);
    }

    predicate Writable()
      reads this
    {
      writeEnabled && attributes & EFI_FVB2_WRITE_STATUS != 0
    }

    /** FvbEraseBlock. */
    method EraseOne(lba: nat, rt: bool) returns (status: Status)
      requires Valid()
      modifies mem, file
      ensures !rt && old(Mirrored()) ==> Mirrored()
      ensures var b := GetLba(blockMap, lba);
        if !writeEnabled || attributes & EFI_FVB2_WRITE_STATUS == 0 then
          status == EFI_ACCESS_DENIED && mem[..] == old(mem[..])
        else if b.None? then status == EFI_INVALID_PARAMETER && mem[..] == old(mem[..])
        else status == EFI_SUCCESS && mem[..] == EraseBlock(old(mem[..]), blockMap, lba)
    {
      if !writeEnabled { return EFI_ACCESS_DENIED; }
      if attributes & EFI_FVB2_WRITE_STATUS == 0 { return EFI_ACCESS_DENIED; }
      var b := GetLbaAddress(lba);
      if b.None? { return EFI_INVALID_PARAMETER; }
      Tiles(blockMap, lba);
      PastHeader(blockMap, lba);
      var x := seq(b.value.length, _ => 0xff);
      ghost var was := mem[..];
      FlashFdWrite(b.value.offset, x, rt);
      ErasedIs(was, blockMap, lba, x);
      status := EFI_SUCCESS;
    }

    /** The inner loop of EraseBlocks. */
    method EraseRun(start: nat, num: u32, rt: bool) returns (status: Status)
      requires Valid() && Writable()
      modifies mem, file
      ensures !rt && old(Mirrored()) ==> Mirrored()
      ensures mem[..] == EraseRange(old(mem[..]), blockMap, start, num).0
      ensures status == if EraseRange(old(mem[..]), blockMap, start, num).1 then EFI_SUCCESS else EFI_INVALID_PARAMETER
    {
      hide EraseBlock, GetLba;
      var lba, left: nat := start, num;
      while left > 0
        invariant EraseRange(mem[..], blockMap, lba, left) == EraseRange(old(mem[..]), blockMap, start, num)
        invariant !rt && old(Mirrored()) ==> Mirrored()
      {
        status := EraseOne(lba, rt);
        if status != EFI_SUCCESS { return; }
        lba, left := lba + 1, left - 1;
      }
      status := EFI_SUCCESS;
    }

    /** FvbProtocolEraseBlocks: the whole list is checked before anything is erased. */
    method EraseBlocks(ranges: seq<LbaRange>, rt: bool) returns (status: Status)
      requires Valid()
      modifies mem, file
      ensures !rt && old(Mirrored()) ==> Mirrored()
      ensures !Checked(ranges, numOfBlocks) ==> status == EFI_INVALID_PARAMETER && mem[..] == old(mem[..])
      ensures Checked(ranges, numOfBlocks) && ranges != [] && !Writable() ==>
        status == EFI_ACCESS_DENIED && mem[..] == old(mem[..])
      ensures Checked(ranges, numOfBlocks) && (ranges == [] || Writable()) ==>
        var r := EraseAll(old(mem[..]), blockMap, ranges);
        mem[..] == r.0 && status == if r.1 then EFI_SUCCESS else EFI_INVALID_PARAMETER
      ensures Writable() && (forall k :: 0 <= k < |ranges| ==> ranges[k].lba + ranges[k].num < 0x1_0000_0000_0000_0000)
        ==>
        if AllExist(blockMap, ranges) then
          && status == EFI_SUCCESS
          && forall p :: 0 <= p < mem.Length ==>
               mem[p] == if NamedByte(blockMap, ranges, p) then 0xff else old(mem[p])
        else status == EFI_INVALID_PARAMETER && mem[..] == old(mem[..])
    {
      hide EraseRange, EraseBlock, GetLba, AllExist, NamedByte;
      if forall k :: 0 <= k < |ranges| ==> ranges[k].lba + ranges[k].num < 0x1_0000_0000_0000_0000 {
        EraseAllOrRefuse(mem[..], blockMap, ranges);
      }
      var k := 0;
      while k < |ranges|
        invariant k <= |ranges| && Checked(ranges[..k], numOfBlocks)
      {
        if ranges[k].num == 0 || (ranges[k].lba + ranges[k].num) % 0x1_0000_0000_0000_0000 > numOfBlocks {
          return EFI_INVALID_PARAMETER;
        }
        k := k + 1;
      }
      assert ranges[..k] == ranges;
      if ranges != [] && !Writable() {
        status := EraseOne(ranges[0].lba, rt);
        return;
      }
      k := 0;
      while k < |ranges|
        invariant k <= |ranges| && EraseAll(mem[..], blockMap, ranges[k..]) == EraseAll(old(mem[..]), blockMap, ranges)
        invariant !rt && old(Mirrored()) ==> Mirrored()
      {
        assert ranges[k..][1..] == ranges[k + 1..];
        status := EraseRun(ranges[k].lba, ranges[k].num, rt);
        if status != EFI_SUCCESS { return; }
        k := k + 1;
      }
      status := EFI_SUCCESS;
    }

    /** FvbSetVolumeAttributes. */
    method SetVolumeAttributes(request: bv32) returns (status: Status, now: bv32)
      modifies this
      ensures (status, attributes) == SetAttributes(old(attributes), request)
      ensures status == EFI_SUCCESS ==> now == attributes
    {
      hide WithStatus;
      now := request;
      var caps, oldStatus, newStatus :=
        attributes & EFI_FVB2_CAPABILITIES, attributes & EFI_FVB2_STATUS, request & EFI_FVB2_STATUS;
      if attributes & EFI_FVB2_LOCK_STATUS != 0 {
        if oldStatus ^ newStatus != 0 { return EFI_ACCESS_DENIED, now; }
      }
      if caps & EFI_FVB2_READ_DISABLED_CAP == 0 {
        if newStatus & EFI_FVB2_READ_STATUS == 0 { return EFI_INVALID_PARAMETER, now; }
      }
      if caps & EFI_FVB2_READ_ENABLED_CAP == 0 {
        if newStatus & EFI_FVB2_READ_STATUS != 0 { return EFI_INVALID_PARAMETER, now; }
      }
      if caps & EFI_FVB2_WRITE_DISABLED_CAP == 0 {
        if newStatus & EFI_FVB2_WRITE_STATUS == 0 { return EFI_INVALID_PARAMETER, now; }
      }
      if caps & EFI_FVB2_WRITE_ENABLED_CAP == 0 {
        if newStatus & EFI_FVB2_WRITE_STATUS != 0 { return EFI_INVALID_PARAMETER, now; }
      }
      if caps & EFI_FVB2_LOCK_CAP == 0 {
        if newStatus & EFI_FVB2_LOCK_STATUS != 0 { return EFI_INVALID_PARAMETER, now; }
      }
      attributes := WithStatus(attributes, newStatus);
      status, now := EFI_SUCCESS, attributes;
    }
  }

  /** Every block ends at or behind the first one's end. */
  lemma PastHeader(blockMap: seq<MapEntry>, lba: nat)
    requires MapOk(blockMap) && GetLba(blockMap, lba).Some?
    ensures GetLba(blockMap, 0).Some?
    ensures GetLba(blockMap, 0).value.length <= GetLba(blockMap, lba).value.offset + GetLba(blockMap, lba).value.length
  {
    Tiles(blockMap, 0);
    Tiles(blockMap, lba);
    if lba > 0 { BlocksOrdered(blockMap, 0, lba); }
  }

  lemma ErasedIs(mem: seq<u8>, blockMap: seq<MapEntry>, lba: nat, x: seq<u8>)
    requires GetLba(blockMap, lba).Some? && |x| == GetLba(blockMap, lba).value.length &&
      forall i :: 0 <= i < |x| ==> x[i] == 0xff
    requires GetLba(blockMap, lba).value.offset + |x| <= |mem|
    ensures Overwrite(mem, GetLba(blockMap, lba).value.offset, x) == EraseBlock(mem, blockMap, lba)
  {
  }
}
