/** One variable store: its memory, how it is searched, written and reclaimed. */
module FsStore {
  import opened EfiTypes
  import opened Words
  import opened VariableLog
  import opened VariableBytes
  import opened VariableEnumeration
  import opened VariableUpdate
  import opened VariableJournal

  /** All writes to both stores so far. It exists for the proofs only. */
  class Journal {
    ghost var writes: seq<Write>

    constructor ()
      ensures writes == []
    {
      writes := [];
    }
  }

  class VariableStore {
    const t: StoreType
    const journal: Journal
    /** The store's bytes, and two bytes of whatever lies behind it, which the walks look at. */
    const mem: array<u8>
    /** LastVariableOffset: where the next record goes. */
    var last: nat
    ghost var log: seq<Record>
    /** The store header, which nothing changes. */
    ghost const header: seq<u8>

    ghost predicate Valid()
      reads this, mem
    {
      && STORE_HEADER + 2 <= mem.Length <= 0x1_0000_0001
      && Image(mem[..], mem.Length - 2, log) && last == End(log) && mem[..][..STORE_HEADER] == header
    }

    /** The Size field of the store's header. */
    function Size(): (n: u32)
      requires mem.Length >= STORE_HEADER
      reads this, mem
    {
      Field32(mem[..], 16)
    }

    /** The scan at start-up: find the end of the records. */
    constructor ScanStore(kind: StoreType, j: Journal, bytes: array<u8>, ghost records: seq<Record>)
      requires STORE_HEADER + 2 <= bytes.Length <= 0x1_0000_0001 && Image(bytes[..], bytes.Length - 2, records)
      ensures Valid() && t == kind && journal == j && mem == bytes && log == records
    {
      t, journal, mem := kind, j, bytes;
      header := bytes[..][..STORE_HEADER];
      log := records;
      last := 0;
      new;
      last := FindEnd(bytes[..], bytes.Length - 2, records);
    }

    /** A new store in memory: erased, then given its header. */
    constructor Fresh(kind: StoreType, j: Journal, bytes: array<u8>, template: seq<u8>)
      requires STORE_HEADER + 2 <= bytes.Length <= 0x1_0000_0001 && bytes[bytes.Length - 2] != 0xaa
      requires |template| == STORE_HEADER && Field32(template, 16) == bytes.Length - 2
      modifies bytes, j
      ensures Valid() && t == kind && journal == j && mem == bytes && log == [] && header == template
    {
      t, journal, mem := kind, j, bytes;
      header := template;
      log := [];
      last := STORE_HEADER;
      new;
      EraseStore();
      ghost var e := mem[..];
      WriteStore(0, template);
      FreshImage(e, |e| - 2, template);
    }

    /** Walk until no valid header follows. */
    static method FindEnd(b: seq<u8>, size: u32, ghost records: seq<Record>) returns (v: nat)
      requires Image(b, size, records)
      ensures v == End(records)
    {
      hide Image, Offset, SizeOf, Sits, IsValidVariableHeader, GetNextVariablePtr, StateAt, AttributesAt, GuidAt;
      SizeIs(b, size, records);
      v := STORE_HEADER;
      ghost var i := 0;
      Walk(b, size, records, i);
      while IsValidVariableHeader(b, v)
        invariant i <= |records| && v == Offset(records, i) && v + 2 <= |b|
        decreases |records| - i
      {
        Walk(b, size, records, i);
        v := GetNextVariablePtr(b, v);
        i := i + 1;
        Walk(b, size, records, i);
      }
      Walk(b, size, records, i);
    }

    // ---- The storage device ---------------------------------------------------------------------

    method EraseStore()
      requires mem.Length >= 2
      modifies mem, journal
      ensures forall i :: 0 <= i < mem.Length ==>
        mem[i] == if i < mem.Length - 2 then VAR_DEFAULT_VALUE else old(mem[i])
      ensures journal.writes == old(journal.writes) + [Write(t, mem[..])]
    {
      forall i | 0 <= i < mem.Length - 2 {
        mem[i] := VAR_DEFAULT_VALUE;
      }
      journal.writes := journal.writes + [Write(t, mem[..])];
    }

    method WriteStore(offset: nat, bytes: seq<u8>)
      requires offset + |bytes| <= mem.Length
      modifies mem, journal
      ensures mem[..] == Overwrite(old(mem[..]), offset, bytes)
      ensures journal.writes == old(journal.writes) + [Write(t, mem[..])]
    {
      forall i | 0 <= i < |bytes| {
        mem[offset + i] := bytes[i];
      }
      journal.writes := journal.writes + [Write(t, mem[..])];
    }

    /** Write the state byte of the record at p. */
    method WriteState(p: nat, state: u8, ghost n: nat)
      requires Valid() && n < |log| && p == Offset(log, n)
      modifies mem, `log, journal
      ensures Valid() && log == SetState(old(log), n, state)
      ensures journal.writes == old(journal.writes) + [Write(t, mem[..])]
    {
      hide Image, Offset, SizeOf;
      SizeIs(mem[..], mem.Length - 2, log);
      ImageState(mem[..], mem.Length - 2, log, n, state);
      ghost var b := mem[..];
      WriteStore(p + 2, [state]);
      assert Overwrite(b, p + 2, [state]) == b[p + 2 := state];
      log := SetState(log, n, state);
    }

    /** Mark the record at p deleted. */
    method Retire(p: nat, ghost n: nat)
      requires Valid() && n < |log| && p == Offset(log, n)
      modifies mem, `log, journal
      ensures Valid() && log == SetState(old(log), n, MarkDeleted(old(log)[n].state))
      ensures journal.writes == old(journal.writes) + [Write(t, mem[..])]
    {
      hide Image, Framed, Offset, Sits;
      Walk(mem[..], mem.Length - 2, log, n);
      WriteState(p, MarkDeleted(StateAt(mem[..], p)), n);
    }

    /** Mark the record at p as in transition. */
    method Supersede(p: nat, ghost n: nat)
      requires Valid() && n < |log| && p == Offset(log, n)
      modifies mem, `log, journal
      ensures Valid() && log == SetState(old(log), n, MarkTransition(old(log)[n].state))
      ensures journal.writes == old(journal.writes) + [Write(t, mem[..])]
    {
      hide Image, Framed, Offset, Sits;
      Walk(mem[..], mem.Length - 2, log, n);
      WriteState(p, MarkTransition(StateAt(mem[..], p)), n);
    }

    /** Write a new record at LastVariableOffset. */
    method Append(r: Record)
      requires Valid() && WellFormed(r) && last + SizeOf(r) <= mem.Length - 2
      modifies mem, `log, `last, journal
      ensures Valid() && log == old(log) + [r]
      ensures journal.writes == old(journal.writes) + [Write(t, mem[..])]
    {
      ImageAppend(mem[..], mem.Length - 2, log, r);
      WriteStore(last, Encode(r));
      last := last + |Encode(r)|;
      log := log + [r];
    }

    // ---- Searching ------------------------------------------------------------------------------

    /** CompareMem of a name with the name of the record at v: it stops at the first difference, and so never reads
        past the record's terminator. */
    static method NameMatches(b: seq<u8>, v: nat, x: seq<u8>, ghost name: seq<u16>, ghost r: Record) returns (m: bool)
      requires Sits(b, v, r) && x == NameBytes(name) && 0 !in name
      ensures m <==> r.key.name == name
    {
      Fields(b, v, r);
      NameAt(b, v, r);
      var i := 0;
      while i < |x| && b[v + RECORD_HEADER + i] == x[i]
        invariant 0 <= i <= |x| && (i < |x| ==> i < NameSize(r.key))
        invariant forall j :: 0 <= j < i ==> j < NameSize(r.key) && NameByte(r.key.name, j) == NameByte(name, j)
      {
        i := i + 1;
        if i == NameSize(r.key) { NoLonger(r.key.name, name); }
      }
      m := i == |x|;
      if m { SameName(r.key.name, name); }
    }

    /** FindVariable's test of one live record. */
    method IsHit(b: seq<u8>, v: nat, k: Key, rt: bool, ghost r: Record) returns (hit: bool)
      requires Sits(b, v, r) && 0 !in k.name
      ensures hit <==> (rt ==> AtRuntime(r)) && Matches(r, k)
    {
      Fields(b, v, r);
      hit := false;
      if !rt || TestMask(AttributesAt(b, v), EFI_VARIABLE_RUNTIME_ACCESS) {
        if k.name == [] {
          hit := true;
        } else if GuidAt(b, v) == k.guid {
          hit := NameMatches(b, v, NameBytes(k.name), k.name, r);
        }
      }
    }

    /** FindVariable's walk through this store, whose log is the part of all from base on. Either found is the answer,
        or the walk goes on behind this store with the last hit in transition. */
    method Search(k: Key, rt: bool, ghost all: seq<Record>, ghost base: nat, ghost best: int)
      returns (found: int, inDelete: int, ghost n: nat)
      requires Valid() && 0 !in k.name && base + |log| <= |all| && all[base..base + |log|] == log
      requires -1 <= best < |all| && (best >= 0 ==> Hit(all[best], k, rt))
      ensures n <= |log| && (found >= 0 || inDelete >= 0 ==> n < |log|)
      ensures found >= 0 ==> found == Offset(log, n) && Scan(all, k, rt, base, best) == base + n
      ensures found < 0 && inDelete >= 0 ==> inDelete == Offset(log, n) && Hit(all[base + n], k, rt)
      ensures found < 0 ==>
        Scan(all, k, rt, base, best) == Scan(all, k, rt, base + |log|, if inDelete >= 0 then base + n else best)
    {
      hide Image, Offset, SizeOf, Sits, IsValidVariableHeader, StateAt, AttributesAt, GuidAt, GetNextVariablePtr;
      hide Matches, AtRuntime, Scan;
      var b, end, v := mem[..], Size(), STORE_HEADER;
      SizeIs(b, mem.Length - 2, log);
      Walk(b, end, log, 0);
      found, inDelete, n := -1, -1, 0;
      ghost var i := 0;
      while v < end && IsValidVariableHeader(b, v)
        invariant i <= |log| && v == Offset(log, i) && n <= |log| && v + 2 <= |b|
        invariant inDelete >= 0 ==> n < |log| && inDelete == Offset(log, n) && Hit(all[base + n], k, rt)
        invariant Scan(all, k, rt, base, best) == Scan(all, k, rt, base + i, if inDelete >= 0 then base + n else best)
        decreases |log| - i
      {
        Walk(b, end, log, i);
        assert all[base + i] == log[i];
        ScanStep(all, k, rt, base + i, if inDelete >= 0 then base + n else best);
        if StateAt(b, v) == VAR_ADDED || StateAt(b, v) == VAR_ADDED_IN_TRANSITION {
          var hit := IsHit(b, v, k, rt, log[i]);
          if hit {
            if StateAt(b, v) == VAR_ADDED { return v, inDelete, i; }
            inDelete, n := v, i;
          }
        }
        v := GetNextVariablePtr(b, v);
        i := i + 1;
        Walk(b, end, log, i);
      }
      Walk(b, end, log, i);
    }

    /** A later live record of this store has the key of the record at p. */
    method ExistNewerVariable(p: nat, ghost n: nat) returns (newer: bool)
      requires Valid() && n < |log| && p == Offset(log, n)
      ensures newer <==> Newer(log, n)
    {
      hide Image, Offset, SizeOf, Sits, IsValidVariableHeader, GuidAt, GetNextVariablePtr, NameBytes;
      var b := mem[..];
      Walk(b, |b| - 2, log, n);
      Walk(b, |b| - 2, log, n + 1);
      Fields(b, p, log[n]);
      NameInside(b, p, log[n]);
      var name, v := b[p + RECORD_HEADER..GetVariableDataPtr(b, p)], GetNextVariablePtr(b, p);
      ghost var i := n + 1;
      while IsValidVariableHeader(b, v)
        invariant n < i <= |log| && v == Offset(log, i) && v + 2 <= |b|
        invariant forall j :: n < j < i ==> !(Live(log[j]) && log[j].key == log[n].key)
        decreases |log| - i
      {
        Walk(b, |b| - 2, log, i);
        Walk(b, |b| - 2, log, i + 1);
        var same := SameLive(b, v, GuidAt(b, p), name, log[n].key, log[i]);
        if same { return true; }
        v := GetNextVariablePtr(b, v);
        i := i + 1;
      }
      newer := false;
      Walk(b, |b| - 2, log, i);
    }

    /** The record at v is live and has the key with this GUID and name. */
    static method SameLive(b: seq<u8>, v: nat, guid: seq<u8>, name: seq<u8>, ghost k: Key, ghost r: Record)
      returns (same: bool)
      requires Sits(b, v, r) && guid == k.guid && name == NameBytes(k.name) && 0 !in k.name
      ensures same <==> Live(r) && r.key == k
    {
      Fields(b, v, r);
      same := false;
      if StateAt(b, v) == VAR_ADDED || StateAt(b, v) == VAR_ADDED_IN_TRANSITION {
        if guid == GuidAt(b, v) {
          same := NameMatches(b, v, name, k.name, r);
        }
      }
    }

    /** GetNextVariableName's walk from record i, which stands at v: the next visible record, or -1. */
    method NextLive(v: nat, rt: bool, ghost i: nat) returns (p: int, ghost n: nat)
      requires Valid() && i <= |log| && v == Offset(log, i)
      ensures n == NextVisible(log, rt, i) && p == if n < |log| then Offset(log, n) else -1
    {
      hide Image, Offset, SizeOf, Sits, IsValidVariableHeader, StateAt, AttributesAt, GuidAt, GetNextVariablePtr;
      var b, end := mem[..], Size();
      SizeIs(b, mem.Length - 2, log);
      p, n := v, i;
      Walk(b, end, log, n);
      while p < end && IsValidVariableHeader(b, p)
        invariant i <= n <= |log| && p == Offset(log, n) && p + 2 <= |b| &&
          NextVisible(log, rt, n) == NextVisible(log, rt, i)
        decreases |log| - n
      {
        Walk(b, end, log, n);
        if StateAt(b, p) == VAR_ADDED || StateAt(b, p) == VAR_ADDED_IN_TRANSITION {
          if !rt || TestMask(AttributesAt(b, p), EFI_VARIABLE_RUNTIME_ACCESS) { return; }
        }
        p := GetNextVariablePtr(b, p);
        n := n + 1;
        Walk(b, end, log, n);
      }
      Walk(b, end, log, n);
      p := -1;
    }

    // ---- Reclaim --------------------------------------------------------------------------------

    /** One turn of Reclaim's loop: the bytes to keep of record i, which stands at v. */
    method KeepBytes(v: nat, cur: int, ghost i: nat, ghost curIndex: int) returns (bytes: seq<u8>)
      requires Valid() && i < |log| && v == Offset(log, i) && (cur == v <==> curIndex == i)
      ensures Keep(log, curIndex, i) == [] ==> bytes == []
      ensures Keep(log, curIndex, i) != [] ==>
        WellFormed(Keep(log, curIndex, i)[0]) && bytes == Encode(Keep(log, curIndex, i)[0])
    {
      hide Image, Offset, SizeOf, IsValidVariableHeader, AttributesAt, GuidAt, GetNextVariablePtr, Encode, Newer;
      var b := mem[..];
      Walk(b, |b| - 2, log, i);
      RecordBytes(b, v, log[i]);
      bytes := [];
      if StateAt(b, v) == VAR_ADDED {
        bytes := b[v..GetNextVariablePtr(b, v)];
      } else if StateAt(b, v) == VAR_ADDED_IN_TRANSITION {
        var newer := ExistNewerVariable(v, i);
        if !newer {
          bytes := b[v..GetNextVariablePtr(b, v)];
          if cur != v {
            EncodeState(log[i], VAR_ADDED);
            bytes := bytes[2 := VAR_ADDED];
          }
        }
      }
    }

    /** Reclaim: rebuild the store from what is worth keeping, and count the bytes of hardware error records and of
        the others. */
    method Reclaim(cur: int, ghost curIndex: int) returns (common: nat, hwErr: nat, ghost blank: seq<u8>)
      requires Valid() && -1 <= curIndex < |log| && (if curIndex < 0 then cur < 0 else cur == Offset(log, curIndex))
      modifies mem, `log, `last, journal
      ensures Valid() && log == Compact(old(log), curIndex)
      ensures Wiped(blank, mem.Length - 2)
      ensures journal.writes == old(journal.writes) + [Write(t, blank), Write(t, mem[..])]
      ensures hwErr == HwErrBytes(log) && common + hwErr == last - STORE_HEADER
    {
      hide Image, Offset, SizeOf, IsValidVariableHeader, GetNextVariablePtr, Encode, Keep, CompactFrom;
      var b, v := mem[..], STORE_HEADER;
      var buffer := b[..STORE_HEADER];
      common, hwErr := 0, 0;
      ghost var i, kept := 0, [];
      BufferStart(b, |b| - 2, log, curIndex);
      while IsValidVariableHeader(b, v)
        invariant Valid() && mem[..] == b && log == old(log) && journal.writes == old(journal.writes) &&
          i <= |log| && v == Offset(log, i) && v + 2 <= |b|
        invariant Buffer(buffer, b, kept) && End(kept) <= Offset(log, i)
        invariant kept + CompactFrom(log, curIndex, i) == Compact(log, curIndex)
        invariant hwErr == HwErrBytes(kept) && common + hwErr == End(kept) - STORE_HEADER
        decreases |log| - i
      {
        Walk(b, |b| - 2, log, i);
        SameOffset(log, i, curIndex);
        var bytes := KeepBytes(v, cur, i, curIndex);
        KeepStep(b, buffer, log, curIndex, i, kept, bytes);
        if bytes != [] {
          if TestMask(AttributesAt(b, v), EFI_VARIABLE_HARDWARE_ERROR_RECORD) {
            hwErr := hwErr + |bytes|;
          } else {
            common := common + |bytes|;
          }
        }
        buffer := buffer + bytes;
        kept := kept + Keep(log, curIndex, i);
        v := GetNextVariablePtr(b, v);
        i := i + 1;
        Walk(b, |b| - 2, log, i);
      }
      Walk(b, |b| - 2, log, i);
      CompactEnd(log, curIndex);
      assert kept + [] == kept;
      blank := Rewrite(buffer, kept);
    }

    /** The end of the start-up: a reclaim if too little room is left. */
    method StartUp(threshold: nat)
      requires Valid()
      modifies mem, `log, `last, journal
      ensures Valid()
      ensures log == if mem.Length - 2 - End(old(log)) < threshold then Compact(old(log), -1) else old(log)
    {
      hide Image, Offset, Compact;
      SizeIs(mem[..], mem.Length - 2, log);
      if Size() - last < threshold {
        ghost var blank;
        var common, hwErr;
        common, hwErr, blank := Reclaim(-1, -1);
      }
    }

    /** Erase the store and write the buffer back. */
    method Rewrite(buffer: seq<u8>, ghost kept: seq<Record>) returns (ghost blank: seq<u8>)
      requires Valid() && Buffer(buffer, mem[..], kept) && End(kept) <= End(log)
      modifies mem, `log, `last, journal
      ensures Valid() && log == kept
      ensures Wiped(blank, mem.Length - 2)
      ensures journal.writes == old(journal.writes) + [Write(t, blank), Write(t, mem[..])]
    {
      hide Image, Framed, Offset, SizeOf;
      last := |buffer|;
      ghost var b := mem[..];
      SizeIs(b, |b| - 2, log);
      EraseStore();
      blank := mem[..];
      WriteStore(0, buffer);
      log := kept;
      RewriteImage(b, blank, |b| - 2, old(log), buffer, kept);
      HeaderKept(b, blank, |b| - 2, buffer, kept);
    }
  }

  lemma ScanStep(log: seq<Record>, k: Key, rt: bool, i: nat, best: int)
    requires i < |log| && -1 <= best < |log| && (best >= 0 ==> Hit(log[best], k, rt))
    ensures Scan(log, k, rt, i, best) == if Hit(log[i], k, rt) && Added(log[i]) then i
            else Scan(log, k, rt, i + 1, if Hit(log[i], k, rt) then i else best)
  {
  }

  lemma SizeIs(b: seq<u8>, size: u32, log: seq<Record>)
    requires Image(b, size, log)
    ensures |b| == size + 2 && size >= STORE_HEADER && Field32(b, 16) == size && Offset(log, 0) == STORE_HEADER
    ensures End(log) <= size
  {
  }

  lemma NameInside(b: seq<u8>, p: nat, r: Record)
    requires Sits(b, p, r)
    ensures 0 !in r.key.name && p + RECORD_HEADER <= GetVariableDataPtr(b, p) <= |b|
  {
    Fields(b, p, r);
  }

  /** The bytes of the name of the record at v. */
  lemma NameAt(b: seq<u8>, v: nat, r: Record)
    requires Sits(b, v, r)
    ensures forall j :: 0 <= j < NameSize(r.key) ==>
      v + RECORD_HEADER + j < |b| && b[v + RECORD_HEADER + j] == NameByte(r.key.name, j)
  {
    Parts(b, v, r);
    var x := b[v + RECORD_HEADER..v + RECORD_HEADER + NameSize(r.key)];
    forall j | 0 <= j < NameSize(r.key) ensures b[v + RECORD_HEADER + j] == NameByte(r.key.name, j) {
      assert x[j] == NameBytes(r.key.name)[j];
    }
  }

  lemma CharNotZero(name: seq<u16>, i: nat)
    requires 0 !in name && i < |name|
    ensures NameByte(name, 2 * i) != 0 || NameByte(name, 2 * i + 1) != 0
  {
    assert name[i] in name;
  }

  lemma NoLonger(a: seq<u16>, name: seq<u16>)
    requires 0 !in name && forall j :: 0 <= j < 2 * |a| + 2 ==> NameByte(a, j) == NameByte(name, j)
    ensures |name| <= |a|
  {
    assert NameByte(a, 2 * |a|) == 0 && NameByte(a, 2 * |a| + 1) == 0;
    if |a| < |name| { CharNotZero(name, |a|); }
  }

  lemma SameName(a: seq<u16>, name: seq<u16>)
    requires 0 !in a && 0 !in name && forall j :: 0 <= j < 2 * |name| + 2 ==> NameByte(a, j) == NameByte(name, j)
    ensures a == name
  {
    NoLonger(name, a);
    if |a| < |name| { NoLonger(a, name); }
    assert NameBytes(a) == NameBytes(name);
    NameInjective(a, name);
  }

  // ---- The bytes of a reclaim -------------------------------------------------------------------

  function HwErrBytes(log: seq<Record>): nat {
    if log == [] then 0
    else
      var r := log[|log| - 1];
      HwErrBytes(log[..|log| - 1]) + if HardwareError(r) then SizeOf(r) else 0
  }

  /** The reclaim buffer holds the header of b and the records kept so far. */
  predicate Buffer(buffer: seq<u8>, b: seq<u8>, kept: seq<Record>) {
    |b| >= STORE_HEADER && |buffer| == End(kept) && Framed(buffer, kept) && buffer[..STORE_HEADER] == b[..STORE_HEADER]
  }

  lemma RecordBytes(b: seq<u8>, v: nat, r: Record)
    requires Sits(b, v, r)
    ensures WellFormed(r) && v <= GetNextVariablePtr(b, v) <= |b| && b[v..GetNextVariablePtr(b, v)] == Encode(r)
  {
    Fields(b, v, r);
  }

  lemma BufferStart(b: seq<u8>, size: u32, log: seq<Record>, cur: int)
    requires Image(b, size, log)
    ensures Buffer(b[..STORE_HEADER], b, []) && Offset(log, 0) == STORE_HEADER == End([])
    ensures [] + CompactFrom(log, cur, 0) == Compact(log, cur)
  {
  }

  lemma SameOffset(log: seq<Record>, i: nat, j: int)
    requires i < |log| && -1 <= j < |log|
    ensures j >= 0 ==> (Offset(log, i) == Offset(log, j) <==> i == j)
  {
    if j >= 0 && i != j { OffsetGrows(log, if i < j then i else j, if i < j then j else i); }
  }

  lemma BufferAppend(buffer: seq<u8>, b: seq<u8>, kept: seq<Record>, r: Record)
    requires Buffer(buffer, b, kept) && WellFormed(r)
    ensures Buffer(buffer + Encode(r), b, kept + [r]) && End(kept + [r]) == End(kept) + SizeOf(r)
  {
    hide Encode;
    var buffer' := buffer + Encode(r);
    FramedKept(buffer, buffer', kept);
    assert buffer'[|buffer|..|buffer| + SizeOf(r)] == Encode(r);
    FramedAppend(buffer', kept, r);
  }

  lemma HwErrAppend(kept: seq<Record>, r: Record)
    ensures HwErrBytes(kept + [r]) == HwErrBytes(kept) + if HardwareError(r) then SizeOf(r) else 0
  {
    assert (kept + [r])[..|kept|] == kept;
  }

  /** One turn of the loop keeps the buffer, the totals and the rest of the compacted log in step. */
  lemma KeepStep(b: seq<u8>, buffer: seq<u8>, log: seq<Record>, cur: int, i: nat, kept: seq<Record>, bytes: seq<u8>)
    requires i < |log| && Buffer(buffer, b, kept) && End(kept) <= Offset(log, i)
    requires Keep(log, cur, i) == [] ==> bytes == []
    requires Keep(log, cur, i) != [] ==> WellFormed(Keep(log, cur, i)[0]) && bytes == Encode(Keep(log, cur, i)[0])
    ensures var kept' := kept + Keep(log, cur, i);
      && Buffer(buffer + bytes, b, kept') && End(kept') == End(kept) + |bytes| && End(kept') <= Offset(log, i + 1)
      && HwErrBytes(kept') == HwErrBytes(kept) + (if HardwareError(log[i]) then |bytes| else 0)
      && kept' + CompactFrom(log, cur, i + 1) == kept + CompactFrom(log, cur, i)
  {
    hide Buffer, Encode, HwErrBytes, End, CompactFrom, Keep, SizeOf;
    CompactSplit(log, cur, i, kept);
    OffsetNext(log, i);
    if Keep(log, cur, i) == [] {
      assert buffer + bytes == buffer && kept + [] == kept;
    } else {
      var r := Keep(log, cur, i)[0];
      KeepShape(log, cur, i);
      assert Keep(log, cur, i) == [r];
      BufferAppend(buffer, b, kept, r);
      HwErrAppend(kept, r);
    }
  }

  lemma OffsetNext(log: seq<Record>, i: nat)
    requires i < |log|
    ensures Offset(log, i + 1) == Offset(log, i) + SizeOf(log[i])
  {
  }

  lemma KeepShape(log: seq<Record>, cur: int, i: nat)
    requires i < |log| && Keep(log, cur, i) != []
    ensures |Keep(log, cur, i)| == 1 && SizeOf(Keep(log, cur, i)[0]) == SizeOf(log[i])
    ensures HardwareError(Keep(log, cur, i)[0]) <==> HardwareError(log[i])
  {
  }

  lemma CompactSplit(log: seq<Record>, cur: int, i: nat, kept: seq<Record>)
    requires i < |log|
    ensures kept + Keep(log, cur, i) + CompactFrom(log, cur, i + 1) == kept + CompactFrom(log, cur, i)
  {
  }

  lemma CompactEnd(log: seq<Record>, cur: int)
    ensures CompactFrom(log, cur, |log|) == []
  {
  }

  /** The store after erasing it and writing the buffer back. */
  lemma RewriteImage(b: seq<u8>, e: seq<u8>, size: u32, log: seq<Record>, buffer: seq<u8>, kept: seq<Record>)
    requires Image(b, size, log) && Buffer(buffer, b, kept) && End(kept) <= End(log) && |e| == |b|
    requires forall i :: 0 <= i < |b| ==> e[i] == if i < size then VAR_DEFAULT_VALUE else b[i]
    ensures Image(Overwrite(e, 0, buffer), size, kept)
  {
    hide Offset, Sits;
    var w := Overwrite(e, 0, buffer);
    assert w[0..|buffer|] == buffer;
    FramedKept(buffer, w, kept);
    forall j | 0 <= j < STORE_HEADER ensures w[j] == b[j] {
      assert w[0..|buffer|][j] == buffer[j] == buffer[..STORE_HEADER][j];
    }
    FieldCopy(b, w, 16);
  }

  lemma HeaderKept(b: seq<u8>, e: seq<u8>, size: u32, buffer: seq<u8>, kept: seq<Record>)
    requires Buffer(buffer, b, kept) && |buffer| <= |e| == |b|
    ensures Overwrite(e, 0, buffer)[..STORE_HEADER] == b[..STORE_HEADER]
  {
    var w := Overwrite(e, 0, buffer);
    assert w[0..|buffer|] == buffer;
    assert w[..STORE_HEADER] == w[0..|buffer|][..STORE_HEADER];
  }

  lemma FreshImage(e: seq<u8>, size: u32, template: seq<u8>)
    requires |template| == STORE_HEADER <= size && |e| == size + 2 && Field32(template, 16) == size && e[size] != 0xaa
    requires forall i :: 0 <= i < size ==> e[i] == VAR_DEFAULT_VALUE
    ensures Image(Overwrite(e, 0, template), size, []) && Overwrite(e, 0, template)[..STORE_HEADER] == template
  {
    var w := Overwrite(e, 0, template);
    assert w[0..STORE_HEADER] == template;
    forall j | 0 <= j < STORE_HEADER ensures w[j] == template[j] { assert w[0..STORE_HEADER][j] == template[j]; }
    assert w[16] == template[16] && w[17] == template[17] && w[18] == template[18] && w[19] == template[19];
  }
}
