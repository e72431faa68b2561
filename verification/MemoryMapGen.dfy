/** Building the memory map from the BIOS (E820) entries, and the descriptor array itself. */
module MemoryMapGen {
  import opened MemoryMap

  const EFI_MEMORY_UC: nat := 1
  const EFI_MEMORY_WB: nat := 8

  const INT15_E820_AddressRangeMemory: nat := 1
  const INT15_E820_AddressRangeACPI: nat := 3
  const INT15_E820_AddressRangeNVS: nat := 4

  /** A BIOS entry: a byte range and its type. */
  datatype Entry = Entry(base: nat, length: nat, kind: nat)

  function UseOf(kind: nat): Use {
    if kind == INT15_E820_AddressRangeMemory then Use(EfiConventionalMemory, EFI_MEMORY_WB)
    else if kind == INT15_E820_AddressRangeACPI then Use(EfiACPIReclaimMemory, EFI_MEMORY_WB)
    else if kind == INT15_E820_AddressRangeNVS then Use(EfiACPIMemoryNVS, EFI_MEMORY_UC)
    else Use(EfiReservedMemoryType, EFI_MEMORY_UC)
  }

  predicate Memory(e: Entry) { e.kind == INT15_E820_AddressRangeMemory }

  /** A memory entry that starts inside a page must reach the next one, or the source's length goes below zero. */
  predicate Roundable(e: Entry) {
    Memory(e) && e.base % PAGE != 0 ==> e.length + e.base % PAGE >= PAGE
  }

  /** Memory is rounded inwards, everything else outwards. */
  function Region(e: Entry): Descriptor
    requires Roundable(e)
  {
    var off := e.base % PAGE;
    if Memory(e) then
      if off != 0 then Descriptor(UseOf(e.kind), e.base / PAGE + 1, (e.length + off - PAGE) / PAGE)
      else Descriptor(UseOf(e.kind), e.base / PAGE, e.length / PAGE)
    else Descriptor(UseOf(e.kind), e.base / PAGE, (e.length + off + PAGE - 1) / PAGE)
  }

  predicate AllRoundable(entries: seq<Entry>) {
    forall i :: 0 <= i < |entries| ==> Roundable(entries[i])
  }

  /** The descriptors after the first n entries. */
  function Regions(entries: seq<Entry>, n: nat): seq<Descriptor>
    requires AllRoundable(entries) && n <= |entries|
  {
    if n == 0 then [] else Add(Regions(entries, n - 1), Region(entries[n - 1]))
  }

  /** The lowest byte address between 1 MB and 4 GB of a region that is not memory. */
  function Ceiling(entries: seq<Entry>, n: nat): nat
    requires AllRoundable(entries) && n <= |entries|
  {
    if n == 0 then 0xFFFF_FFFF
    else
      var c, e := Ceiling(entries, n - 1), entries[n - 1];
      var base := Region(e).start;
      if !Memory(e) && ONE_MB <= base < FOUR_GB && c > base * PAGE then base * PAGE else c
  }

  predicate AboveCeiling(d: Descriptor, ceiling: nat) {
    d.Free() && ONE_MB < d.start < FOUR_GB && d.start * PAGE >= ceiling
  }

  function Clip(desc: seq<Descriptor>, ceiling: nat): (r: seq<Descriptor>)
    ensures |r| == |desc|
  {
    seq(|desc|, i requires 0 <= i < |desc| =>
      if AboveCeiling(desc[i], ceiling) then desc[i].(use := Use(EfiReservedMemoryType, desc[i].use.attr)) else desc[i])
  }

  function Generate(entries: seq<Entry>): seq<Descriptor>
    requires AllRoundable(entries)
  {
    Clip(Regions(entries, |entries|), Ceiling(entries, |entries|))
  }

  // ---- What the map says ------------------------------------------------------------------------

  /** No byte belongs to two entries. */
  predicate ByteDisjoint(entries: seq<Entry>) {
    forall i, j :: 0 <= i < j < |entries| ==> ByteApart(entries[i], entries[j])
  }

  predicate ByteApart(e: Entry, f: Entry) {
    e.base + e.length <= f.base || f.base + f.length <= e.base
  }

  /** A memory region lies inside its entry. */
  lemma MemoryInside(e: Entry)
    requires Roundable(e) && Memory(e)
    ensures e.base <= Region(e).start * PAGE && Region(e).End() * PAGE <= e.base + e.length
  {
  }

  /** Any other region covers its entry and reaches less than a page beyond. */
  lemma OtherAround(e: Entry)
    requires !Memory(e)
    ensures Region(e).start * PAGE <= e.base < Region(e).start * PAGE + PAGE
    ensures e.base + e.length <= Region(e).End() * PAGE < e.base + e.length + PAGE
  {
  }

  /** Rounding never makes a memory region overlap another. */
  lemma RegionsApart(e: Entry, f: Entry)
    requires Roundable(e) && Roundable(f) && ByteApart(e, f) && Memory(e)
    ensures Apart(Region(e), Region(f))
  {
    MemoryInside(e);
    if Memory(f) { MemoryInside(f); } else { OtherAround(f); }
  }

  /** The descriptor is the region of one of the first n entries. */
  predicate FromEntry(d: Descriptor, entries: seq<Entry>, n: nat)
    requires AllRoundable(entries) && n <= |entries|
  {
    exists k :: 0 <= k < n && d == Region(entries[k])
  }

  /** Every descriptor is one entry's region: adding never carves, for free memory is never in the way. */
  predicate Faithful(desc: seq<Descriptor>, entries: seq<Entry>, n: nat)
    requires AllRoundable(entries) && n <= |entries|
  {
    forall i :: 0 <= i < |desc| ==> FromEntry(desc[i], entries, n)
  }

  lemma FreeApart(d: Descriptor, entries: seq<Entry>, n: nat)
    requires AllRoundable(entries) && ByteDisjoint(entries) && n < |entries| && FromEntry(d, entries, n) && d.Free()
    ensures Apart(d, Region(entries[n]))
  {
    var k :| 0 <= k < n && d == Region(entries[k]);
    assert ByteApart(entries[k], entries[n]);
    RegionsApart(entries[k], entries[n]);
  }

  lemma FaithfulStep(desc: seq<Descriptor>, entries: seq<Entry>, n: nat)
    requires AllRoundable(entries) && ByteDisjoint(entries) && n < |entries| && Faithful(desc, entries, n)
    ensures Faithful(Add(desc, Region(entries[n])), entries, n + 1)
  {
    hide Region, AddFrom;
    var r := Region(entries[n]);
    forall i | 0 <= i < |desc| && desc[i].Free() ensures Apart(desc[i], r) { FreeApart(desc[i], entries, n); }
    if r.pages > 0 { AddClear(desc, 0, |desc|, r); }
    forall i | 0 <= i < |desc| ensures FromEntry(desc[i], entries, n + 1) {
      var k :| 0 <= k < n && desc[i] == Region(entries[k]);
    }
  }

  lemma {:induction false} RegionsFaithful(entries: seq<Entry>, n: nat)
    requires AllRoundable(entries) && ByteDisjoint(entries) && n <= |entries|
    ensures Faithful(Regions(entries, n), entries, n)
  {
    hide Add, Region, FromEntry, ByteDisjoint;
    if n > 0 {
      RegionsFaithful(entries, n - 1);
      FaithfulStep(Regions(entries, n - 1), entries, n - 1);
    }
  }

  lemma FreeRegionApart(desc: seq<Descriptor>, entries: seq<Entry>, n: nat, i: nat)
    requires AllRoundable(entries) && ByteDisjoint(entries) && n < |entries| && Faithful(desc, entries, n)
    requires i < |desc| && (desc[i].Free() || Region(entries[n]).Free())
    ensures Apart(desc[i], Region(entries[n]))
  {
    assert FromEntry(desc[i], entries, n);
    if desc[i].Free() {
      FreeApart(desc[i], entries, n);
    } else {
      var k :| 0 <= k < n && desc[i] == Region(entries[k]);
      assert ByteApart(entries[k], entries[n]);
      RegionsApart(entries[n], entries[k]);
    }
  }

  lemma {:induction false} RegionsTidy(entries: seq<Entry>, n: nat)
    requires AllRoundable(entries) && ByteDisjoint(entries) && n <= |entries|
    ensures Tidy(Regions(entries, n))
  {
    hide Region, AddFrom, FromEntry;
    if n > 0 {
      RegionsTidy(entries, n - 1);
      RegionsFaithful(entries, n - 1);
      var desc, r := Regions(entries, n - 1), Region(entries[n - 1]);
      forall i | 0 <= i < |desc| && (desc[i].Free() || r.Free()) ensures Apart(desc[i], r) {
        FreeRegionApart(desc, entries, n - 1, i);
      }
      if r.pages > 0 { AddClear(desc, 0, |desc|, r); }
    }
  }

  /** In the finished map nothing overlaps free memory, so EfiAddMemoryDescriptor and FindSpace may work on it. */
  lemma GenerateTidy(entries: seq<Entry>)
    requires AllRoundable(entries) && ByteDisjoint(entries)
    ensures Tidy(Generate(entries))
  {
    hide Regions, Ceiling;
    RegionsTidy(entries, |entries|);
    var desc, clipped := Regions(entries, |entries|), Generate(entries);
    forall i, j | 0 <= i < j < |clipped| && (clipped[i].Free() || clipped[j].Free())
      ensures Apart(clipped[i], clipped[j])
    {
      assert Apart(desc[i], desc[j]);
    }
  }

  /** A page of free memory lies wholly inside one memory entry and touches no other entry. */
  lemma FreePagesAreMemory(entries: seq<Entry>, i: nat, p: nat) returns (k: nat)
    requires AllRoundable(entries) && ByteDisjoint(entries)
    requires i < |Generate(entries)| && Generate(entries)[i].Free() && Generate(entries)[i].Covers(p)
    ensures k < |entries| && Memory(entries[k])
    ensures entries[k].base <= p * PAGE && (p + 1) * PAGE <= entries[k].base + entries[k].length
    ensures forall j :: 0 <= j < |entries| && j != k ==>
      entries[j].base + entries[j].length <= p * PAGE || (p + 1) * PAGE <= entries[j].base
  {
    RegionsFaithful(entries, |entries|);
    var desc := Regions(entries, |entries|);
    assert FromEntry(desc[i], entries, |entries|);
    k :| 0 <= k < |entries| && desc[i] == Region(entries[k]);
    MemoryInside(entries[k]);
    forall j | 0 <= j < |entries| && j != k
      ensures entries[j].base + entries[j].length <= p * PAGE || (p + 1) * PAGE <= entries[j].base
    {
      assert ByteApart(entries[if j < k then j else k], entries[if j < k then k else j]);
    }
  }

  /** No free memory above 1 MB and below 4 GB starts at or above the ceiling. */
  lemma NoneAboveCeiling(entries: seq<Entry>, i: nat)
    requires AllRoundable(entries) && i < |Generate(entries)|
    ensures !AboveCeiling(Generate(entries)[i], Ceiling(entries, |entries|))
  {
  }

  /** The ceiling is the lowest such address, or the top of 4 GB. */
  lemma {:induction false} CeilingLowest(entries: seq<Entry>, n: nat, i: nat)
    requires AllRoundable(entries) && i < n <= |entries|
    requires !Memory(entries[i]) && ONE_MB <= Region(entries[i]).start < FOUR_GB
    ensures Ceiling(entries, n) <= Region(entries[i]).start * PAGE
  {
    if i < n - 1 { CeilingLowest(entries, n - 1, i); }
  }

  // ---- What every page is used for --------------------------------------------------------------

  /** Adding a region apart from the free ones appends it. */
  lemma RegionsAppend(entries: seq<Entry>, n: nat)
    requires AllRoundable(entries) && ByteDisjoint(entries) && 0 < n <= |entries|
    ensures Regions(entries, n) == Regions(entries, n - 1) +
      (if Region(entries[n - 1]).pages > 0 then [Region(entries[n - 1])] else [])
  {
    hide Region, AddFrom;
    var desc, r := Regions(entries, n - 1), Region(entries[n - 1]);
    RegionsFaithful(entries, n - 1);
    forall i | 0 <= i < |desc| && desc[i].Free() ensures Apart(desc[i], r) { FreeApart(desc[i], entries, n - 1); }
    if r.pages > 0 { AddClear(desc, 0, |desc|, r); }
  }

  /** Every region with a page is there. */
  lemma {:induction false} RegionsHave(entries: seq<Entry>, n: nat, k: nat) returns (i: nat)
    requires AllRoundable(entries) && ByteDisjoint(entries) && k < n <= |entries| && Region(entries[k]).pages > 0
    ensures i < |Regions(entries, n)| && Regions(entries, n)[i] == Region(entries[k])
  {
    hide Region, Regions;
    RegionsAppend(entries, n);
    if k == n - 1 { i := |Regions(entries, n - 1)|; } else { i := RegionsHave(entries, n - 1, k); }
  }

  /** The first byte of the first whole page of the entry. */
  function FirstPage(e: Entry): nat { (e.base + 0xFFF) / 0x1000 * 0x1000 }

  predicate WholePage(e: Entry, p: nat) { e.base <= p * 0x1000 && (p + 1) * 0x1000 <= e.base + e.length }

  predicate TouchedPage(e: Entry, p: nat) { e.base < (p + 1) * 0x1000 && p * 0x1000 < e.base + e.length }

  /** An entry that is not memory begins above 1 MB, in the page of this address or before it. */
  predicate OtherBelow(entries: seq<Entry>, address: nat) {
    exists j :: 0 <= j < |entries| && entries[j].kind != 1 && 0x10_0000 <= entries[j].base / 0x1000 * 0x1000 <= address
  }

  /** The use that entry j gives page p: memory only its whole pages, and above 1 MB and below 4 GB only when no other
      entry begins there below it; any other entry all pages it touches. */
  predicate Gives(entries: seq<Entry>, j: nat, p: nat, u: Use)
    requires j < |entries|
  {
    var e := entries[j];
    if e.kind == 1 then
      var reserved := 0x10_0000 < FirstPage(e) < 0x1_0000_0000 && OtherBelow(entries, FirstPage(e));
      WholePage(e, p) && u == if reserved then Use(0, 8) else Use(7, 8)
    else
      TouchedPage(e, p) && u == if e.kind == 3 then Use(9, 8) else if e.kind == 4 then Use(10, 1) else Use(0, 1)
  }

  lemma RegionMemory(e: Entry, p: nat)
    requires Roundable(e) && e.kind == 1
    ensures Region(e).use == Use(7, 8) && Region(e).start * 0x1000 == FirstPage(e)
    ensures Region(e).Covers(p) <==> WholePage(e, p)
  {
  }

  lemma RegionOther(e: Entry, p: nat)
    requires e.kind != 1
    ensures Region(e).use == if e.kind == 3 then Use(9, 8) else if e.kind == 4 then Use(10, 1) else Use(0, 1)
    ensures Region(e).start * 0x1000 == e.base / 0x1000 * 0x1000
    ensures Region(e).Covers(p) <==> TouchedPage(e, p)
  {
  }

  lemma {:induction false} CeilingIs(entries: seq<Entry>, n: nat, address: nat)
    requires AllRoundable(entries) && n <= |entries| && address < 0xFFFF_FFFF
    ensures Ceiling(entries, n) <= address <==>
      exists j :: 0 <= j < n && entries[j].kind != 1 && 0x10_0000 <= entries[j].base / 0x1000 * 0x1000 <= address
  {
    if n > 0 {
      var e := entries[n - 1];
      CeilingIs(entries, n - 1, address);
      if e.kind != 1 { RegionOther(e, 0); }
    }
  }

  /** What becomes of one region in the second loop. */
  lemma ClippedUse(entries: seq<Entry>, k: nat, p: nat)
    requires AllRoundable(entries) && k < |entries|
    ensures var d := Region(entries[k]);
      var u := if AboveCeiling(d, Ceiling(entries, |entries|)) then Use(EfiReservedMemoryType, d.use.attr) else d.use;
      d.Covers(p) <==> Gives(entries, k, p, u)
  {
    hide Region, Ceiling;
    var e := entries[k];
    if e.kind == 1 {
      RegionMemory(e, p);
      if FirstPage(e) < 0x1_0000_0000 {
        assert FirstPage(e) < 0xFFFF_FFFF;
        CeilingIs(entries, |entries|, FirstPage(e));
      }
    } else {
      RegionOther(e, p);
    }
  }

  lemma GivesOnce(entries: seq<Entry>, k: nat, p: nat, u: Use, u': Use)
    requires k < |entries| && Gives(entries, k, p, u) && Gives(entries, k, p, u')
    ensures u == u'
  {
  }

  /** No byte is in two entries, and memory that starts inside a page reaches the next one. */
  predicate Regular(entries: seq<Entry>) {
    && (forall i, j :: 0 <= i < |entries| && 0 <= j < |entries| && i != j ==>
          || entries[i].base + entries[i].length <= entries[j].base
          || entries[j].base + entries[j].length <= entries[i].base)
    && forall i :: 0 <= i < |entries| ==>
         var Entry(base, length, kind) := entries[i];
         kind == 1 && base % 0x1000 > 0 ==> base / 0x1000 * 0x1000 + 0x1000 <= base + length
  }

  lemma RegularIs(entries: seq<Entry>)
    requires Regular(entries)
    ensures AllRoundable(entries) && ByteDisjoint(entries)
  {
    forall i | 0 <= i < |entries| ensures Roundable(entries[i]) {}
  }

  /** The finished map says of every page exactly what the entries give it. */
  lemma GeneratedUses(entries: seq<Entry>, p: nat, u: Use)
    requires Regular(entries)
    ensures AllRoundable(entries)
    ensures Maps(Generate(entries), p, u) <==> exists j :: 0 <= j < |entries| && Gives(entries, j, p, u)
  {
    RegularIs(entries);
    PageUses(entries, p, u);
  }

  lemma PageUses(entries: seq<Entry>, p: nat, u: Use)
    requires AllRoundable(entries) && ByteDisjoint(entries)
    ensures Maps(Generate(entries), p, u) <==> exists j :: 0 <= j < |entries| && Gives(entries, j, p, u)
  {
    hide Region, Ceiling, Regions, Gives, AboveCeiling;
    var desc, made := Regions(entries, |entries|), Generate(entries);
    RegionsFaithful(entries, |entries|);
    if Maps(made, p, u) {
      var i :| 0 <= i < |made| && made[i].Covers(p) && made[i].use == u;
      assert FromEntry(desc[i], entries, |entries|);
      var k :| 0 <= k < |entries| && desc[i] == Region(entries[k]);
      ClippedUse(entries, k, p);
    }
    if j :| 0 <= j < |entries| && Gives(entries, j, p, u) {
      var d := Region(entries[j]);
      ClippedUse(entries, j, p);
      GivenCovers(entries, j, p, u);
      var i := RegionsHave(entries, |entries|, j);
      assert made[i].Covers(p);
      GivesOnce(entries, j, p, u, made[i].use);
    }
  }

  lemma GivenCovers(entries: seq<Entry>, j: nat, p: nat, u: Use)
    requires AllRoundable(entries) && j < |entries| && Gives(entries, j, p, u)
    ensures Region(entries[j]).Covers(p)
  {
    hide Region;
    if entries[j].kind == 1 { RegionMemory(entries[j], p); } else { RegionOther(entries[j], p); }
  }

  // ---- The descriptor array ---------------------------------------------------------------------

  class DescriptorTable {
    /** The entries in use: Desc[0..*NoDesc]. */
    var desc: seq<Descriptor>

    method EfiAddMemoryDescriptor(r: Descriptor)
      modifies this
      ensures desc == Add(old(desc), r)
    {
      if r.pages == 0 { return; }
      var count := |desc|;
      var i := 0;
      while i < count
        invariant i <= count <= |desc| && AddFrom(desc, i, count, r) == AddFrom(old(desc), 0, count, r)
      {
        var d := desc[i];
        ghost var whole := desc;
        if d.use.kind == EfiConventionalMemory {
          if d.start < r.start && d.pages >= r.start - d.start + r.pages {
            var temp := r.start - d.start + r.pages;
            if d.pages > temp {
              desc := desc + [Descriptor(d.use, r.start + r.pages, d.pages - temp)];
            }
            desc := desc[i := d.(pages := temp - r.pages)];
            assert desc == whole[i := d.(pages := r.start - d.start)] + Carve(d, r).rest;
          }
          if desc[i].start == r.start && desc[i].pages == r.pages {
            desc := desc[i := desc[i].(use := r.use)];
            return;
          }
          if desc[i].start == r.start && desc[i].pages > r.pages {
            desc := desc[i := Descriptor(d.use, d.start + r.pages, d.pages - r.pages)];
          }
        }
        i := i + 1;
      }
      desc := desc + [r];
    }

    method FindSpace(n: nat, u: Use) returns (addr: nat)
      modifies this
      ensures desc == Space(old(desc), n, u).0 && addr == Space(old(desc), n, u).1
    {
      var best := -1;
      var highest, i := 0, 0;
      while i < |desc|
        invariant desc == old(desc) && i <= |desc| && -1 <= best < |desc|
        invariant highest == if best < 0 then 0 else desc[best].start
        invariant Pick(desc, n, i, best) == Pick(desc, n, 0, -1) && (best >= 0 ==> desc[best].start > 0)
      {
        var d := desc[i];
        if d.start + d.pages > ONE_MB {
          if d.use.kind == EfiConventionalMemory && d.pages >= n && d.start > highest && d.start + d.pages <= FOUR_GB {
            highest, best := d.start, i;
          }
          if Runtime(d.use) { break; }
        }
        i := i + 1;
      }
      if highest == 0 { return 0; }
      var d := desc[best];
      addr := highest + (d.pages - n);
      if d.pages != n {
        desc := desc[best := d.(pages := d.pages - n)] + [Descriptor(u, addr, n)];
      } else {
        desc := desc[best := d.(use := u)];
      }
    }

    method GenMemoryMap(entries: seq<Entry>)
      requires desc == [] && AllRoundable(entries)
      modifies this
      ensures desc == Generate(entries)
    {
      var ceiling, i := 0xFFFF_FFFF, 0;
      while i < |entries|
        invariant i <= |entries| && desc == Regions(entries, i) && ceiling == Ceiling(entries, i)
      {
        var e := entries[i];
        var r := Region(e);
        if r.use.kind != EfiConventionalMemory {
          if r.start * PAGE >= 0x10_0000 && r.start * PAGE < 0x1_0000_0000 {
            if ceiling > r.start * PAGE { ceiling := r.start * PAGE; }
          }
        }
        EfiAddMemoryDescriptor(r);
        i := i + 1;
      }
      ClipAbove(ceiling);
    }

    /** GenMemoryMap's second loop. */
    method ClipAbove(ceiling: nat)
      modifies this
      ensures desc == Clip(old(desc), ceiling)
    {
      var j := 0;
      while j < |desc|
        invariant j <= |desc| == |old(desc)|
        invariant forall k :: 0 <= k < |desc| ==> desc[k] == if k < j then Clip(old(desc), ceiling)[k] else old(desc)[k]
      {
        var d := desc[j];
        if d.use.kind == EfiConventionalMemory && d.start * PAGE > 0x10_0000 && d.start * PAGE < 0x1_0000_0000 {
          if d.start * PAGE >= ceiling {
            desc := desc[j := d.(use := Use(EfiReservedMemoryType, d.use.attr))];
          }
        }
        j := j + 1;
      }
    }
  }
}
