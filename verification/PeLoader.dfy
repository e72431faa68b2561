/** The loader's relocation of one image, in place. */
module PeLoader {
  import opened EfiTypes
  import opened Words
  import opened MemoryMap
  import opened MemoryMapGen
  import opened PeRelocation

  /** The log after these sites: each field's new value, aligned to its width. */
  function LogAll(log: seq<u8>, pos: nat, mem: seq<u8>, sites: seq<Site>, adjust: nat): seq<u8>
    requires AllFit(sites, |mem|) && LogEnd(sites, pos) <= |log|
    decreases |sites|
  {
    if sites == [] then log
    else
      var s, mem' := sites[0], Patch(mem, sites[0], adjust);
      LogGrows(sites[1..], LogAt(s.kind, pos) + Width(s.kind));
      var at := LogAt(s.kind, pos);
      LogAll(Overwrite(log, at, Field(mem', s)), at + Width(s.kind), mem', sites[1..], adjust)
  }

  lemma {:induction false} LogGrows(sites: seq<Site>, pos: nat)
    ensures pos <= LogEnd(sites, pos)
    decreases |sites|
  {
    if sites != [] { LogGrows(sites[1..], LogAt(sites[0].kind, pos) + Width(sites[0].kind)); }
  }

  /** Writing the log from pos on leaves what stands before. */
  lemma {:induction false} LogKeeps(log: seq<u8>, pos: nat, mem: seq<u8>, sites: seq<Site>, adjust: nat)
    requires AllFit(sites, |mem|) && LogEnd(sites, pos) <= |log|
    ensures |LogAll(log, pos, mem, sites, adjust)| == |log|
    ensures pos <= |log| && LogAll(log, pos, mem, sites, adjust)[..pos] == log[..pos]
    decreases |sites|
  {
    hide Patch;
    LogGrows(sites, pos);
    if sites != [] {
      var s, mem' := sites[0], Patch(mem, sites[0], adjust);
      var at := LogAt(s.kind, pos);
      LogGrows(sites[1..], at + Width(s.kind));
      var log' := Overwrite(log, at, Field(mem', s));
      LogKeeps(log', at + Width(s.kind), mem', sites[1..], adjust);
      assert log'[..at + Width(s.kind)][..pos] == log[..pos];
      assert LogAll(log, pos, mem, sites, adjust)[..at + Width(s.kind)][..pos] == log'[..at + Width(s.kind)][..pos];
    }
  }

  /** A value of this type is logged at q, the next place behind before where a field of its width may stand. */
  predicate LogSpot(kind: nat, before: nat, q: nat, after: nat) {
    && before <= q < before + (if kind == 3 then 4 else if kind == 10 then 8 else 1)
    && (kind == 3 ==> q % 4 == 0) && (kind == 10 ==> q % 8 == 0) && q + FieldBytesOf(kind) == after
  }

  lemma Aligned4(v: nat)
    ensures v <= Align(v, 4) < v + 4 && Align(v, 4) % 4 == 0
  {
  }

  lemma Aligned8(v: nat)
    ensures v <= Align(v, 8) < v + 8 && Align(v, 8) % 8 == 0
  {
  }

  lemma SpotOf(kind: nat, before: nat)
    ensures FieldBytesOf(kind) == Width(kind)
    ensures LogSpot(kind, before, LogAt(kind, before), LogAt(kind, before) + Width(kind))
  {
    hide Align;
    Aligned4(before);
    Aligned8(before);
  }

  lemma {:induction false} LogEndMore(sites: seq<Site>, s: Site, pos: nat)
    ensures LogEnd(sites + [s], pos) == LogAt(s.kind, LogEnd(sites, pos)) + Width(s.kind)
    decreases |sites|
  {
    if sites == [] {
      assert LogEnd([s][1..], LogAt(s.kind, pos) + Width(s.kind)) == LogAt(s.kind, pos) + Width(s.kind);
    } else {
      assert (sites + [s])[1..] == sites[1..] + [s];
      LogEndMore(sites[1..], s, LogAt(sites[0].kind, pos) + Width(sites[0].kind));
    }
  }

  /** Where the value of site i is logged: behind those of the sites before it. */
  lemma LogPlace(sites: seq<Site>, pos: nat, i: nat)
    requires i < |sites|
    ensures var kind, before := sites[i].kind, LogEnd(sites[..i], pos);
      LogSpot(kind, before, LogAt(kind, before), LogEnd(sites[..i + 1], pos))
  {
    hide LogSpot, LogAt;
    assert sites[..i + 1] == sites[..i] + [sites[i]];
    LogEndMore(sites[..i], sites[i], pos);
    SpotOf(sites[i].kind, LogEnd(sites[..i], pos));
  }

  lemma LogAllStep(log: seq<u8>, pos: nat, mem: seq<u8>, sites: seq<Site>, adjust: nat)
    requires AllFit(sites, |mem|) && LogEnd(sites, pos) <= |log| && sites != []
    ensures var s, mem' := sites[0], Patch(mem, sites[0], adjust);
      var at := LogAt(s.kind, pos);
      && at + Width(s.kind) <= LogEnd(sites[1..], at + Width(s.kind)) == LogEnd(sites, pos)
      && AllFit(sites[1..], |mem'|) && PatchAll(mem, sites, adjust) == PatchAll(mem', sites[1..], adjust)
      && LogAll(log, pos, mem, sites, adjust) ==
         LogAll(Overwrite(log, at, Field(mem', s)), at + Width(s.kind), mem', sites[1..], adjust)
  {
    LogGrows(sites[1..], LogAt(sites[0].kind, pos) + Width(sites[0].kind));
  }

  lemma LogHoldsFirst(log: seq<u8>, pos: nat, mem: seq<u8>, sites: seq<Site>, adjust: nat)
    requires AllFit(sites, |mem|) && AllApart(sites) && LogEnd(sites, pos) <= |log| && sites != []
    ensures var at, w := LogAt(sites[0].kind, pos), Width(sites[0].kind);
      && at + w <= |LogAll(log, pos, mem, sites, adjust)|
      && LogAll(log, pos, mem, sites, adjust)[at..at + w] == Field(PatchAll(mem, sites, adjust), sites[0])
  {
    hide LogAll, PatchAll, LogEnd, LogAt, Width, AllApart, Patch;
    var s, mem' := sites[0], Patch(mem, sites[0], adjust);
    var at := LogAt(s.kind, pos);
    LogAllStep(log, pos, mem, sites, adjust);
    var log' := Overwrite(log, at, Field(mem', s));
    LogKeeps(log', at + Width(s.kind), mem', sites[1..], adjust);
    var all := LogAll(log, pos, mem, sites, adjust);
    assert all[..at + Width(s.kind)][at..] == all[at..at + Width(s.kind)];
    assert log'[..at + Width(s.kind)][at..] == log'[at..at + Width(s.kind)];
    FirstStays(mem, sites, adjust);
  }

  lemma {:induction false} LogHoldsAt(log: seq<u8>, pos: nat, mem: seq<u8>, sites: seq<Site>, adjust: nat, i: nat)
    requires AllFit(sites, |mem|) && AllApart(sites) && LogEnd(sites, pos) <= |log| && i < |sites|
    ensures var q, w := LogAt(sites[i].kind, LogEnd(sites[..i], pos)), Width(sites[i].kind);
      && q + w <= |LogAll(log, pos, mem, sites, adjust)|
      && LogAll(log, pos, mem, sites, adjust)[q..q + w] == Field(PatchAll(mem, sites, adjust), sites[i])
    decreases |sites|
  {
    if i == 0 {
      LogHoldsFirst(log, pos, mem, sites, adjust);
    } else {
      LogHoldsRest(log, pos, mem, sites, adjust, i);
    }
  }

  lemma {:induction false} LogHoldsRest(log: seq<u8>, pos: nat, mem: seq<u8>, sites: seq<Site>, adjust: nat, i: nat)
    requires AllFit(sites, |mem|) && AllApart(sites) && LogEnd(sites, pos) <= |log| && 0 < i < |sites|
    ensures var q, w := LogAt(sites[i].kind, LogEnd(sites[..i], pos)), Width(sites[i].kind);
      && q + w <= |LogAll(log, pos, mem, sites, adjust)|
      && LogAll(log, pos, mem, sites, adjust)[q..q + w] == Field(PatchAll(mem, sites, adjust), sites[i])
    decreases |sites|, 0
  {
    hide LogAll, PatchAll, LogAt, Width, AllApart, Patch, Field;
    var s, mem' := sites[0], Patch(mem, sites[0], adjust);
    var at := LogAt(s.kind, pos);
    LogAllStep(log, pos, mem, sites, adjust);
    RestApart(sites);
    LogHoldsAt(Overwrite(log, at, Field(mem', s)), at + Width(s.kind), mem', sites[1..], adjust, i - 1);
    assert sites[..i][1..] == sites[1..][..i - 1] && sites[..i][0] == s;
  }

  /** The log holds, for each of the disjoint sites, the value that its field has in the relocated image. */
  lemma LogHolds(log: seq<u8>, pos: nat, mem: seq<u8>, sites: seq<Site>, adjust: nat, i: nat) returns (q: nat)
    requires SitesRegular(sites, |mem|) && LogEnd(sites, pos) <= |log| && i < |sites|
    ensures AllFit(sites, |mem|)
    ensures var kind, at, w := sites[i].kind, sites[i].at, FieldBytesOf(sites[i].kind);
      && LogSpot(kind, LogEnd(sites[..i], pos), q, LogEnd(sites[..i + 1], pos))
      && q + w <= |LogAll(log, pos, mem, sites, adjust)| && at + w <= |mem|
      && LogAll(log, pos, mem, sites, adjust)[q..q + w] == PatchAll(mem, sites, adjust)[at..at + w]
  {
    SitesRegularIs(sites, |mem|);
    hide LogAll, PatchAll, LogEnd, LogAt, AllApart, Patch, LogSpot, SitesRegular;
    LogPlace(sites, pos, i);
    SpotOf(sites[i].kind, 0);
    LogHoldsAt(log, pos, mem, sites, adjust, i);
    q := LogAt(sites[i].kind, LogEnd(sites[..i], pos));
  }

  lemma RestApart(sites: seq<Site>)
    requires sites != [] && AllApart(sites)
    ensures AllApart(sites[1..])
  {
    forall i, j | 0 <= i < j < |sites[1..]| ensures SitesApart(sites[1..][i], sites[1..][j]) {
      assert SitesApart(sites[i + 1], sites[j + 1]);
    }
  }

  /** The first field keeps what the first entry makes of it. */
  lemma FirstStays(mem: seq<u8>, sites: seq<Site>, adjust: nat)
    requires sites != [] && AllFit(sites, |mem|) && AllApart(sites)
    ensures Field(PatchAll(mem, sites, adjust), sites[0]) == Field(Patch(mem, sites[0], adjust), sites[0])
  {
    forall k | 0 <= k < |sites[1..]| ensures SitesApart(sites[1..][k], sites[0]) {
      assert SitesApart(sites[0], sites[k + 1]);
    }
    FieldUnchanged(Patch(mem, sites[0], adjust), sites[1..], adjust, sites[0]);
  }

  function Max(a: nat, b: nat): nat { if a > b then a else b }

  /** Nothing of a directory is read at or behind this offset. */
  function Reach(mem: seq<u8>, p: nat, end: nat): nat
    decreases if p < end then end - p else 0
  {
    if p >= end then p
    else if p + 8 > |mem| then p + 8
    else
      var size := Field32(mem, p + 4);
      if size == 0 || p + size > |mem| - 1 then p + 8
      else Max(BlockReach(p + 8, p + size), Reach(mem, p + size, end))
  }

  /** Where the last entry read of a block ends. */
  function BlockReach(r: nat, stop: nat): nat { if r < stop then stop + (stop - r) % 2 else r }

  lemma ReachStep(r: nat, stop: nat)
    requires r < stop
    ensures r + 2 <= BlockReach(r, stop) == BlockReach(r + 2, stop)
  {
  }

  /** The sites lie inside the image and outside the bytes of the directory itself. */
  predicate Sane(sites: seq<Site>, size: nat, lo: nat, hi: nat) {
    AllFit(sites, size) && forall i :: 0 <= i < |sites| ==>
      sites[i].at + Width(sites[i].kind) <= lo || hi <= sites[i].at
  }

  predicate Same(b: seq<u8>, b': seq<u8>, lo: nat, hi: nat) {
    |b| == |b'| && forall i :: lo <= i < hi && i < |b| ==> b[i] == b'[i]
  }

  lemma PatchKeeps(m: seq<u8>, b: seq<u8>, s: Site, adjust: nat, lo: nat, hi: nat)
    requires Same(m, b, lo, hi) && Fits(s, |b|) && (s.at + Width(s.kind) <= lo || hi <= s.at)
    ensures Same(m, Patch(b, s, adjust), lo, hi)
  {
    var b' := Patch(b, s, adjust);
    forall i | lo <= i < hi && i < |b| ensures b'[i] == b[i] {}
  }

  lemma SameFields(b: seq<u8>, b': seq<u8>, lo: nat, hi: nat, p: nat)
    requires Same(b, b', lo, hi) && lo <= p
    ensures p + 2 <= hi && p + 2 <= |b| ==> Field16(b, p) == Field16(b', p)
    ensures p + 4 <= hi && p + 4 <= |b| ==> Field32(b, p) == Field32(b', p)
  {
    if p + 2 <= hi && p + 2 <= |b| { assert b[p] == b'[p] && b[p + 1] == b'[p + 1]; }
    if p + 4 <= hi && p + 4 <= |b| { assert b[p + 2] == b'[p + 2] && b[p + 3] == b'[p + 3]; }
  }

  /** What is still to come: the remaining sites take the image and the log to their final contents. */
  ghost predicate Pending(mem: seq<u8>, log: seq<u8>, pos: nat, rest: seq<Site>, adjust: nat, mem': seq<u8>,
                          log': seq<u8>) {
    && AllFit(rest, |mem|) && LogEnd(rest, pos) <= |log|
    && PatchAll(mem, rest, adjust) == mem' && LogAll(log, pos, mem, rest, adjust) == log'
  }

  lemma PendingStep(mem: seq<u8>, log: seq<u8>, pos: nat, rest: seq<Site>, adjust: nat, mem': seq<u8>, log': seq<u8>)
    requires Pending(mem, log, pos, rest, adjust, mem', log') && rest != []
    ensures var s, b, at := rest[0], Patch(mem, rest[0], adjust), LogAt(rest[0].kind, pos);
      && at + Width(s.kind) <= |log|
      && Pending(b, Overwrite(log, at, Field(b, s)), at + Width(s.kind), rest[1..], adjust, mem', log')
  {
    LogGrows(rest[1..], LogAt(rest[0].kind, pos) + Width(rest[0].kind));
  }

  class LoadedImage {
    /** The image's memory, ImageBase to ImageEof. */
    const mem: array<u8>
    var imageBasePage: int
    var noPages: nat

    /** One relocation entry: add to the field, and log its new value. */
    method Fixup(s: Site, adjust: nat, log: array<u8>, pos: nat) returns (pos': nat)
      requires Fits(s, mem.Length) && LogAt(s.kind, pos) + Width(s.kind) <= log.Length && log != mem && Known(s.kind)
      modifies mem, log
      ensures mem[..] == Patch(old(mem[..]), s, adjust)
      ensures log[..] == Overwrite(old(log[..]), LogAt(s.kind, pos), Field(mem[..], s))
      ensures pos' == LogAt(s.kind, pos) + Width(s.kind)
    {
      hide PatchField, Increment;
      IncrementFits(s.kind, adjust);
      PatchHere(mem[..], s, adjust);
      var x := PatchField(mem[s.at..s.at + Width(s.kind)], Increment(s.kind, adjust));
      WriteAt(mem, s.at, x);
      pos' := LogAt(s.kind, pos);
      WriteAt(log, pos', x);
      pos' := pos' + Width(s.kind);
    }

    /** Store a field. */
    static method WriteAt(a: array<u8>, p: nat, x: seq<u8>)
      requires p + |x| <= a.Length
      modifies a
      ensures a[..] == Overwrite(old(a[..]), p, x)
    {
      forall i | 0 <= i < |x| { a[p + i] := x[i]; }
    }

    /** The entries of one block. */
    method Block(r0: nat, stop: nat, base: nat, adjust: nat, log: array<u8>, pos: nat,
                 ghost m: seq<u8>, ghost lo: nat, ghost hi: nat, ghost after: seq<Site>,
                 ghost mem': seq<u8>, ghost log': seq<u8>)
      returns (pos': nat)
      requires log != mem && stop < mem.Length == |m| && Same(m, mem[..], lo, hi)
      requires lo <= r0 && BlockReach(r0, stop) <= hi
      requires Sane(BlockSites(m, r0, stop, base) + after, |m|, lo, hi) && AllKnown(BlockSites(m, r0, stop, base))
      requires Pending(mem[..], log[..], pos, BlockSites(m, r0, stop, base) + after, adjust, mem', log')
      modifies mem, log
      ensures Same(m, mem[..], lo, hi) && Pending(mem[..], log[..], pos', after, adjust, mem', log')
    {
      hide Pending, Patch, Field, Overwrite, LogAt, Known, BlockReach;
      var r := r0;
      pos' := pos;
      while r < stop
        invariant r0 <= r && BlockReach(r, stop) <= hi && Same(m, mem[..], lo, hi)
        invariant AllKnown(BlockSites(m, r, stop, base))
        invariant Sane(BlockSites(m, r, stop, base) + after, |m|, lo, hi)
        invariant Pending(mem[..], log[..], pos', BlockSites(m, r, stop, base) + after, adjust, mem', log')
        decreases stop - r
      {
        ReachStep(r, stop);
        SameFields(m, mem[..], lo, hi, r);
        var s := SiteOf(Field16(mem[..], r), base);
        ghost var rest := BlockSites(m, r, stop, base) + after;
        FirstSite(m, r, stop, base, after);
        PendingStep(mem[..], log[..], pos', rest, adjust, mem', log');
        PatchKeeps(m, mem[..], s, adjust, lo, hi);
        pos' := Fixup(s, adjust, log, pos');
        r := r + 2;
      }
      assert [] + after == after;
    }

    /** The blocks of the directory from p on; false when one runs past the image. */
    method Blocks(p0: nat, end: nat, adjust: nat, log: array<u8>, ghost m: seq<u8>, ghost lo: nat, ghost mem': seq<u8>,
                  ghost log': seq<u8>)
      returns (ok: bool)
      requires log != mem && mem.Length == |m| && lo <= p0 && mem[..] == m && !Directory(m, p0, end).Undefined?
      requires Sane(Directory(m, p0, end).sites, |m|, lo, Reach(m, p0, end))
      requires Pending(m, log[..], 0, Directory(m, p0, end).sites, adjust, mem', log')
      modifies mem, log
      ensures mem[..] == mem' && log[..] == log' && (ok <==> Directory(m, p0, end).Done?)
    {
      hide Pending, Patch, Field, Overwrite, LogAt, Known, BlockSites, AllKnown, AllFit, Directory, Reach;
      DirectoryEnd(m, p0, end);
      ghost var hi := Reach(m, p0, end);
      var p, pos := p0, 0;
      while p < end
        invariant lo <= p && Same(m, mem[..], lo, hi) && Reach(m, p, end) <= hi && !Directory(m, p, end).Undefined?
        invariant Sane(Directory(m, p, end).sites, |m|, lo, hi)
        invariant Pending(mem[..], log[..], pos, Directory(m, p, end).sites, adjust, mem', log')
        invariant Directory(m, p, end).Done? <==> Directory(m, p0, end).Done?
        decreases end - p
      {
        DirectoryStep(m, p, end);
        SameFields(m, mem[..], lo, hi, p);
        SameFields(m, mem[..], lo, hi, p + 4);
        var base, size := Field32(mem[..], p), Field32(mem[..], p + 4);
        if p + size > mem.Length - 1 {
          PendingDone(mem[..], log[..], pos, adjust, mem', log');
          return false;
        }
        ghost var after := Directory(m, p + size, end).sites;
        SaneSuffix(BlockSites(m, p + 8, p + size, base), after, |m|, lo, hi);
        pos := Block(p + 8, p + size, base, adjust, log, pos, m, lo, hi, after, mem', log');
        p := p + size;
      }
      DirectoryEnd(m, p, end);
      PendingDone(mem[..], log[..], pos, adjust, mem', log');
      ok := true;
    }

    /** Relocate the image by adjust: find room for the log, patch every site, and let the image begin at the log. */
    method LoadPeRelocate(va: nat, size: nat, adjust: nat, unit: nat, table: DescriptorTable)
      returns (status: Status, log: array<u8>)
      requires !Directory(mem[..], va, va + size).Undefined?
      requires Sane(Directory(mem[..], va, va + size).sites, mem.Length, va, Reach(mem[..], va, va + size))
      requires LogEnd(Directory(mem[..], va, va + size).sites, 0) <= SizeToPages(size / 2 * unit) * PAGE
      modifies this, mem, table
      ensures fresh(log)
      ensures va + size >= mem.Length ==>
        status == EFI_LOAD_ERROR && mem[..] == old(mem[..]) && table.desc == old(table.desc)
      ensures var n := SizeToPages(size / 2 * unit);
        var (desc, addr) := Space(old(table.desc), n, Use(EfiRuntimeServicesData, EFI_MEMORY_WB));
        var d := Directory(old(mem[..]), va, va + size);
        va + size < mem.Length ==>
          && table.desc == desc
          && (addr == 0 ==> status == EFI_OUT_OF_RESOURCES && mem[..] == old(mem[..]))
          && (addr != 0 ==>
                && mem[..] == PatchAll(old(mem[..]), d.sites, adjust)
                && status == (if d.Done? then EFI_SUCCESS else EFI_LOAD_ERROR)
                && (exists l :: |l| == n * PAGE && log[..] == LogAll(l, 0, old(mem[..]), d.sites, adjust))
                && (d.Done? ==> noPages == old(noPages) + n && imageBasePage == old(imageBasePage) - n))
    {
      hide Directory, Reach, LogEnd, PatchAll, LogAll, Space, Sane, SizeToPages;
      log := new u8[0];
      if va >= mem.Length || va + size >= mem.Length { return EFI_LOAD_ERROR, log; }
      var n := SizeToPages(size / 2 * unit);
      var addr := table.FindSpace(n, Use(EfiRuntimeServicesData, EFI_MEMORY_WB));
      if addr == 0 { return EFI_OUT_OF_RESOURCES, log; }
      log := new u8[n * PAGE];
      ghost var m := mem[..];
      ghost var sites := Directory(m, va, va + size).sites;
      PendingStart(m, log[..], sites, adjust, va, Reach(m, va, va + size));
      var ok := Blocks(va, va + size, adjust, log, m, va, PatchAll(m, sites, adjust),
        LogAll(log[..], 0, m, sites, adjust));
      if !ok { return EFI_LOAD_ERROR, log; }
      noPages := noPages + n;
      imageBasePage := imageBasePage - n;
      status := EFI_SUCCESS;
    }
  }

  // ---- What may be loaded -----------------------------------------------------------------------

  lemma {:induction false} PrintedReach(mem: seq<u8>, p: nat, blocks: seq<RelocBlock>)
    requires BlocksOk(blocks, |mem|) && StandsAt(mem, p, PrintDirectory(blocks, |mem|))
    requires p + |PrintDirectory(blocks, |mem|)| < |mem|
    ensures Reach(mem, p, p + |PrintDirectory(blocks, |mem|)|) == p + |PrintDirectory(blocks, |mem|)|
    decreases |blocks|
  {
    hide PrintEntries, PrintBlock, StandsAt, Field32, EntriesOk;
    if blocks != [] {
      var b, rest := blocks[0], PrintDirectory(blocks[1..], |mem|);
      assert BlockOk(b, |mem|);
      StandsSplit(mem, p, PrintBlock(b), rest);
      BlockHeader(mem, p, b);
      PrintedReach(mem, p + 8 + 2 * |b.entries|, blocks[1..]);
    }
  }

  /** Every printed directory of the image may be relocated whose fields lie inside the image, outside the directory and
      apart from each other; none of them is of 64 bits where UINTN has 32. */
  lemma PrintedLoads(mem: seq<u8>, p: nat, blocks: seq<RelocBlock>, unit: nat)
    requires BlocksOk(blocks, |mem|) && StandsAt(mem, p, PrintDirectory(blocks, |mem|))
    requires p + |PrintDirectory(blocks, |mem|)| < |mem| && SitesRegular(DirectorySites(blocks), |mem|)
    requires var sites, end := DirectorySites(blocks), p + |PrintDirectory(blocks, |mem|)|;
      forall i :: 0 <= i < |sites| ==> sites[i].at + FieldBytesOf(sites[i].kind) <= p || end <= sites[i].at
    requires unit == 8 || (unit == 4 && forall s :: s in DirectorySites(blocks) ==> s.kind != 10)
    ensures var size := |PrintDirectory(blocks, |mem|)|;
      && Directory(mem, p, p + size) == Done(DirectorySites(blocks), p + size)
      && Sane(DirectorySites(blocks), |mem|, p, Reach(mem, p, p + size))
      && LogEnd(DirectorySites(blocks), 0) <= SizeToPages(size / 2 * unit) * PAGE
  {
    hide Directory, Reach, PrintDirectory, BlocksOk, StandsAt, LogEnd, SizeToPages, DirectorySites, AllApart;
    var sites, size := DirectorySites(blocks), |PrintDirectory(blocks, |mem|)|;
    DirectoryRoundTrip(mem, p, blocks, p + size);
    PrintedReach(mem, p, blocks);
    SitesRegularIs(sites, |mem|);
    forall i | 0 <= i < |sites| ensures FieldBytesOf(sites[i].kind) == Width(sites[i].kind) && sites[i] in sites {}
    LogFits(mem, p, size, unit);
  }

  lemma SaneSuffix(sites: seq<Site>, after: seq<Site>, size: nat, lo: nat, hi: nat)
    requires Sane(sites + after, size, lo, hi)
    ensures Sane(after, size, lo, hi)
  {
    forall i | 0 <= i < |after| ensures after[i] == (sites + after)[|sites| + i] {}
  }

  lemma DirectoryEnd(m: seq<u8>, p: nat, end: nat)
    ensures p >= end ==> Directory(m, p, end) == Done([], p)
  {
  }

  /** One block of the directory. */
  lemma DirectoryStep(m: seq<u8>, p: nat, end: nat)
    requires p < end && !Directory(m, p, end).Undefined?
    ensures p + 8 <= |m| && p + 8 <= Reach(m, p, end)
    ensures var base, size, d := Field32(m, p), Field32(m, p + 4), Directory(m, p, end);
      && size > 0 && (p + size > |m| - 1 ==> d == LoadError([]))
      && (p + size <= |m| - 1 ==>
            var next, sites := Directory(m, p + size, end), BlockSites(m, p + 8, p + size, base);
            && !next.Undefined? && AllKnown(sites) && d.sites == sites + next.sites && (d.Done? <==> next.Done?)
            && BlockReach(p + 8, p + size) <= Reach(m, p, end) && Reach(m, p + size, end) <= Reach(m, p, end))
  {
    hide BlockSites, AllKnown;
  }

  lemma PendingDone(mem: seq<u8>, log: seq<u8>, pos: nat, adjust: nat, mem': seq<u8>, log': seq<u8>)
    requires Pending(mem, log, pos, [], adjust, mem', log')
    ensures mem == mem' && log == log'
  {
  }

  lemma PendingStart(m: seq<u8>, log: seq<u8>, sites: seq<Site>, adjust: nat, lo: nat, hi: nat)
    requires Sane(sites, |m|, lo, hi) && LogEnd(sites, 0) <= |log|
    ensures AllFit(sites, |m|)
    ensures Pending(m, log, 0, sites, adjust, PatchAll(m, sites, adjust), LogAll(log, 0, m, sites, adjust))
  {
  }

  lemma FirstSite(m: seq<u8>, r: nat, stop: nat, base: nat, after: seq<Site>)
    requires r < stop < |m|
    ensures var rest := BlockSites(m, r, stop, base) + after;
      rest != [] && rest[0] == SiteOf(Field16(m, r), base) == BlockSites(m, r, stop, base)[0] &&
      rest[1..] == BlockSites(m, r + 2, stop, base) + after &&
      BlockSites(m, r, stop, base)[1..] == BlockSites(m, r + 2, stop, base)
  {
    HeadTail(SiteOf(Field16(m, r), base), BlockSites(m, r + 2, stop, base), after);
  }

  lemma HeadTail<T>(x: T, more: seq<T>, after: seq<T>)
    ensures ([x] + more + after)[0] == x && ([x] + more + after)[1..] == more + after && ([x] + more)[1..] == more
  {
  }
}
