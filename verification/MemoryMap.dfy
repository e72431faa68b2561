/** The loader's memory map: an array of descriptors that regions are carved out of. Addresses are page numbers. */
module MemoryMap {

  const PAGE: nat := 0x1000
  /** Page numbers of 1 MB and 4 GB. */
  const ONE_MB: nat := 0x100
  const FOUR_GB: nat := 0x10_0000

  const EfiReservedMemoryType: nat := 0
  const EfiRuntimeServicesCode: nat := 5
  const EfiRuntimeServicesData: nat := 6
  const EfiConventionalMemory: nat := 7
  const EfiACPIReclaimMemory: nat := 9
  const EfiACPIMemoryNVS: nat := 10

  /** What a page is used for: its memory type and attribute. */
  datatype Use = Use(kind: nat, attr: nat)

  datatype Descriptor = Descriptor(use: Use, start: nat, pages: nat) {
    function End(): nat { start + pages }

    predicate Free() { use.kind == EfiConventionalMemory }

    predicate Covers(p: nat) { start <= p < start + pages }
  }

  predicate Apart(d: Descriptor, e: Descriptor) {
    d.pages == 0 || e.pages == 0 || d.End() <= e.start || e.End() <= d.start
  }

  /** No descriptor overlaps free memory. Rounded reserved regions may share a page with each other. */
  predicate Tidy(desc: seq<Descriptor>) {
    forall i, j :: 0 <= i < j < |desc| && (desc[i].Free() || desc[j].Free()) ==> Apart(desc[i], desc[j])
  }

  /** The map from pages to uses that the descriptors stand for. */
  ghost predicate Maps(desc: seq<Descriptor>, p: nat, u: Use) {
    exists i :: 0 <= i < |desc| && desc[i].Covers(p) && desc[i].use == u
  }

  lemma OneOwner(desc: seq<Descriptor>, i: nat, j: nat, p: nat)
    requires Tidy(desc) && i < |desc| && j < |desc| && i != j && desc[i].Covers(p) && desc[i].Free()
    ensures !desc[j].Covers(p)
  {
    assert Apart(desc[if i < j then i else j], desc[if i < j then j else i]);
  }

  /** A page of free memory has no other use. */
  lemma FreeOnce(desc: seq<Descriptor>, p: nat, u: Use, u': Use)
    requires Tidy(desc) && Maps(desc, p, u) && Maps(desc, p, u') && u.kind == EfiConventionalMemory
    ensures u == u'
  {
    var i :| 0 <= i < |desc| && desc[i].Covers(p) && desc[i].use == u;
    var j :| 0 <= j < |desc| && desc[j].Covers(p) && desc[j].use == u';
    if i != j { OneOwner(desc, i, j, p); }
  }

  // ---- EfiAddMemoryDescriptor -------------------------------------------------------------------

  /** The new region lies inside d. */
  predicate Inside(d: Descriptor, r: Descriptor) {
    d.start <= r.start && r.End() <= d.End()
  }

  /** What is left of a free descriptor below the region, above it, or the region itself. */
  datatype Carved = Untouched | Below(rest: seq<Descriptor>) | Exactly | Above

  function Carve(d: Descriptor, r: Descriptor): Carved {
    if !d.Free() then Untouched
    else if d.start < r.start && d.pages >= r.start - d.start + r.pages then
      Below(if d.pages > r.start - d.start + r.pages then [Descriptor(d.use, r.End(), d.End() - r.End())] else [])
    else if d.start == r.start && d.pages == r.pages then Exactly
    else if d.start == r.start && d.pages > r.pages then Above
    else Untouched
  }

  /** EfiAddMemoryDescriptor from entry i on, over the count entries there were at the call. */
  function AddFrom(desc: seq<Descriptor>, i: nat, count: nat, r: Descriptor): seq<Descriptor>
    requires i <= count <= |desc|
    decreases count - i
  {
    if i == count then desc + [r]
    else
      var d := desc[i];
      match Carve(d, r)
      case Untouched => AddFrom(desc, i + 1, count, r)
      case Below(rest) => AddFrom(desc[i := d.(pages := r.start - d.start)] + rest, i + 1, count, r)
      case Exactly => desc[i := d.(use := r.use)]
      case Above => AddFrom(desc[i := Descriptor(d.use, r.End(), d.pages - r.pages)], i + 1, count, r)
  }

  function Add(desc: seq<Descriptor>, r: Descriptor): seq<Descriptor> {
    if r.pages == 0 then desc else AddFrom(desc, 0, |desc|, r)
  }

  /** The source's promise: the region is free memory of one descriptor, or belongs to none. */
  predicate Clear(desc: seq<Descriptor>, r: Descriptor) {
    forall i :: 0 <= i < |desc| ==> Apart(desc[i], r)
  }

  predicate ClearBut(desc: seq<Descriptor>, r: Descriptor, j: nat) {
    forall i :: 0 <= i < |desc| && i != j ==> Apart(desc[i], r)
  }

  predicate Holds(desc: seq<Descriptor>, j: nat, r: Descriptor) {
    j < |desc| && desc[j].Free() && Inside(desc[j], r)
  }

  /** desc' is desc with the pages of r put to r's use. */
  ghost predicate Overwritten(desc: seq<Descriptor>, r: Descriptor, desc': seq<Descriptor>) {
    Tidy(desc') && forall p: nat, u :: Maps(desc', p, u) <==> if r.Covers(p) then u == r.use else Maps(desc, p, u)
  }

  /** A region apart from all free memory is appended and carves nothing. */
  lemma {:induction false} AddClear(desc: seq<Descriptor>, i: nat, count: nat, r: Descriptor)
    requires i <= count <= |desc| && r.pages > 0
    requires forall k :: 0 <= k < |desc| && desc[k].Free() ==> Apart(desc[k], r)
    ensures AddFrom(desc, i, count, r) == desc + [r]
    decreases count - i
  {
    if i < count {
      AddClear(desc, i + 1, count, r);
    }
  }

  lemma AppendMaps(desc: seq<Descriptor>, r: Descriptor, p: nat, u: Use)
    ensures Maps(desc + [r], p, u) <==> Maps(desc, p, u) || (r.Covers(p) && u == r.use)
  {
    var desc' := desc + [r];
    if Maps(desc, p, u) {
      var i :| 0 <= i < |desc| && desc[i].Covers(p) && desc[i].use == u;
      assert desc'[i] == desc[i];
    }
    if r.Covers(p) && u == r.use { assert desc'[|desc|] == r; }
  }

  /** Nothing but r covers a page of r. */
  lemma ClearPage(desc: seq<Descriptor>, r: Descriptor, p: nat, u: Use)
    requires Clear(desc, r) && r.Covers(p)
    ensures !Maps(desc, p, u)
  {
    forall i | 0 <= i < |desc| ensures !desc[i].Covers(p) { assert Apart(desc[i], r); }
  }

  lemma AppendOverwrites(desc: seq<Descriptor>, r: Descriptor)
    requires Tidy(desc) && Clear(desc, r)
    ensures Overwritten(desc, r, desc + [r])
  {
    forall p: nat, u ensures Maps(desc + [r], p, u) <==> if r.Covers(p) then u == r.use else Maps(desc, p, u) {
      AppendMaps(desc, r, p, u);
      if r.Covers(p) { ClearPage(desc, r, p, u); }
    }
  }

  // ---- Cutting the region out of the descriptor that holds it -----------------------------------

  /** desc with entry j cut down to a, and the rest appended. */
  function Cut(desc: seq<Descriptor>, j: nat, a: Descriptor, rest: seq<Descriptor>): seq<Descriptor>
    requires j < |desc|
  {
    desc[j := a] + rest
  }

  /** a and rest are what r leaves of d. */
  ghost predicate Leaves(d: Descriptor, r: Descriptor, a: Descriptor, rest: seq<Descriptor>) {
    && |rest| <= 1 && a.use == d.use && Inside(d, a) && Apart(a, r)
    && (rest != [] ==> rest[0].use == d.use && Inside(d, rest[0]) && Apart(rest[0], r) && Apart(a, rest[0]))
    && forall p: nat :: d.Covers(p) && !r.Covers(p) ==> a.Covers(p) || (rest != [] && rest[0].Covers(p))
  }

  lemma CutTidy(desc: seq<Descriptor>, j: nat, r: Descriptor, a: Descriptor, rest: seq<Descriptor>)
    requires Tidy(desc) && j < |desc| && desc[j].Free() && Leaves(desc[j], r, a, rest) && ClearBut(desc, r, j)
    ensures Tidy(Cut(desc, j, a, rest)) && Clear(Cut(desc, j, a, rest), r)
  {
    var desc' := Cut(desc, j, a, rest);
    forall x, y | 0 <= x < y < |desc'| && (desc'[x].Free() || desc'[y].Free()) ensures Apart(desc'[x], desc'[y]) {
      if y < |desc| {
        assert Apart(desc[x], desc[y]);
      } else if x != j {
        assert Apart(desc[if x < j then x else j], desc[if x < j then j else x]);
      }
    }
  }

  lemma CutMaps(desc: seq<Descriptor>, j: nat, r: Descriptor, a: Descriptor, rest: seq<Descriptor>, p: nat, u: Use)
    requires j < |desc| && Leaves(desc[j], r, a, rest) && !r.Covers(p)
    ensures Maps(Cut(desc, j, a, rest), p, u) <==> Maps(desc, p, u)
  {
    var desc' := Cut(desc, j, a, rest);
    if Maps(desc, p, u) {
      var i :| 0 <= i < |desc| && desc[i].Covers(p) && desc[i].use == u;
      assert i != j ==> desc'[i] == desc[i];
      assert i == j && !a.Covers(p) ==> desc'[|desc|] == rest[0];
      assert desc'[j] == a;
    }
    if Maps(desc', p, u) {
      var i :| 0 <= i < |desc'| && desc'[i].Covers(p) && desc'[i].use == u;
      assert i < |desc| && i != j ==> desc[i] == desc'[i];
      assert i == j || i >= |desc| ==> desc[j].Covers(p) && desc[j].use == u;
    }
  }

  lemma CutOverwrites(desc: seq<Descriptor>, j: nat, r: Descriptor, a: Descriptor, rest: seq<Descriptor>)
    requires Tidy(desc) && j < |desc| && desc[j].Free() && Leaves(desc[j], r, a, rest) && ClearBut(desc, r, j)
    ensures Overwritten(desc, r, Cut(desc, j, a, rest) + [r])
  {
    var desc' := Cut(desc, j, a, rest);
    CutTidy(desc, j, r, a, rest);
    AppendOverwrites(desc', r);
    forall p: nat, u ensures Maps(desc' + [r], p, u) <==> if r.Covers(p) then u == r.use else Maps(desc, p, u) {
      if !r.Covers(p) { CutMaps(desc, j, r, a, rest, p, u); }
    }
  }

  lemma RetypeOverwrites(desc: seq<Descriptor>, j: nat, r: Descriptor)
    requires Tidy(desc) && j < |desc| && desc[j].Free() && desc[j].start == r.start && desc[j].pages == r.pages
    ensures Overwritten(desc, r, desc[j := desc[j].(use := r.use)])
  {
    var desc' := desc[j := desc[j].(use := r.use)];
    forall x, y | 0 <= x < y < |desc'| && (desc'[x].Free() || desc'[y].Free()) ensures Apart(desc'[x], desc'[y]) {
      assert Apart(desc[x], desc[y]);
    }
    forall p: nat, u ensures Maps(desc', p, u) <==> if r.Covers(p) then u == r.use else Maps(desc, p, u) {
      RetypeMaps(desc, j, r, p, u);
    }
  }

  lemma RetypeMaps(desc: seq<Descriptor>, j: nat, r: Descriptor, p: nat, u: Use)
    requires Tidy(desc) && j < |desc| && desc[j].Free() && desc[j].start == r.start && desc[j].pages == r.pages
    ensures Maps(desc[j := desc[j].(use := r.use)], p, u) <==> if r.Covers(p) then u == r.use else Maps(desc, p, u)
  {
    var desc' := desc[j := desc[j].(use := r.use)];
    if r.Covers(p) {
      assert desc'[j].Covers(p);
      forall i | 0 <= i < |desc| && i != j ensures !desc'[i].Covers(p) { OneOwner(desc, j, i, p); }
    } else {
      forall i | 0 <= i < |desc| && desc[i].Covers(p) ensures desc'[i] == desc[i] {}
      forall i | 0 <= i < |desc| && desc'[i].Covers(p) ensures desc'[i] == desc[i] {}
    }
  }

  /** Before the holder is reached nothing changes. */
  lemma {:induction false} AddReaches(desc: seq<Descriptor>, i: nat, j: nat, count: nat, r: Descriptor)
    requires i <= j < count <= |desc| && r.pages > 0 && ClearBut(desc, r, j)
    ensures AddFrom(desc, i, count, r) == AddFrom(desc, j, count, r)
    decreases j - i
  {
    if i < j {
      assert Apart(desc[i], r);
      AddReaches(desc, i + 1, j, count, r);
    }
  }

  /** EfiAddMemoryDescriptor overwrites the map on the new region, and nothing comes to overlap free memory. */
  lemma AddOverwrites(desc: seq<Descriptor>, r: Descriptor, j: nat)
    requires Tidy(desc) && r.pages > 0
    requires Clear(desc, r) || (Holds(desc, j, r) && ClearBut(desc, r, j))
    ensures Overwritten(desc, r, Add(desc, r))
  {
    if Clear(desc, r) {
      AddClear(desc, 0, |desc|, r);
      AppendOverwrites(desc, r);
    } else {
      AddReaches(desc, 0, j, |desc|, r);
      AddAtHolder(desc, r, j);
    }
  }

  lemma AddAtHolder(desc: seq<Descriptor>, r: Descriptor, j: nat)
    requires Tidy(desc) && r.pages > 0 && Holds(desc, j, r) && ClearBut(desc, r, j)
    ensures Overwritten(desc, r, AddFrom(desc, j, |desc|, r))
  {
    hide Overwritten;
    var d := desc[j];
    if d.start < r.start {
      var a := d.(pages := r.start - d.start);
      var rest := if d.pages > r.start - d.start + r.pages then [Descriptor(d.use, r.End(), d.End() - r.End())] else [];
      CutTidy(desc, j, r, a, rest);
      AddClear(Cut(desc, j, a, rest), j + 1, |desc|, r);
      CutOverwrites(desc, j, r, a, rest);
    } else if d.pages == r.pages {
      RetypeOverwrites(desc, j, r);
    } else {
      var a := Descriptor(d.use, r.End(), d.pages - r.pages);
      assert Cut(desc, j, a, []) == desc[j := a];
      CutTidy(desc, j, r, a, []);
      AddClear(Cut(desc, j, a, []), j + 1, |desc|, r);
      CutOverwrites(desc, j, r, a, []);
    }
  }

  // ---- FindSpace --------------------------------------------------------------------------------

  predicate Runtime(u: Use) { u.kind == EfiRuntimeServicesCode || u.kind == EfiRuntimeServicesData }

  /** The search ends behind the first runtime region above 1 MB. */
  predicate Stops(d: Descriptor) { d.End() > ONE_MB && Runtime(d.use) }

  predicate Reached(desc: seq<Descriptor>, i: nat)
    requires i <= |desc|
  {
    forall k :: 0 <= k < i ==> !Stops(desc[k])
  }

  predicate Candidate(d: Descriptor, n: nat) {
    d.Free() && d.pages >= n && d.start > 0 && ONE_MB < d.End() <= FOUR_GB
  }

  /** FindSpace's loop from entry i on, with best the entry chosen so far or -1. */
  function Pick(desc: seq<Descriptor>, n: nat, i: nat, best: int): (b: int)
    requires i <= |desc| && -1 <= best < |desc|
    ensures -1 <= b < |desc| && (b >= 0 && b != best ==> Candidate(desc[b], n))
    decreases |desc| - i
  {
    if i == |desc| then best
    else
      var d := desc[i];
      if d.End() <= ONE_MB then Pick(desc, n, i + 1, best)
      else
        var highest := if best < 0 then 0 else desc[best].start;
        var next := if d.Free() && d.pages >= n && d.start > highest && d.End() <= FOUR_GB then i else best;
        if Runtime(d.use) then next else Pick(desc, n, i + 1, next)
  }

  /** Entry b is the highest free region below 4 GB, among those searched, that is large enough. */
  predicate Highest(desc: seq<Descriptor>, b: nat, n: nat) {
    && b < |desc| && Reached(desc, b) && Candidate(desc[b], n)
    && forall i :: 0 <= i < |desc| && i != b && Reached(desc, i) && Candidate(desc[i], n) ==>
      desc[i].start < desc[b].start
  }

  /** best is the highest candidate of the first i entries. */
  predicate HighestBelow(desc: seq<Descriptor>, i: nat, n: nat, best: int)
    requires i <= |desc|
  {
    && -1 <= best < i && Reached(desc, i) && (best >= 0 ==> Candidate(desc[best], n))
    && forall k :: 0 <= k < i && k != best && Candidate(desc[k], n) ==> best >= 0 && desc[k].start < desc[best].start
  }

  lemma SameStart(desc: seq<Descriptor>, i: nat, j: nat)
    requires Tidy(desc) && i < j < |desc| && desc[i].pages > 0 && desc[j].pages > 0 && desc[i].Free()
    ensures desc[i].start != desc[j].start
  {
    assert Apart(desc[i], desc[j]);
  }

  lemma CandidatesDiffer(desc: seq<Descriptor>, n: nat, i: nat, j: nat)
    requires Tidy(desc) && n > 0 && i < j < |desc| && Candidate(desc[i], n) && Candidate(desc[j], n)
    ensures desc[i].start != desc[j].start
  {
    SameStart(desc, i, j);
  }

  function Next(desc: seq<Descriptor>, n: nat, i: nat, best: int): int
    requires i < |desc| && -1 <= best < i
  {
    if Candidate(desc[i], n) && (best < 0 || desc[i].start > desc[best].start) then i else best
  }

  lemma PickNext(desc: seq<Descriptor>, n: nat, i: nat, best: int)
    requires i < |desc| && -1 <= best < i
    ensures Pick(desc, n, i, best) ==
      if Stops(desc[i]) then Next(desc, n, i, best) else Pick(desc, n, i + 1, Next(desc, n, i, best))
  {
  }

  lemma Beyond(desc: seq<Descriptor>, i: nat)
    requires i < |desc| && Stops(desc[i])
    ensures forall k :: i < k < |desc| ==> !Reached(desc, k)
  {
  }

  /** One more entry keeps best the highest; behind a runtime region none is searched. */
  lemma NextHighest(desc: seq<Descriptor>, n: nat, i: nat, best: int)
    requires Tidy(desc) && n > 0 && i < |desc| && HighestBelow(desc, i, n, best)
    ensures var b := Next(desc, n, i, best);
      && -1 <= b <= i && (b >= 0 ==> Candidate(desc[b], n) && Reached(desc, b))
      && forall k :: 0 <= k <= i && k != b && Candidate(desc[k], n) ==> b >= 0 && desc[k].start < desc[b].start
  {
    hide Candidate, Apart, Stops, Tidy;
    if best >= 0 && Candidate(desc[i], n) { CandidatesDiffer(desc, n, best, i); }
  }

  lemma {:induction false} PickHighest(desc: seq<Descriptor>, n: nat, i: nat, best: int)
    requires Tidy(desc) && n > 0 && i <= |desc| && HighestBelow(desc, i, n, best)
    ensures var b := Pick(desc, n, i, best);
      if b < 0 then forall k :: 0 <= k < |desc| && Reached(desc, k) ==> !Candidate(desc[k], n) else Highest(desc, b, n)
    decreases |desc| - i
  {
    hide Candidate, Apart, Stops, Tidy, Next, Pick;
    if i < |desc| {
      NextHighest(desc, n, i, best);
      PickNext(desc, n, i, best);
      if Stops(desc[i]) {
        Beyond(desc, i);
      } else {
        PickHighest(desc, n, i + 1, Next(desc, n, i, best));
      }
    } else {
      PickEnd(desc, n, best);
    }
  }

  lemma PickEnd(desc: seq<Descriptor>, n: nat, best: int)
    requires -1 <= best < |desc|
    ensures Pick(desc, n, |desc|, best) == best
  {
  }

  /** FindSpace: n pages from the top of the chosen region, and the page they start at; 0 when there is none. */
  function Space(desc: seq<Descriptor>, n: nat, u: Use): (seq<Descriptor>, nat) {
    var b := Pick(desc, n, 0, -1);
    if b < 0 then (desc, 0)
    else if desc[b].pages != n then
      (desc[b := desc[b].(pages := desc[b].pages - n)] + [Descriptor(u, desc[b].End() - n, n)], desc[b].End() - n)
    else (desc[b := desc[b].(use := u)], desc[b].start)
  }

  lemma PickStart(desc: seq<Descriptor>, n: nat)
    requires Tidy(desc) && n > 0
    ensures var b := Pick(desc, n, 0, -1);
      if b < 0 then forall k :: 0 <= k < |desc| && Reached(desc, k) ==> !Candidate(desc[k], n) else Highest(desc, b, n)
  {
    PickHighest(desc, n, 0, -1);
  }

  lemma HoldClear(desc: seq<Descriptor>, b: nat, r: Descriptor)
    requires Tidy(desc) && b < |desc| && desc[b].Free() && Inside(desc[b], r)
    ensures ClearBut(desc, r, b)
  {
    forall i | 0 <= i < |desc| && i != b ensures Apart(desc[i], r) {
      assert Apart(desc[if i < b then i else b], desc[if i < b then b else i]);
    }
  }

  lemma TopLeaves(d: Descriptor, r: Descriptor)
    requires Inside(d, r) && r.End() == d.End()
    ensures Leaves(d, r, d.(pages := d.pages - r.pages), [])
  {
  }

  /** A region found was free, lies below 4 GB, and is all that changes; without one the map is as it was. */
  lemma SpaceOverwrites(desc: seq<Descriptor>, n: nat, u: Use)
    requires Tidy(desc) && n > 0
    ensures var (desc', addr) := Space(desc, n, u);
      var b := Pick(desc, n, 0, -1);
      if addr == 0 then desc' == desc && forall k :: 0 <= k < |desc| && Reached(desc, k) ==> !Candidate(desc[k], n)
      else
        var r := Descriptor(u, addr, n);
        b >= 0 && Holds(desc, b, r) && r.End() == desc[b].End() <= FOUR_GB && Overwritten(desc, r, desc')
  {
    hide Overwritten, Leaves, Tidy, Highest, Reached;
    PickStart(desc, n);
    var b := Pick(desc, n, 0, -1);
    if b >= 0 {
      var r := Descriptor(u, desc[b].End() - n, n);
      HoldClear(desc, b, r);
      if desc[b].pages != n {
        TopLeaves(desc[b], r);
        CutOverwrites(desc, b, r, desc[b].(pages := desc[b].pages - n), []);
        assert Cut(desc, b, desc[b].(pages := desc[b].pages - n),
          []) == desc[b := desc[b].(pages := desc[b].pages - n)];
      } else {
        RetypeOverwrites(desc, b, r);
      }
    }
  }

  /** In bytes: conventional memory of n pages that ends above 1 MB and at 4 GB at most, and does not begin at 0. */
  predicate Usable(d: Descriptor, n: nat) {
    d.use.kind == 7 && d.pages >= n && d.start > 0 && 0x10_0000 < (d.start + d.pages) * 0x1000 <= 0x1_0000_0000
  }

  /** No runtime code or data that ends above 1 MB stands before entry i. */
  predicate Sought(desc: seq<Descriptor>, i: nat) {
    i < |desc| && forall k :: 0 <= k < i ==>
      (desc[k].use.kind == 5 || desc[k].use.kind == 6 ==> (desc[k].start + desc[k].pages) * 0x1000 <= 0x10_0000)
  }

  lemma SoughtIs(desc: seq<Descriptor>, n: nat, i: nat)
    requires i < |desc|
    ensures Sought(desc, i) <==> Reached(desc, i)
    ensures Usable(desc[i], n) <==> Candidate(desc[i], n)
  {
    forall k | 0 <= k < i
      ensures !Stops(desc[k]) <==>
        (desc[k].use.kind == 5 || desc[k].use.kind == 6 ==> (desc[k].start + desc[k].pages) * 0x1000 <= 0x10_0000)
    {
    }
  }

  /** FindSpace finds room exactly when there is any, and takes it from the top of the usable region that begins
      highest. */
  lemma SpaceIs(desc: seq<Descriptor>, n: nat, u: Use)
    requires Tidy(desc) && n > 0
    ensures var (desc', addr) := Space(desc, n, u);
      && (addr != 0 <==> exists i :: 0 <= i < |desc| && Sought(desc, i) && Usable(desc[i], n))
      && (addr == 0 ==> desc' == desc)
      && (addr != 0 ==>
            && Overwritten(desc, Descriptor(u, addr, n), desc')
            && exists b :: 0 <= b < |desc| && Sought(desc, b) && Usable(desc[b], n)
                 && addr + n == desc[b].start + desc[b].pages
                 && forall i :: 0 <= i < |desc| && i != b && Sought(desc, i) && Usable(desc[i], n) ==>
                      desc[i].start < desc[b].start)
  {
    hide Overwritten, Tidy, Sought, Usable, Candidate, Reached, Space;
    forall i | 0 <= i < |desc|
      ensures (Sought(desc, i) <==> Reached(desc, i)) && (Usable(desc[i], n) <==> Candidate(desc[i], n))
    {
      SoughtIs(desc, n, i);
    }
    PickStart(desc, n);
    SpaceOverwrites(desc, n, u);
    SpaceFound(desc, n, u);
  }

  lemma SpaceFound(desc: seq<Descriptor>, n: nat, u: Use)
    requires n > 0
    ensures Space(desc, n, u).1 != 0 <==> Pick(desc, n, 0, -1) >= 0
  {
  }

  function Total(desc: seq<Descriptor>): nat {
    if desc == [] then 0 else Total(desc[..|desc| - 1]) + desc[|desc| - 1].pages
  }

  lemma {:induction false} TotalUpdate(desc: seq<Descriptor>, b: nat, d: Descriptor)
    requires b < |desc|
    ensures Total(desc[b := d]) == Total(desc) - desc[b].pages + d.pages
  {
    var n := |desc| - 1;
    if b == n {
      assert desc[b := d][..n] == desc[..n];
    } else {
      assert desc[b := d][..n] == desc[..n][b := d];
      TotalUpdate(desc[..n], b, d);
    }
  }

  /** FindSpace neither loses nor invents pages. */
  lemma SpaceConserves(desc: seq<Descriptor>, n: nat, u: Use)
    ensures Total(Space(desc, n, u).0) == Total(desc)
  {
    var b := Pick(desc, n, 0, -1);
    if b >= 0 {
      if desc[b].pages != n {
        var cut := desc[b := desc[b].(pages := desc[b].pages - n)];
        TotalUpdate(desc, b, desc[b].(pages := desc[b].pages - n));
        var d := Descriptor(u, desc[b].End() - n, n);
        assert (cut + [d])[..|cut|] == cut;
      } else {
        TotalUpdate(desc, b, desc[b].(use := u));
      }
    }
  }

  // ---- Stacking ---------------------------------------------------------------------------------

  /** The calls of a loading sequence: how many pages, and what for. */
  datatype Call = Call(n: nat, u: Use)

  function Pages(calls: seq<Call>): nat {
    if calls == [] then 0 else calls[0].n + Pages(calls[1..])
  }

  /** One FindSpace call after the other: the regions' first pages. */
  function Spaces(desc: seq<Descriptor>, calls: seq<Call>): (seq<Descriptor>, seq<nat>)
    decreases |calls|
  {
    if calls == [] then (desc, [])
    else
      var (desc1, addr) := Space(desc, calls[0].n, calls[0].u);
      var (desc2, rest) := Spaces(desc1, calls[1..]);
      (desc2, [addr] + rest)
  }

  /** Descriptor b is the highest choice for every call and larger than all of them together. */
  predicate Serves(desc: seq<Descriptor>, b: nat, calls: seq<Call>) {
    && b < |desc| && Pages(calls) < desc[b].pages && desc[b].End() > ONE_MB + Pages(calls)
    && forall k :: 0 <= k < |calls| ==>
         calls[k].n > 0 && calls[k].u.kind != EfiConventionalMemory && Highest(desc, b, calls[k].n)
  }

  lemma HighestIsPick(desc: seq<Descriptor>, b: nat, n: nat)
    requires Tidy(desc) && n > 0 && Highest(desc, b, n)
    ensures Pick(desc, n, 0, -1) == b
  {
    PickStart(desc, n);
  }

  function AfterSpace(desc: seq<Descriptor>, b: nat, n: nat, u: Use): seq<Descriptor>
    requires b < |desc| && desc[b].pages > n
  {
    desc[b := desc[b].(pages := desc[b].pages - n)] + [Descriptor(u, desc[b].End() - n, n)]
  }

  /** After b has served n pages it is still the highest choice for m. */
  lemma StillHighest(desc: seq<Descriptor>, b: nat, n: nat, u: Use, m: nat)
    requires Highest(desc, b, n) && Highest(desc, b, m) && u.kind != EfiConventionalMemory
    requires desc[b].pages > n && desc[b].pages - n >= m && desc[b].End() - n > ONE_MB
    ensures Highest(AfterSpace(desc, b, n, u), b, m)
  {
    var desc1 := AfterSpace(desc, b, n, u);
    assert Reached(desc1, b);
    forall i | 0 <= i < |desc1| && i != b && Reached(desc1, i) && Candidate(desc1[i], m)
      ensures desc1[i].start < desc1[b].start
    {
      assert desc1[i] == desc[i];
      forall k | 0 <= k < i ensures !Stops(desc[k]) { assert !Stops(desc1[k]); }
      assert Reached(desc, i);
    }
  }

  lemma PagesBound(calls: seq<Call>, k: nat)
    requires k < |calls|
    ensures calls[k].n <= Pages(calls)
  {
    if k > 0 { PagesBound(calls[1..], k - 1); }
  }

  lemma StillServes(desc: seq<Descriptor>, b: nat, calls: seq<Call>)
    requires Tidy(desc) && calls != [] && Serves(desc, b, calls)
    ensures Space(desc, calls[0].n, calls[0].u) ==
      (AfterSpace(desc, b, calls[0].n, calls[0].u), desc[b].End() - calls[0].n)
    ensures Serves(AfterSpace(desc, b, calls[0].n, calls[0].u), b, calls[1..])
  {
    hide Highest;
    HighestIsPick(desc, b, calls[0].n);
    forall k | 0 <= k < |calls[1..]|
      ensures Highest(AfterSpace(desc, b, calls[0].n, calls[0].u), b, calls[1..][k].n)
    {
      PagesBound(calls[1..], k);
      assert calls[1..][k] == calls[k + 1];
      StillHighest(desc, b, calls[0].n, calls[0].u, calls[k + 1].n);
    }
  }

  lemma ServedOnce(desc: seq<Descriptor>, b: nat, calls: seq<Call>)
    requires Tidy(desc) && calls != [] && Serves(desc, b, calls)
    ensures var (desc1, addr) := Space(desc, calls[0].n, calls[0].u);
      && b < |desc| && b < |desc1| && desc1[b].End() + calls[0].n == desc[b].End() == addr + calls[0].n
      && calls[0].n > 0 && Serves(desc1, b, calls[1..])
  {
    StillServes(desc, b, calls);
  }

  /** Regions served by one descriptor stack downward from its end without holes: region k starts at the end minus the
      pages of all calls up to k. */
  lemma {:induction false} Stack(desc: seq<Descriptor>, b: nat, calls: seq<Call>, k: nat)
    requires Tidy(desc) && Serves(desc, b, calls) && k < |calls|
    ensures |Spaces(desc, calls).1| == |calls|
    ensures Spaces(desc, calls).1[k] + Pages(calls[..k + 1]) == desc[b].End()
    decreases |calls|
  {
    hide Serves, Tidy, Space;
    var first := calls[0];
    ServedOnce(desc, b, calls);
    var desc1 := Space(desc, first.n, first.u).0;
    SpaceTidy(desc, first.n, first.u);
    assert calls[..k + 1][0] == first && calls[..k + 1][1..] == calls[1..][..k];
    if k > 0 {
      Stack(desc1, b, calls[1..], k - 1);
    } else {
      StackLength(desc1, calls[1..]);
    }
  }

  lemma {:induction false} StackLength(desc: seq<Descriptor>, calls: seq<Call>)
    ensures |Spaces(desc, calls).1| == |calls|
    decreases |calls|
  {
    if calls != [] { StackLength(Space(desc, calls[0].n, calls[0].u).0, calls[1..]); }
  }

  lemma SpaceTidy(desc: seq<Descriptor>, n: nat, u: Use)
    requires Tidy(desc) && n > 0
    ensures Tidy(Space(desc, n, u).0)
  {
    SpaceOverwrites(desc, n, u);
  }

  lemma PagesCons(c: Call, rest: seq<Call>)
    ensures Pages([c] + rest) == c.n + Pages(rest)
  {
    assert ([c] + rest)[1..] == rest;
  }

  lemma PagesOfFour(c0: Call, c1: Call, c2: Call, c3: Call)
    ensures Pages([c0]) == c0.n && Pages([c0, c1]) == c0.n + c1.n
    ensures Pages([c0, c1, c2]) == c0.n + c1.n + c2.n && Pages([c0, c1, c2, c3]) == c0.n + c1.n + c2.n + c3.n
  {
    PagesCons(c0, []); PagesCons(c1, []); PagesCons(c2, []); PagesCons(c3, []);
    PagesCons(c0, [c1]); PagesCons(c1, [c2]); PagesCons(c2, [c3]);
    PagesCons(c0, [c1, c2]); PagesCons(c1, [c2, c3]);
    PagesCons(c0, [c1, c2, c3]);
    assert [c0] + [c1] == [c0, c1] && [c1] + [c2] == [c1, c2] && [c2] + [c3] == [c2, c3];
    assert [c0] + [c1, c2] == [c0, c1, c2] && [c1] + [c2, c3] == [c1, c2, c3] &&
      [c0] + [c1, c2, c3] == [c0, c1, c2, c3];
    assert [c0] + [] == [c0] && [c1] + [] == [c1] && [c2] + [] == [c2] && [c3] + [] == [c3];
  }

  /** Two images loaded with their fixups: each image's fixups lie right below it, and the length DxeIpl registers for
      the two together is the sum of all four parts. */
  lemma TwoImagesContiguous(desc: seq<Descriptor>, b: nat, ipl: Call, iplFixups: Call, core: Call, coreFixups: Call)
    requires Tidy(desc) && Serves(desc, b, [ipl, iplFixups, core, coreFixups])
    ensures var at := Spaces(desc, [ipl, iplFixups, core, coreFixups]).1;
      && |at| == 4 && at[1] + iplFixups.n == at[0] && at[3] + coreFixups.n == at[2]
      && var iplBase, iplSize := at[0] - iplFixups.n, ipl.n + iplFixups.n;
         var coreBase := at[2] - coreFixups.n;
         iplBase + iplSize - coreBase == ipl.n + iplFixups.n + core.n + coreFixups.n
  {
    var calls := [ipl, iplFixups, core, coreFixups];
    PagesOfFour(ipl, iplFixups, core, coreFixups);
    assert calls[..0 + 1] == [ipl] && calls[..1 + 1] == [ipl, iplFixups];
    assert calls[..2 + 1] == [ipl, iplFixups, core] && calls[..3 + 1] == calls;
    Stack(desc, b, calls, 0);
    Stack(desc, b, calls, 1);
    Stack(desc, b, calls, 2);
    Stack(desc, b, calls, 3);
  }

  // ---- Two calls in a row -----------------------------------------------------------------------

  /** Descriptor b has m more pages to give and is still the highest region that does. */
  predicate RoomBelow(desc: seq<Descriptor>, b: nat, n: nat, m: nat)
    requires b < |desc|
  {
    && desc[b].pages >= n + m && desc[b].End() - n > ONE_MB
    && forall i :: 0 <= i < |desc| && i != b && Reached(desc, i) && Candidate(desc[i], m) ==>
      desc[i].start < desc[b].start
  }

  /** Entry i is still searched when b is used up: a runtime region above 1 MB ends the search. */
  predicate Searched(desc: seq<Descriptor>, b: nat, u: Use, i: nat) {
    i < |desc| && i != b && Reached(desc, i) && !(Runtime(u) && b < i)
  }

  /** Another free region ends where descriptor b begins, and no higher one has m pages. */
  predicate NeighbourBelow(desc: seq<Descriptor>, b: nat, u: Use, m: nat)
    requires b < |desc|
  {
    exists c :: 0 <= c < |desc| && Searched(desc, b, u, c) && Candidate(desc[c], m) && desc[c].End() == desc[b].start
      && forall i :: 0 <= i < |desc| && Searched(desc, b, u, i) && Candidate(desc[i], m) ==>
        desc[i].start <= desc[c].start
  }

  lemma AfterReached(desc: seq<Descriptor>, b: nat, n: nat, u: Use, i: nat)
    requires b < |desc| && desc[b].Free() && desc[b].pages > n && i <= |desc|
    ensures Reached(AfterSpace(desc, b, n, u), i) <==> Reached(desc, i)
  {
    var desc1 := AfterSpace(desc, b, n, u);
    forall k | 0 <= k < i ensures Stops(desc1[k]) == Stops(desc[k]) {}
  }

  lemma UsedReached(desc: seq<Descriptor>, b: nat, u: Use, i: nat)
    requires b < |desc| && desc[b].Free() && desc[b].End() > ONE_MB && i <= |desc|
    ensures Reached(desc[b := desc[b].(use := u)], i) <==> Reached(desc, i) && !(Runtime(u) && b < i)
  {
    var desc1 := desc[b := desc[b].(use := u)];
    forall k | 0 <= k < i && k != b ensures desc1[k] == desc[k] {}
    if Reached(desc1, i) {
      forall k | 0 <= k < i ensures !Stops(desc[k]) { assert !Stops(desc1[k]); }
      assert b < i ==> !Stops(desc1[b]);
    }
  }

  /** A second region right below the first comes from the top of a descriptor that ends there. */
  lemma SecondAt(desc1: seq<Descriptor>, addr: nat, m: nat, u: Use)
    requires Tidy(desc1) && m > 0
    ensures var c, below := Pick(desc1, m, 0, -1), Space(desc1, m, u).1;
      below != 0 && below + m == addr <==> c >= 0 && Highest(desc1, c, m) && desc1[c].End() == addr
  {
    PickStart(desc1, m);
  }

  lemma RoomIsHighest(desc: seq<Descriptor>, b: nat, n: nat, u: Use, m: nat)
    requires Highest(desc, b, n) && desc[b].pages > n && u.kind != EfiConventionalMemory
    ensures Highest(AfterSpace(desc, b, n, u), b, m) <==> RoomBelow(desc, b, n, m)
  {
    hide Reached, Stops;
    var desc1 := AfterSpace(desc, b, n, u);
    forall i | 0 <= i <= |desc| ensures Reached(desc1, i) == Reached(desc, i) { AfterReached(desc, b, n, u, i); }
    if Highest(desc1, b, m) {
      forall i | 0 <= i < |desc| && i != b && Reached(desc, i) && Candidate(desc[i], m)
        ensures desc[i].start < desc[b].start
      {
        assert desc1[i] == desc[i] && Reached(desc1, i);
      }
    }
  }

  lemma AdjacentInside(desc: seq<Descriptor>, b: nat, n: nat, u: Use, m: nat, u': Use)
    requires Tidy(desc) && n > 0 && m > 0 && Highest(desc, b, n) && desc[b].pages > n && u.kind != EfiConventionalMemory
    ensures var addr, below := desc[b].End() - n, Space(AfterSpace(desc, b, n, u), m, u').1;
      below != 0 && below + m == addr <==> RoomBelow(desc, b, n, m)
  {
    hide Candidate, Reached, RoomBelow, Space;
    var desc1 := AfterSpace(desc, b, n, u);
    HighestIsPick(desc, b, n);
    ServedSpace(desc, b, n, u);
    SpaceTidy(desc, n, u);
    SecondAt(desc1, desc[b].End() - n, m, u');
    RoomIsHighest(desc, b, n, u, m);
    var c := Pick(desc1, m, 0, -1);
    if Highest(desc1, b, m) {
      HighestIsPick(desc1, b, m);
    } else if c >= 0 && c != b && desc1[c].End() == desc[b].End() - n && Highest(desc1, c, m) {
      EndsDiffer(desc1, b, c, m);
    }
  }

  lemma ServedSpace(desc: seq<Descriptor>, b: nat, n: nat, u: Use)
    requires b < |desc| && Pick(desc, n, 0, -1) == b && desc[b].pages >= n
    ensures Space(desc, n, u) == (
      if desc[b].pages > n then AfterSpace(desc, b, n, u) else desc[b := desc[b].(use := u)],
      desc[b].End() - n)
  {
  }

  lemma EndsDiffer(desc: seq<Descriptor>, b: nat, c: nat, m: nat)
    requires Tidy(desc) && m > 0 && b < |desc| && c < |desc| && b != c && desc[b].pages > 0 && Candidate(desc[c], m)
    ensures desc[b].End() != desc[c].End()
  {
    assert Apart(desc[if b < c then b else c], desc[if b < c then c else b]);
  }

  lemma AdjacentOutside(desc: seq<Descriptor>, b: nat, n: nat, u: Use, m: nat, u': Use)
    requires Tidy(desc) && n > 0 && m > 0 && Highest(desc, b, n) && desc[b].pages == n &&
      u.kind != EfiConventionalMemory
    ensures var below := Space(desc[b := desc[b].(use := u)], m, u').1;
      below != 0 && below + m == desc[b].start <==> NeighbourBelow(desc, b, u, m)
  {
    hide Candidate, Reached, Space, Stops;
    var desc1 := desc[b := desc[b].(use := u)];
    HighestIsPick(desc, b, n);
    ServedSpace(desc, b, n, u);
    SpaceTidy(desc, n, u);
    SecondAt(desc1, desc[b].start, m, u');
    assert desc[b].End() > ONE_MB && desc[b].Free() by { NotHidden(desc, b, n); }
    forall i | 0 <= i < |desc| && i != b
      ensures desc1[i] == desc[i] && (Reached(desc1, i) <==> Searched(desc, b, u, i))
    {
      UsedReached(desc, b, u, i);
    }
    assert !Candidate(desc1[b], m) by { UsedUp(desc1[b], m); }
    var c := Pick(desc1, m, 0, -1);
    if c >= 0 && Highest(desc1, c, m) && desc1[c].End() == desc[b].start {
      assert Searched(desc, b, u, c);
    }
    if NeighbourBelow(desc, b, u, m) {
      NeighbourIsHighest(desc, b, n, u, m);
    }
  }

  lemma NotHidden(desc: seq<Descriptor>, b: nat, n: nat)
    requires Highest(desc, b, n)
    ensures desc[b].End() > ONE_MB && desc[b].Free() && desc[b].pages >= n
  {
  }

  lemma UsedUp(d: Descriptor, m: nat)
    requires !d.Free()
    ensures !Candidate(d, m)
  {
  }

  lemma NeighbourIsHighest(desc: seq<Descriptor>, b: nat, n: nat, u: Use, m: nat)
    requires Tidy(desc) && n > 0 && m > 0 && Highest(desc, b, n) && desc[b].pages == n &&
      u.kind != EfiConventionalMemory
    requires Tidy(desc[b := desc[b].(use := u)]) && NeighbourBelow(desc, b, u, m)
    ensures var desc1 := desc[b := desc[b].(use := u)];
      var c := Pick(desc1, m, 0, -1);
      c >= 0 && Highest(desc1, c, m) && desc1[c].End() == desc[b].start
  {
    hide Reached, Stops;
    var desc1 := desc[b := desc[b].(use := u)];
    var c :| 0 <= c < |desc| && Searched(desc, b, u, c) && Candidate(desc[c], m) && desc[c].End() == desc[b].start
      && forall i :: 0 <= i < |desc| && Searched(desc, b, u, i) && Candidate(desc[i], m) ==>
        desc[i].start <= desc[c].start;
    forall i | 0 <= i < |desc| && i != b
      ensures desc1[i] == desc[i] && (Reached(desc1, i) <==> Searched(desc, b, u, i))
    {
      UsedReached(desc, b, u, i);
    }
    forall i | 0 <= i < |desc1| && i != c && Reached(desc1, i) && Candidate(desc1[i], m)
      ensures desc1[i].start < desc1[c].start
    {
      CandidatesDiffer(desc1, m, if i < c then i else c, if i < c then c else i);
    }
    assert Highest(desc1, c, m);
    HighestIsPick(desc1, c, m);
  }

  /** When a second region lies right below the first, as the loader assumes it always does: exactly when the descriptor
      that served the first has room left and is still the highest to have it, or, when the first used it up, when
      another free region ends where it begins and is the highest. */
  lemma Adjacent(desc: seq<Descriptor>, b: nat, n: nat, u: Use, m: nat, u': Use)
    requires Tidy(desc) && n > 0 && m > 0 && Highest(desc, b, n) && u.kind != EfiConventionalMemory
    ensures var (desc1, addr) := Space(desc, n, u);
      var below := Space(desc1, m, u').1;
      below != 0 && below + m == addr <==>
        if desc[b].pages > n then RoomBelow(desc, b, n, m) else NeighbourBelow(desc, b, u, m)
  {
    hide Space, Highest, RoomBelow, NeighbourBelow;
    NotHidden(desc, b, n);
    HighestIsPick(desc, b, n);
    ServedSpace(desc, b, n, u);
    if desc[b].pages > n {
      AdjacentInside(desc, b, n, u, m, u');
    } else {
      AdjacentOutside(desc, b, n, u, m, u');
    }
  }

  /** Where it fails: the fixups of an image go into a small region higher up that the image did not fit into. */
  lemma FixupsElsewhere(u: Use)
    requires u.kind != EfiConventionalMemory
    ensures var free := Use(EfiConventionalMemory, 0);
      var desc := [Descriptor(free, 0x200, 0x1000), Descriptor(free, 0x2000, 4)];
      var (desc1, addr) := Space(desc, 0x10, u);
      Tidy(desc) && Highest(desc, 0, 0x10) && addr == 0x11f0 && Space(desc1, 2, u).1 == 0x2002
  {
    var free := Use(EfiConventionalMemory, 0);
    var desc := [Descriptor(free, 0x200, 0x1000), Descriptor(free, 0x2000, 4)];
    assert Pick(desc, 0x10, 2, 0) == 0 && Pick(desc, 0x10, 1, 0) == 0 && Pick(desc, 0x10, 0, -1) == 0;
    var desc1 := Space(desc, 0x10, u).0;
    assert desc1 == [Descriptor(free, 0x200, 0xff0), Descriptor(free, 0x2000, 4), Descriptor(u, 0x11f0, 0x10)];
    assert Pick(desc1, 2, 3, 1) == 1 && Pick(desc1, 2, 2, 1) == 1 && Pick(desc1, 2, 1, 0) == 1 &&
      Pick(desc1, 2, 0, -1) == 1;
  }
}
