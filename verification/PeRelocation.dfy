/** Base relocation of a PE image: what it does to the image's bytes, and the log of fixed-up values. */
module PeRelocation {
  import opened EfiTypes
  import opened Words
  import opened MemoryMap

  const EFI_IMAGE_REL_BASED_ABSOLUTE: nat := 0
  const EFI_IMAGE_REL_BASED_HIGH: nat := 1
  const EFI_IMAGE_REL_BASED_LOW: nat := 2
  const EFI_IMAGE_REL_BASED_HIGHLOW: nat := 3
  const EFI_IMAGE_REL_BASED_DIR64: nat := 10

  // ---- Sites ------------------------------------------------------------------------------------

  /** One relocation entry: its type and the offset it applies to. */
  datatype Site = Site(kind: nat, at: nat)

  predicate Known(kind: nat) {
    kind in {EFI_IMAGE_REL_BASED_ABSOLUTE, EFI_IMAGE_REL_BASED_HIGH, EFI_IMAGE_REL_BASED_LOW,
             EFI_IMAGE_REL_BASED_HIGHLOW, EFI_IMAGE_REL_BASED_DIR64}
  }

  function Width(kind: nat): nat {
    if kind == EFI_IMAGE_REL_BASED_ABSOLUTE then 0
    else if kind == EFI_IMAGE_REL_BASED_HIGHLOW then 4
    else if kind == EFI_IMAGE_REL_BASED_DIR64 then 8
    else 2
  }

  /** What is added to the field; adjust is the 64-bit difference of the two bases. */
  function Increment(kind: nat, adjust: nat): nat {
    if kind == EFI_IMAGE_REL_BASED_HIGH then adjust % 0x1_0000_0000 / 0x1_0000
    else if kind == EFI_IMAGE_REL_BASED_LOW then adjust % 0x1_0000
    else if kind == EFI_IMAGE_REL_BASED_HIGHLOW then adjust % 0x1_0000_0000
    else if kind == EFI_IMAGE_REL_BASED_DIR64 then adjust % 0x1_0000_0000_0000_0000
    else 0
  }

  lemma RangeLiterals()
    ensures Range(0) == 1 && Range(2) == 0x1_0000 && Range(4) == 0x1_0000_0000 && Range(8) == 0x1_0000_0000_0000_0000
  {
    assert Range(6) == 0x1_0000_0000_0000;
  }

  /** Unsigned addition that wraps at n. */
  function WrapAdd(x: nat, y: nat, n: nat): (z: nat)
    requires x < n && y < n
    ensures z < n
  {
    if x + y < n then x + y else x + y - n
  }

  lemma IncrementFits(kind: nat, adjust: nat)
    ensures Increment(kind, adjust) < Range(Width(kind))
  {
    RangeLiterals();
  }

  function PatchField(b: seq<u8>, inc: nat): (b': seq<u8>)
    requires inc < Range(|b|)
    ensures |b'| == |b|
  {
    FieldBytes(WrapAdd(FieldValue(b), inc, Range(|b|)), |b|)
  }

  predicate Fits(s: Site, size: nat) { s.at + Width(s.kind) <= size }

  predicate AllFit(sites: seq<Site>, size: nat) {
    forall i :: 0 <= i < |sites| ==> Fits(sites[i], size)
  }

  function Patch(mem: seq<u8>, s: Site, adjust: nat): (mem': seq<u8>)
    requires Fits(s, |mem|)
    ensures |mem'| == |mem|
  {
    IncrementFits(s.kind, adjust);
    Overwrite(mem, s.at, PatchField(mem[s.at..s.at + Width(s.kind)], Increment(s.kind, adjust)))
  }

  /** The relocated image. */
  function PatchAll(mem: seq<u8>, sites: seq<Site>, adjust: nat): (mem': seq<u8>)
    requires AllFit(sites, |mem|)
    ensures |mem'| == |mem|
    decreases |sites|
  {
    if sites == [] then mem else PatchAll(Patch(mem, sites[0], adjust), sites[1..], adjust)
  }

  // ---- What relocation does ---------------------------------------------------------------------

  predicate Touches(s: Site, p: nat) { s.at <= p < s.at + Width(s.kind) }

  predicate SitesApart(s: Site, s': Site) {
    s.at + Width(s.kind) <= s'.at || s'.at + Width(s'.kind) <= s.at
  }

  predicate AllApart(sites: seq<Site>) {
    forall i, j :: 0 <= i < j < |sites| ==> SitesApart(sites[i], sites[j])
  }

  lemma {:induction false} OthersUnchanged(mem: seq<u8>, sites: seq<Site>, adjust: nat, p: nat)
    requires AllFit(sites, |mem|) && p < |mem| && forall i :: 0 <= i < |sites| ==> !Touches(sites[i], p)
    ensures PatchAll(mem, sites, adjust)[p] == mem[p]
    decreases |sites|
  {
    if sites != [] {
      assert !Touches(sites[0], p);
      OthersUnchanged(Patch(mem, sites[0], adjust), sites[1..], adjust, p);
    }
  }

  function Field(mem: seq<u8>, s: Site): seq<u8>
    requires Fits(s, |mem|)
  {
    mem[s.at..s.at + Width(s.kind)]
  }

  lemma PatchElsewhere(mem: seq<u8>, s: Site, adjust: nat, s': Site)
    requires Fits(s, |mem|) && Fits(s', |mem|) && SitesApart(s, s')
    ensures Field(Patch(mem, s, adjust), s') == Field(mem, s')
  {
    var mem' := Patch(mem, s, adjust);
    forall p | s'.at <= p < s'.at + Width(s'.kind) ensures mem'[p] == mem[p] {}
    assert Field(mem', s') == Field(mem, s');
  }

  lemma PatchHere(mem: seq<u8>, s: Site, adjust: nat)
    requires Fits(s, |mem|)
    ensures Increment(s.kind, adjust) < Range(Width(s.kind))
    ensures Field(Patch(mem, s, adjust), s) == PatchField(Field(mem, s), Increment(s.kind, adjust))
  {
    IncrementFits(s.kind, adjust);
  }

  /** Sites apart from a field leave it alone. */
  lemma {:induction false} FieldUnchanged(mem: seq<u8>, sites: seq<Site>, adjust: nat, s: Site)
    requires AllFit(sites, |mem|) && Fits(s, |mem|) && forall i :: 0 <= i < |sites| ==> SitesApart(sites[i], s)
    ensures Field(PatchAll(mem, sites, adjust), s) == Field(mem, s)
    decreases |sites|
  {
    if sites != [] {
      assert SitesApart(sites[0], s);
      PatchElsewhere(mem, sites[0], adjust, s);
      FieldUnchanged(Patch(mem, sites[0], adjust), sites[1..], adjust, s);
    }
  }

  /** Every site's field is increased once. */
  lemma {:induction false} SitePatched(mem: seq<u8>, sites: seq<Site>, adjust: nat, i: nat)
    requires AllFit(sites, |mem|) && AllApart(sites) && i < |sites|
    ensures Increment(sites[i].kind, adjust) < Range(Width(sites[i].kind))
    ensures Field(PatchAll(mem, sites, adjust), sites[i]) ==
      PatchField(Field(mem, sites[i]), Increment(sites[i].kind, adjust))
    decreases |sites|
  {
    var mem' := Patch(mem, sites[0], adjust);
    if i == 0 {
      PatchHere(mem, sites[0], adjust);
      forall k | 0 <= k < |sites[1..]|
        ensures SitesApart(sites[1..][k], sites[0])
      {
        assert SitesApart(sites[0], sites[k + 1]);
      }
      FieldUnchanged(mem', sites[1..], adjust, sites[0]);
    } else {
      assert SitesApart(sites[0], sites[i]);
      PatchElsewhere(mem, sites[0], adjust, sites[i]);
      SitePatched(mem', sites[1..], adjust, i - 1);
    }
  }

  /** Two lists of the same disjoint sites give the same image, whatever their order. */
  lemma OrderFree(mem: seq<u8>, sites: seq<Site>, sites': seq<Site>, adjust: nat)
    requires AllFit(sites, |mem|) && AllApart(sites) && AllFit(sites', |mem|) && AllApart(sites')
    requires forall s :: s in sites <==> s in sites'
    ensures PatchAll(mem, sites, adjust) == PatchAll(mem, sites', adjust)
  {
    var a, b := PatchAll(mem, sites, adjust), PatchAll(mem, sites', adjust);
    forall p | 0 <= p < |mem| ensures a[p] == b[p] {
      if i :| 0 <= i < |sites| && Touches(sites[i], p) {
        SamePatch(mem, sites, sites', adjust, i, p);
      } else {
        forall j | 0 <= j < |sites'| ensures !Touches(sites'[j], p) { assert sites'[j] in sites; }
        OthersUnchanged(mem, sites, adjust, p);
        OthersUnchanged(mem, sites', adjust, p);
      }
    }
  }

  lemma SamePatch(mem: seq<u8>, sites: seq<Site>, sites': seq<Site>, adjust: nat, i: nat, p: nat)
    requires AllFit(sites, |mem|) && AllApart(sites) && AllFit(sites', |mem|) && AllApart(sites')
    requires forall s :: s in sites <==> s in sites'
    requires i < |sites| && Touches(sites[i], p)
    ensures p < |mem| && PatchAll(mem, sites, adjust)[p] == PatchAll(mem, sites', adjust)[p]
  {
    hide PatchAll, AllApart, PatchField, Increment, Field;
    assert sites[i] in sites';
    var j :| 0 <= j < |sites'| && sites'[j] == sites[i];
    SitePatched(mem, sites, adjust, i);
    SitePatched(mem, sites', adjust, j);
    FieldByte(PatchAll(mem, sites, adjust), sites[i], p);
    FieldByte(PatchAll(mem, sites', adjust), sites[i], p);
  }

  // ---- In numbers -------------------------------------------------------------------------------

  function Field16(b: seq<u8>, i: nat): u16
    requires i + 2 <= |b|
  {
    var v: seq<int> := b;
    v[i] + 0x100 * v[i + 1]
  }

  lemma FieldStep(b: seq<u8>, i: nat, j: nat)
    requires i < j <= |b|
    ensures FieldValue(b[i..j]) == b[i] + 0x100 * FieldValue(b[i + 1..j])
  {
    assert b[i..j][1..] == b[i + 1..j];
  }

  /** The numbers that two, four and eight bytes hold. */
  lemma FieldNumbers(b: seq<u8>, i: nat)
    ensures i + 2 <= |b| ==> FieldValue(b[i..i + 2]) == Field16(b, i)
    ensures i + 4 <= |b| ==> FieldValue(b[i..i + 4]) == Field32(b, i)
    ensures i + 8 <= |b| ==> FieldValue(b[i..i + 8]) == Field32(b, i) + 0x1_0000_0000 * Field32(b, i + 4)
  {
    hide FieldValue;
    if i + 2 <= |b| { Bytes2(b, i); }
    if i + 4 <= |b| { Bytes4(b, i, i + 4); NoBytes(b, i + 4); }
    if i + 8 <= |b| { Bytes4(b, i, i + 8); Bytes4(b, i + 4, i + 8); NoBytes(b, i + 8); }
  }

  lemma NoBytes(b: seq<u8>, i: nat)
    requires i <= |b|
    ensures FieldValue(b[i..i]) == 0
  {
  }

  lemma Bytes2(b: seq<u8>, i: nat)
    requires i + 2 <= |b|
    ensures FieldValue(b[i..i + 2]) == Field16(b, i)
  {
    hide FieldValue;
    FieldStep(b, i, i + 2);
    FieldStep(b, i + 1, i + 2);
    NoBytes(b, i + 2);
  }

  lemma Bytes4(b: seq<u8>, i: nat, j: nat)
    requires i + 4 <= j <= |b|
    ensures FieldValue(b[i..j]) == Field32(b, i) + 0x1_0000_0000 * FieldValue(b[i + 4..j])
  {
    hide FieldValue;
    FieldStep(b, i, j);
    FieldStep(b, i + 1, j);
    FieldStep(b, i + 2, j);
    FieldStep(b, i + 3, j);
  }

  lemma WrapIsMod(v: nat, a: nat, n: nat)
    requires v < n
    ensures a % n < n && WrapAdd(v, a % n, n) == (v + a) % n
  {
    var q, r := a / n, a % n;
    assert a == q * n + r;
    if v + r < n {
      SumMod(v + a, n, q, v + r);
    } else {
      assert (q + 1) * n == q * n + n;
      SumMod(v + a, n, q + 1, v + r - n);
    }
  }

  lemma SumMod(x: nat, n: nat, q: nat, r: nat)
    requires r < n && x == q * n + r
    ensures x % n == r
  {
    DivIs(x, n, q, r);
  }

  lemma PatchedValue(b: seq<u8>, inc: nat)
    requires inc < Range(|b|)
    ensures FieldValue(PatchField(b, inc)) == WrapAdd(FieldValue(b), inc, Range(|b|))
  {
    ValueOfBytes(WrapAdd(FieldValue(b), inc, Range(|b|)), |b|);
  }

  /** The number in a field grows by the increment, modulo its width. */
  lemma FieldGrows(mem: seq<u8>, sites: seq<Site>, adjust: nat, i: nat)
    requires AllFit(sites, |mem|) && AllApart(sites) && i < |sites|
    ensures var mem', s := PatchAll(mem, sites, adjust), sites[i];
      var inc, n := Increment(s.kind, adjust), Range(Width(s.kind));
      && s.at + Width(s.kind) <= |mem| && inc < n
      && FieldValue(mem'[s.at..s.at + Width(s.kind)]) ==
         (FieldValue(mem[s.at..s.at + Width(s.kind)]) + inc) % n
  {
    hide PatchAll, AllApart, PatchField, Range, FieldValue, Width, Increment;
    var s := sites[i];
    SitePatched(mem, sites, adjust, i);
    PatchedValue(Field(mem, s), Increment(s.kind, adjust));
    WrapIsMod(FieldValue(Field(mem, s)), Increment(s.kind, adjust), Range(Width(s.kind)));
    SmallMod(Increment(s.kind, adjust), Range(Width(s.kind)));
  }

  lemma SmallMod(x: nat, n: nat)
    requires x < n
    ensures x % n == x
  {
  }

  lemma ModIncrement(v: nat, adjust: nat, n: nat)
    requires n > 0
    ensures (v + adjust % n) % n == (v + adjust) % n
  {
    var q, r := (v + adjust % n) / n, (v + adjust % n) % n;
    var k := adjust / n;
    assert adjust == k * n + adjust % n && v + adjust % n == q * n + r;
    assert (q + k) * n == q * n + k * n;
    SumMod(v + adjust, n, q + k, r);
  }

  /** The bytes that an entry of one type changes. */
  function FieldBytesOf(kind: nat): nat {
    if kind == 0 then 0 else if kind == 3 then 4 else if kind == 10 then 8 else 2
  }

  /** The fields lie inside the image and do not overlap. */
  predicate SitesRegular(sites: seq<Site>, size: nat) {
    && (forall i :: 0 <= i < |sites| ==> sites[i].at + FieldBytesOf(sites[i].kind) <= size)
    && forall i, j :: 0 <= i < |sites| && 0 <= j < |sites| && i != j ==>
         || sites[i].at + FieldBytesOf(sites[i].kind) <= sites[j].at
         || sites[j].at + FieldBytesOf(sites[j].kind) <= sites[i].at
  }

  lemma SitesRegularIs(sites: seq<Site>, size: nat)
    requires SitesRegular(sites, size)
    ensures AllFit(sites, size) && AllApart(sites)
  {
    forall kind: nat ensures FieldBytesOf(kind) == Width(kind) {}
    forall i | 0 <= i < |sites| ensures Fits(sites[i], size) {}
    forall i, j | 0 <= i < j < |sites| ensures SitesApart(sites[i], sites[j]) {}
  }

  /** What relocation does to the number in each field, by the type of its entry: 16 bits of the high half (1) or of the
      low half (2) of the amount, 32 bits (3) or 64 bits (10) are added to it. */
  lemma FieldIncreased(mem: seq<u8>, sites: seq<Site>, adjust: nat, i: nat)
    requires SitesRegular(sites, |mem|) && i < |sites|
    ensures AllFit(sites, |mem|)
    ensures var mem', kind, at := PatchAll(mem, sites, adjust), sites[i].kind, sites[i].at;
      if kind == 1 then
        && at + 2 <= |mem|
        && Field16(mem', at) == (Field16(mem, at) + adjust % 0x1_0000_0000 / 0x1_0000) % 0x1_0000
      else if kind == 2 then
        at + 2 <= |mem| && Field16(mem', at) == (Field16(mem, at) + adjust) % 0x1_0000
      else if kind == 3 then
        at + 4 <= |mem| && Field32(mem', at) == (Field32(mem, at) + adjust) % 0x1_0000_0000
      else
        kind == 10 ==> at + 8 <= |mem|
                       && Field32(mem', at) + 0x1_0000_0000 * Field32(mem', at + 4) ==
                          (Field32(mem, at) + 0x1_0000_0000 * Field32(mem, at + 4) + adjust) % 0x1_0000_0000_0000_0000
  {
    hide AllFit, AllApart, PatchAll, Field16, Field32;
    SitesRegularIs(sites, |mem|);
    FieldSums(mem, sites, adjust, i);
  }

  lemma FieldSums(mem: seq<u8>, sites: seq<Site>, adjust: nat, i: nat)
    requires AllFit(sites, |mem|) && AllApart(sites) && i < |sites|
    ensures var mem', kind, at := PatchAll(mem, sites, adjust), sites[i].kind, sites[i].at;
      if kind == 1 then
        && at + 2 <= |mem|
        && Field16(mem', at) == (Field16(mem, at) + adjust % 0x1_0000_0000 / 0x1_0000) % 0x1_0000
      else if kind == 2 then
        at + 2 <= |mem| && Field16(mem', at) == (Field16(mem, at) + adjust) % 0x1_0000
      else if kind == 3 then
        at + 4 <= |mem| && Field32(mem', at) == (Field32(mem, at) + adjust) % 0x1_0000_0000
      else
        kind == 10 ==> at + 8 <= |mem|
                       && Field32(mem', at) + 0x1_0000_0000 * Field32(mem', at + 4) ==
                          (Field32(mem, at) + 0x1_0000_0000 * Field32(mem, at + 4) + adjust) % 0x1_0000_0000_0000_0000
  {
    hide PatchAll, AllFit, AllApart, Range, Field16, Field32, FieldValue;
    var mem', s := PatchAll(mem, sites, adjust), sites[i];
    RangeLiterals();
    FieldGrows(mem, sites, adjust, i);
    FieldNumbers(mem, s.at);
    FieldNumbers(mem', s.at);
    ModIncrement(FieldValue(mem[s.at..s.at + Width(s.kind)]), adjust, Range(Width(s.kind)));
  }

  // ---- Undoing it -------------------------------------------------------------------------------

  lemma AddBack(v: nat, a: nat, b: nat, n: nat)
    requires v < n && a < n && b < n
    ensures WrapAdd(WrapAdd(v, a, n), b, n) == v <==> a + b == 0 || a + b == n
  {
  }

  /** A field is restored by adding inc and then inc' exactly when these cancel modulo its width. */
  lemma FieldRestored(b: seq<u8>, inc: nat, inc': nat)
    requires inc < Range(|b|) && inc' < Range(|b|)
    ensures PatchField(PatchField(b, inc), inc') == b <==> inc + inc' == 0 || inc + inc' == Range(|b|)
  {
    var n, v := Range(|b|), FieldValue(b);
    AddBack(v, inc, inc', n);
    ValueOfBytes(WrapAdd(v, inc, n), |b|);
    BytesOfValue(b);
    var w := WrapAdd(WrapAdd(v, inc, n), inc', n);
    if FieldBytes(w, |b|) == b {
      ValueOfBytes(w, |b|);
    }
  }

  /** Relocating back by the opposite amount. */
  function Back(adjust: nat): nat
    requires adjust < 0x1_0000_0000_0000_0000
  {
    if adjust == 0 then 0 else 0x1_0000_0000_0000_0000 - adjust
  }

  lemma Complement16(a: nat)
    requires a < 0x1_0000_0000_0000_0000
    ensures var x, y := a % 0x1_0000, Back(a) % 0x1_0000;
      if x == 0 then y == 0 else y == 0x1_0000 - x
  {
  }

  lemma Complement32(a: nat)
    requires a < 0x1_0000_0000_0000_0000
    ensures var x, y := a % 0x1_0000_0000, Back(a) % 0x1_0000_0000;
      if x == 0 then y == 0 else y == 0x1_0000_0000 - x
  {
  }

  lemma Complement64(a: nat)
    requires a < 0x1_0000_0000_0000_0000
    ensures var x, y := a % 0x1_0000_0000_0000_0000, Back(a) % 0x1_0000_0000_0000_0000;
      if x == 0 then y == 0 else y == 0x1_0000_0000_0000_0000 - x
  {
  }

  lemma LowOfLow(a: nat)
    ensures a % 0x1_0000_0000 % 0x1_0000 == a % 0x1_0000
  {
  }

  lemma HighHalves(x: nat, y: nat)
    requires x < 0x1_0000_0000 && (if x == 0 then y == 0 else y == 0x1_0000_0000 - x)
    ensures var a, b := x / 0x1_0000, y / 0x1_0000;
      (a + b == 0 || a + b == 0x1_0000) <==> x % 0x1_0000 == 0
  {
  }

  /** The two increments of a site cancel for LOW, HIGHLOW and DIR64 whatever the amount; for HIGH, which drops the
      carry of the low half, exactly when the amount is a multiple of 64 KB. */
  lemma Cancels(kind: nat, adjust: nat)
    requires Known(kind) && adjust < 0x1_0000_0000_0000_0000
    ensures var a, b, n := Increment(kind, adjust), Increment(kind, Back(adjust)), Range(Width(kind));
      (a + b == 0 || a + b == n) <==> (kind == EFI_IMAGE_REL_BASED_HIGH ==> adjust % 0x1_0000 == 0)
  {
    hide Back, Range;
    RangeLiterals();
    if kind == EFI_IMAGE_REL_BASED_LOW {
      Complement16(adjust);
    } else if kind == EFI_IMAGE_REL_BASED_HIGHLOW {
      Complement32(adjust);
    } else if kind == EFI_IMAGE_REL_BASED_HIGH {
      Complement32(adjust);
      HighHalves(adjust % 0x1_0000_0000, Back(adjust) % 0x1_0000_0000);
      LowOfLow(adjust);
    } else if kind == EFI_IMAGE_REL_BASED_DIR64 {
      Complement64(adjust);
    }
  }

  predicate Reversible(sites: seq<Site>, adjust: nat) {
    forall i :: 0 <= i < |sites| ==> (sites[i].kind == EFI_IMAGE_REL_BASED_HIGH ==> adjust % 0x1_0000 == 0)
  }

  lemma SiteRestored(mem: seq<u8>, sites: seq<Site>, adjust: nat, i: nat)
    requires AllFit(sites, |mem|) && AllApart(sites) && adjust < 0x1_0000_0000_0000_0000
    requires i < |sites| && Known(sites[i].kind)
    ensures Field(PatchAll(PatchAll(mem, sites, adjust), sites, Back(adjust)), sites[i]) == Field(mem, sites[i]) <==>
      (sites[i].kind == EFI_IMAGE_REL_BASED_HIGH ==> adjust % 0x1_0000 == 0)
  {
    hide PatchAll, Increment;
    SitePatched(mem, sites, adjust, i);
    SitePatched(PatchAll(mem, sites, adjust), sites, Back(adjust), i);
    FieldRestored(Field(mem, sites[i]), Increment(sites[i].kind, adjust), Increment(sites[i].kind, Back(adjust)));
    Cancels(sites[i].kind, adjust);
  }

  /** Relocating by the opposite amount restores the image, exactly when every HIGH entry was moved by whole 64 KB. */
  lemma RelocationUndone(mem: seq<u8>, sites: seq<Site>, adjust: nat)
    requires AllFit(sites, |mem|) && AllApart(sites) && adjust < 0x1_0000_0000_0000_0000
    requires forall i :: 0 <= i < |sites| ==> Known(sites[i].kind)
    ensures PatchAll(PatchAll(mem, sites, adjust), sites, Back(adjust)) == mem <==> Reversible(sites, adjust)
  {
    hide PatchAll, Increment;
    var there := PatchAll(mem, sites, adjust);
    var back := PatchAll(there, sites, Back(adjust));
    if back == mem {
      forall i | 0 <= i < |sites| ensures sites[i].kind == EFI_IMAGE_REL_BASED_HIGH ==> adjust % 0x1_0000 == 0 {
        SiteRestored(mem, sites, adjust, i);
      }
    }
    if Reversible(sites, adjust) {
      forall p | 0 <= p < |mem| ensures back[p] == mem[p] { ByteRestored(mem, sites, adjust, p); }
    }
  }

  lemma FieldByte(mem: seq<u8>, s: Site, p: nat)
    requires Fits(s, |mem|) && Touches(s, p)
    ensures |Field(mem, s)| == Width(s.kind) && Field(mem, s)[p - s.at] == mem[p]
  {
  }

  lemma TouchedRestored(mem: seq<u8>, sites: seq<Site>, adjust: nat, i: nat, p: nat)
    requires AllFit(sites, |mem|) && AllApart(sites) && adjust < 0x1_0000_0000_0000_0000 && p < |mem|
    requires i < |sites| && Touches(sites[i], p) && Known(sites[i].kind)
    requires sites[i].kind == EFI_IMAGE_REL_BASED_HIGH ==> adjust % 0x1_0000 == 0
    ensures PatchAll(PatchAll(mem, sites, adjust), sites, Back(adjust))[p] == mem[p]
  {
    hide PatchAll, Increment, AllApart, Field, Known, Back, Fits, Touches;
    SiteRestored(mem, sites, adjust, i);
    SameField(mem, PatchAll(PatchAll(mem, sites, adjust), sites, Back(adjust)), sites[i], p);
  }

  lemma SameField(mem: seq<u8>, mem': seq<u8>, s: Site, p: nat)
    requires Fits(s, |mem|) && Fits(s, |mem'|) && Touches(s, p) && Field(mem, s) == Field(mem', s)
    ensures p < |mem| && p < |mem'| && mem[p] == mem'[p]
  {
    FieldByte(mem, s, p);
    FieldByte(mem', s, p);
  }

  lemma ByteRestored(mem: seq<u8>, sites: seq<Site>, adjust: nat, p: nat)
    requires AllFit(sites, |mem|) && AllApart(sites) && adjust < 0x1_0000_0000_0000_0000 && p < |mem|
    requires (forall i :: 0 <= i < |sites| ==> Known(sites[i].kind)) && Reversible(sites, adjust)
    ensures PatchAll(PatchAll(mem, sites, adjust), sites, Back(adjust))[p] == mem[p]
  {
    hide PatchAll, AllApart, AllFit, Touches, Known, Back;
    if i :| 0 <= i < |sites| && Touches(sites[i], p) {
      TouchedRestored(mem, sites, adjust, i, p);
    } else {
      OthersUnchanged(mem, sites, adjust, p);
      OthersUnchanged(PatchAll(mem, sites, adjust), sites, Back(adjust), p);
    }
  }

  // ---- The relocation directory -----------------------------------------------------------------

  function SiteOf(entry: u16, base: nat): Site {
    var e: int := entry;
    Site(e / 0x1000, base + e % 0x1000)
  }

  /** The entries of one block from r on. */
  function BlockSites(mem: seq<u8>, r: nat, stop: nat, base: nat): seq<Site>
    requires stop < |mem|
    decreases if r < stop then stop - r else 0
  {
    if r >= stop then [] else [SiteOf(Field16(mem, r), base)] + BlockSites(mem, r + 2, stop, base)
  }

  /** The sites of a directory and where its last block ends; a block that runs past the image stops the loader with an
      error; a block of size zero, a page outside the image or an unknown entry is outside the source's behaviour. */
  datatype Parsed = Done(sites: seq<Site>, end: nat) | LoadError(sites: seq<Site>) | Undefined

  predicate AllKnown(sites: seq<Site>) {
    forall i :: 0 <= i < |sites| ==> Known(sites[i].kind)
  }

  function Before(sites: seq<Site>, rest: Parsed): Parsed {
    match rest
    case Done(more, end) => Done(sites + more, end)
    case LoadError(more) => LoadError(sites + more)
    case Undefined => Undefined
  }

  function Directory(mem: seq<u8>, p: nat, end: nat): Parsed
    decreases if p < end then end - p else 0
  {
    if p >= end then Done([], p)
    else if p + 8 > |mem| then Undefined
    else
      var base, size := Field32(mem, p), Field32(mem, p + 4);
      if size == 0 then Undefined
      else if p + size > |mem| - 1 then LoadError([])
      else if base > |mem| - 1 then Undefined
      else
        var sites := BlockSites(mem, p + 8, p + size, base);
        if AllKnown(sites) then Before(sites, Directory(mem, p + size, end)) else Undefined
  }

  // ---- The directory as it is printed -----------------------------------------------------------

  /** A block of relocation entries: the page, and for each entry a type of 4 bits and an offset of 12. */
  datatype RelocBlock = RelocBlock(page: u32, entries: seq<Site>)

  predicate EntriesOk(entries: seq<Site>) {
    forall k :: 0 <= k < |entries| ==> entries[k].at < 0x1000 && entries[k].kind in {0, 1, 2, 3, 10}
  }

  predicate BlockOk(b: RelocBlock, size: nat) {
    EntriesOk(b.entries) && 8 + 2 * |b.entries| < 0x1_0000_0000 && b.page < size
  }

  function PrintEntry(kind: nat, at: nat): (b: seq<u8>)
    requires kind < 16 && at < 0x1000
    ensures |b| == 2
  {
    var e := 0x1000 * kind + at;
    [e % 0x100, e / 0x100]
  }

  function PrintEntries(entries: seq<Site>): (b: seq<u8>)
    requires EntriesOk(entries)
    ensures |b| == 2 * |entries|
  {
    if entries == [] then [] else PrintEntry(entries[0].kind, entries[0].at) + PrintEntries(entries[1..])
  }

  function PrintBlock(b: RelocBlock): (r: seq<u8>)
    requires EntriesOk(b.entries) && 8 + 2 * |b.entries| < 0x1_0000_0000
    ensures |r| == 8 + 2 * |b.entries|
  {
    Little32(b.page) + Little32(8 + 2 * |b.entries|) + PrintEntries(b.entries)
  }

  /** The places its entries mean. */
  function EntrySites(page: nat, entries: seq<Site>): (sites: seq<Site>)
    ensures |sites| == |entries|
  {
    if entries == [] then [] else [Site(entries[0].kind, page + entries[0].at)] + EntrySites(page, entries[1..])
  }

  predicate BlocksOk(blocks: seq<RelocBlock>, size: nat) {
    forall k :: 0 <= k < |blocks| ==> BlockOk(blocks[k], size)
  }

  function PrintDirectory(blocks: seq<RelocBlock>, size: nat): seq<u8>
    requires BlocksOk(blocks, size)
  {
    if blocks == [] then [] else PrintBlock(blocks[0]) + PrintDirectory(blocks[1..], size)
  }

  function DirectorySites(blocks: seq<RelocBlock>): seq<Site> {
    if blocks == [] then [] else EntrySites(blocks[0].page, blocks[0].entries) + DirectorySites(blocks[1..])
  }

  /** These bytes stand at p. */
  predicate StandsAt(mem: seq<u8>, p: nat, x: seq<u8>) { p + |x| <= |mem| && mem[p..p + |x|] == x }

  lemma StandsSplit(mem: seq<u8>, p: nat, x: seq<u8>, y: seq<u8>)
    requires StandsAt(mem, p, x + y)
    ensures StandsAt(mem, p, x) && StandsAt(mem, p + |x|, y)
  {
    assert mem[p..p + |x + y|][..|x|] == x && mem[p..p + |x + y|][|x|..] == y;
  }

  /** A printed entry is read as its type and its place in the page. */
  lemma EntryRoundTrip(mem: seq<u8>, r: nat, page: nat, kind: nat, at: nat)
    requires kind < 16 && at < 0x1000 && StandsAt(mem, r, PrintEntry(kind, at))
    ensures SiteOf(Field16(mem, r), page) == Site(kind, page + at)
  {
    var x := PrintEntry(kind, at);
    assert mem[r..r + 2][0] == x[0] && mem[r..r + 2][1] == x[1];
    assert Field16(mem, r) == 0x1000 * kind + at;
  }

  lemma {:induction false} EntriesRoundTrip(mem: seq<u8>, r: nat, page: nat, entries: seq<Site>)
    requires EntriesOk(entries) && StandsAt(mem, r, PrintEntries(entries)) && r + 2 * |entries| < |mem|
    ensures BlockSites(mem, r, r + 2 * |entries|, page) == EntrySites(page, entries)
    decreases |entries|
  {
    hide SiteOf, StandsAt, PrintEntry, Field16;
    if entries != [] {
      StandsSplit(mem, r, PrintEntry(entries[0].kind, entries[0].at), PrintEntries(entries[1..]));
      EntryRoundTrip(mem, r, page, entries[0].kind, entries[0].at);
      EntriesRoundTrip(mem, r + 2, page, entries[1..]);
    }
  }

  lemma {:induction false} SitesKnown(page: nat, entries: seq<Site>)
    requires EntriesOk(entries)
    ensures AllKnown(EntrySites(page, entries))
    decreases |entries|
  {
    if entries != [] { SitesKnown(page, entries[1..]); }
  }

  lemma BlockHeader(mem: seq<u8>, p: nat, b: RelocBlock)
    requires EntriesOk(b.entries) && 8 + 2 * |b.entries| < 0x1_0000_0000 && StandsAt(mem, p, PrintBlock(b))
    ensures Field32(mem, p) == b.page && Field32(mem, p + 4) == 8 + 2 * |b.entries|
    ensures StandsAt(mem, p + 8, PrintEntries(b.entries))
  {
    var size, rest := Little32(8 + 2 * |b.entries|), PrintEntries(b.entries);
    assert PrintBlock(b) == Little32(b.page) + (size + rest);
    StandsSplit(mem, p, Little32(b.page), size + rest);
    StandsSplit(mem, p + 4, size, rest);
    LittleField(mem, p, b.page);
    LittleField(mem, p + 4, 8 + 2 * |b.entries|);
  }

  /** One block of a directory. */
  lemma DirectoryBlock(mem: seq<u8>, p: nat, b: RelocBlock, end: nat)
    requires p < end && p + 8 + 2 * |b.entries| < |mem| && b.page < |mem|
    requires Field32(mem, p) == b.page && Field32(mem, p + 4) == 8 + 2 * |b.entries|
    requires BlockSites(mem, p + 8, p + 8 + 2 * |b.entries|, b.page) == EntrySites(b.page, b.entries)
    requires AllKnown(EntrySites(b.page, b.entries))
    ensures Directory(mem, p, end) ==
      Before(EntrySites(b.page, b.entries), Directory(mem, p + 8 + 2 * |b.entries|, end))
  {
    hide AllKnown, BlockSites, EntrySites, Field32;
  }

  lemma BeforeBefore(a: seq<Site>, b: seq<Site>, rest: Parsed)
    ensures Before(a, Before(b, rest)) == Before(a + b, rest)
  {
    if rest.Done? { assert a + (b + rest.sites) == a + b + rest.sites; }
    if rest.LoadError? { assert a + (b + rest.sites) == a + b + rest.sites; }
  }

  lemma BeforeNothing(rest: Parsed)
    ensures Before([], rest) == rest
  {
    if !rest.Undefined? { assert [] + rest.sites == rest.sites; }
  }

  /** Printed blocks are parsed to the sites they mean, whatever follows them. */
  lemma {:induction false} BlocksRoundTrip(mem: seq<u8>, p: nat, blocks: seq<RelocBlock>, end: nat)
    requires BlocksOk(blocks, |mem|) && StandsAt(mem, p, PrintDirectory(blocks, |mem|))
    requires p + |PrintDirectory(blocks, |mem|)| <= end && p + |PrintDirectory(blocks, |mem|)| < |mem|
    ensures Directory(mem, p, end) ==
      Before(DirectorySites(blocks), Directory(mem, p + |PrintDirectory(blocks, |mem|)|, end))
    decreases |blocks|
  {
    hide BlockSites, EntrySites, AllKnown, PrintEntries, PrintBlock, StandsAt, Field32, EntriesOk, Directory, Before;
    if blocks == [] {
      BeforeNothing(Directory(mem, p, end));
    } else {
      var b, rest := blocks[0], PrintDirectory(blocks[1..], |mem|);
      var q := p + 8 + 2 * |b.entries|;
      assert BlockOk(b, |mem|);
      StandsSplit(mem, p, PrintBlock(b), rest);
      BlockHeader(mem, p, b);
      EntriesRoundTrip(mem, p + 8, b.page, b.entries);
      SitesKnown(b.page, b.entries);
      DirectoryBlock(mem, p, b, end);
      BlocksRoundTrip(mem, q, blocks[1..], end);
      BeforeBefore(EntrySites(b.page, b.entries), DirectorySites(blocks[1..]), Directory(mem, q + |rest|, end));
    }
  }

  /** A printed directory is parsed to the sites its blocks mean, and one that ends with a block past the image is an
      error behind them. */
  lemma DirectoryRoundTrip(mem: seq<u8>, p: nat, blocks: seq<RelocBlock>, end: nat)
    requires BlocksOk(blocks, |mem|) && StandsAt(mem, p, PrintDirectory(blocks, |mem|))
    requires p + |PrintDirectory(blocks, |mem|)| <= end && p + |PrintDirectory(blocks, |mem|)| < |mem|
    ensures var q := p + |PrintDirectory(blocks, |mem|)|;
      && (end == q ==> Directory(mem, p, end) == Done(DirectorySites(blocks), end))
      && (q < end && q + 8 <= |mem| <= q + Field32(mem, q + 4) ==>
            Directory(mem, p, end) == LoadError(DirectorySites(blocks)))
  {
    hide BlocksOk, StandsAt, PrintDirectory, Directory, DirectorySites, Field32;
    var q := p + |PrintDirectory(blocks, |mem|)|;
    BlocksRoundTrip(mem, p, blocks, end);
    DirectoryTail(mem, q, end);
    assert DirectorySites(blocks) + [] == DirectorySites(blocks);
  }

  lemma DirectoryTail(mem: seq<u8>, q: nat, end: nat)
    ensures end == q ==> Directory(mem, q, end) == Done([], end)
    ensures q < end && q + 8 <= |mem| <= q + Field32(mem, q + 4) ==> Directory(mem, q, end) == LoadError([])
  {
  }

  // ---- The log of fixed-up values ---------------------------------------------------------------

  /** ALIGN_VALUE */
  function Align(v: nat, a: nat): nat
    requires a > 0
  {
    v + (a - v % a) % a
  }

  function LogAt(kind: nat, pos: nat): nat {
    if kind == EFI_IMAGE_REL_BASED_HIGHLOW then Align(pos, 4)
    else if kind == EFI_IMAGE_REL_BASED_DIR64 then Align(pos, 8)
    else pos
  }

  /** The log position after these sites. */
  function LogEnd(sites: seq<Site>, pos: nat): nat
    decreases |sites|
  {
    if sites == [] then pos else LogEnd(sites[1..], LogAt(sites[0].kind, pos) + Width(sites[0].kind))
  }

  lemma LogStep8(kind: nat, pos: nat, k: nat)
    requires pos <= 8 * k
    ensures LogAt(kind, pos) + Width(kind) <= 8 * k + 8
  {
  }

  lemma LogStep4(kind: nat, pos: nat, k: nat)
    requires pos <= 4 * k && kind != EFI_IMAGE_REL_BASED_DIR64
    ensures LogAt(kind, pos) + Width(kind) <= 4 * k + 4
  {
  }

  /** unit is sizeof (UINTN). */
  predicate UnitOk(sites: seq<Site>, unit: nat) {
    unit == 8 || (unit == 4 && forall i :: 0 <= i < |sites| ==> sites[i].kind != EFI_IMAGE_REL_BASED_DIR64)
  }

  lemma {:induction false} LogBound(sites: seq<Site>, unit: nat, pos: nat, k: nat)
    requires UnitOk(sites, unit) && pos <= unit * k
    ensures LogEnd(sites, pos) <= unit * (k + |sites|)
    decreases |sites|
  {
    if sites != [] {
      if unit == 8 { LogStep8(sites[0].kind, pos, k); } else { LogStep4(sites[0].kind, pos, k); }
      LogBound(sites[1..], unit, LogAt(sites[0].kind, pos) + Width(sites[0].kind), k + 1);
    }
  }

  lemma {:induction false} BlockCount(mem: seq<u8>, r: nat, stop: nat, base: nat)
    requires stop < |mem|
    ensures 2 * |BlockSites(mem, r, stop, base)| <= if r < stop then stop - r + 1 else 0
    decreases if r < stop then stop - r else 0
  {
    if r < stop { BlockCount(mem, r + 2, stop, base); }
  }

  /** The blocks inside a directory leave two bytes for every site; so does a last block that runs past its end, whose
      header leaves seven bytes more. */
  lemma {:induction false} DirectoryCount(mem: seq<u8>, p: nat, end: nat)
    requires Directory(mem, p, end).Done? && p <= end
    ensures var d := Directory(mem, p, end);
      p + 2 * |d.sites| <= if d.end <= end + 7 then end else d.end - 7
    decreases end - p
  {
    if p < end {
      var base, size := Field32(mem, p), Field32(mem, p + 4);
      BlockCount(mem, p + 8, p + size, base);
      if p + size < end {
        DirectoryCount(mem, p + size, end);
      }
    }
  }

  /** EFI_SIZE_TO_PAGES */
  function SizeToPages(n: nat): nat { n / PAGE + (if n % PAGE != 0 then 1 else 0) }

  /** The log of a directory whose last block ends no more than seven bytes behind it, and certainly of one that its
      blocks fill exactly, never exceeds Size / 2 * sizeof (UINTN) bytes, nor the pages set aside. In general there may
      be more sites, and then a log of fields as wide as UINTN exceeds it. Any log is as long as its fields and what
      aligns them, which is between the sum of their widths and one UINTN for each. */
  lemma LogFits(mem: seq<u8>, p: nat, size: nat, unit: nat)
    requires Directory(mem, p, p + size).Done? && UnitOk(Directory(mem, p, p + size).sites, unit)
    ensures var d := Directory(mem, p, p + size);
      && (d.end <= p + size + 7 ==> LogEnd(d.sites, 0) <= size / 2 * unit)
      && (AllWide(d.sites, unit) ==> (LogEnd(d.sites, 0) <= size / 2 * unit <==> |d.sites| <= size / 2))
      && Widths(d.sites) <= LogEnd(d.sites, 0) <= unit * |d.sites|
    ensures size / 2 * unit <= SizeToPages(size / 2 * unit) * PAGE
  {
    hide SizeToPages, Directory, AllWide, UnitOk, LogEnd;
    var sites := Directory(mem, p, p + size).sites;
    DirectoryCount(mem, p, p + size);
    PagesCover(size / 2 * unit);
    LogBetween(sites, unit);
    if |sites| <= size / 2 { LogFitsHalf(sites, size / 2, unit); }
    if AllWide(sites, unit) {
      UnitCases(sites, unit);
      WideLog(sites, unit);
      UnitStrict(|sites|, size / 2, unit);
    }
  }

  /** The bytes of all fields together. */
  function Widths(sites: seq<Site>): nat
    decreases |sites|
  {
    if sites == [] then 0 else Width(sites[0].kind) + Widths(sites[1..])
  }

  lemma {:induction false} LogAtLeast(sites: seq<Site>, pos: nat)
    ensures pos + Widths(sites) <= LogEnd(sites, pos)
    decreases |sites|
  {
    if sites != [] {
      AlignUp(sites[0].kind, pos);
      LogAtLeast(sites[1..], LogAt(sites[0].kind, pos) + Width(sites[0].kind));
    }
  }

  lemma AlignUp(kind: nat, pos: nat)
    ensures LogAt(kind, pos) >= pos
  {
  }

  lemma LogBetween(sites: seq<Site>, unit: nat)
    requires UnitOk(sites, unit)
    ensures Widths(sites) <= LogEnd(sites, 0) <= unit * |sites|
  {
    LogAtLeast(sites, 0);
    LogBound(sites, unit, 0, 0);
  }

  predicate AllWide(sites: seq<Site>, unit: nat) {
    forall i :: 0 <= i < |sites| ==> Width(sites[i].kind) == unit
  }

  lemma UnitCases(sites: seq<Site>, unit: nat)
    requires UnitOk(sites, unit)
    ensures unit == 8 || unit == 4
  {
  }

  /** Fields as wide as the unit need no alignment behind whole units. */
  lemma {:induction false} WideLog8(sites: seq<Site>, k: nat)
    requires AllWide(sites, 8)
    ensures LogEnd(sites, 8 * k) == 8 * k + 8 * |sites|
    decreases |sites|
  {
    if sites != [] {
      assert Width(sites[0].kind) == 8;
      assert LogAt(sites[0].kind, 8 * k) + 8 == 8 * (k + 1);
      WideLog8(sites[1..], k + 1);
    }
  }

  lemma {:induction false} WideLog4(sites: seq<Site>, k: nat)
    requires AllWide(sites, 4)
    ensures LogEnd(sites, 4 * k) == 4 * k + 4 * |sites|
    decreases |sites|
  {
    if sites != [] {
      assert Width(sites[0].kind) == 4;
      assert LogAt(sites[0].kind, 4 * k) + 4 == 4 * (k + 1);
      WideLog4(sites[1..], k + 1);
    }
  }

  lemma WideLog(sites: seq<Site>, unit: nat)
    requires AllWide(sites, unit) && (unit == 8 || unit == 4)
    ensures LogEnd(sites, 0) == unit * (0 + |sites|)
  {
    hide AllWide, LogEnd;
    if unit == 8 { WideLog8(sites, 0); } else { WideLog4(sites, 0); }
  }

  lemma UnitStrict(n: nat, h: nat, unit: nat)
    requires unit == 8 || unit == 4
    ensures unit * (0 + n) <= h * unit <==> n <= h
  {
    if unit == 8 { assert h * unit == 8 * h; } else { assert h * unit == 4 * h; }
  }

  lemma LogFitsHalf(sites: seq<Site>, h: nat, unit: nat)
    requires |sites| <= h && UnitOk(sites, unit)
    ensures LogEnd(sites, 0) <= h * unit
  {
    hide LogEnd;
    LogBound(sites, unit, 0, 0);
    UnitBound(|sites|, h, unit);
  }

  lemma UnitBound(n: nat, h: nat, unit: nat)
    requires n <= h && (unit == 8 || unit == 4)
    ensures unit * (0 + n) <= h * unit
  {
    if unit == 8 {
      assert 8 * n <= h * 8;
    } else {
      assert 4 * n <= h * 4;
    }
  }

  /** The pages set aside for n bytes hold them, and no page of them is to spare. */
  lemma PagesCover(n: nat)
    ensures n <= SizeToPages(n) * PAGE
    ensures n <= 0x1000 * SizeToPages(n) < n + 0x1000
  {
  }

  /** A directory of eight bytes whose one block of 18 bytes holds five DIR64 entries, at offset 0 of an image. */
  function Overshooting(): seq<u8> {
    [0, 0, 0, 0, 18, 0, 0, 0, 0, 0xA0, 0, 0xA0, 0, 0xA0, 0, 0xA0, 0, 0xA0, 0]
  }

  /** It logs 40 bytes, eight more than Size / 2 * sizeof (UINTN). */
  lemma LogOverflows()
    ensures var d := Directory(Overshooting(), 0, 8);
      d.Done? && d.end == 18 && UnitOk(d.sites, 8) && LogEnd(d.sites, 0) == 40 > 8 / 2 * 8
  {
    var m, s := Overshooting(), Site(EFI_IMAGE_REL_BASED_DIR64, 0);
    assert Field32(m, 0) == 0 && Field32(m, 4) == 18;
    assert Field16(m, 8) == Field16(m, 10) == Field16(m, 12) == Field16(m, 14) == Field16(m, 16) == 0xA000;
    assert BlockSites(m, 18, 18, 0) == [];
    assert BlockSites(m, 16, 18, 0) == [s];
    assert BlockSites(m, 14, 18, 0) == [s, s];
    assert BlockSites(m, 12, 18, 0) == [s, s, s];
    assert BlockSites(m, 10, 18, 0) == [s, s, s, s];
    assert BlockSites(m, 8, 18, 0) == [s, s, s, s, s];
    assert Directory(m, 18, 8) == Done([], 18);
    var d := Directory(m, 0, 8);
    assert d.sites == [s, s, s, s, s];
    assert AllWide(d.sites, 8);
    WideLog(d.sites, 8);
  }
}
