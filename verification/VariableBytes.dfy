/** The variable store as bytes: how a record is laid out, and what walking, appending and marking do to a store. */
module VariableBytes {
  import opened EfiTypes
  import opened Words
  import opened VariableLog

  /** What an erased byte holds. */
  const VAR_DEFAULT_VALUE: u8 := 0xff

  /** Byte i of a stored name: little-endian characters and a terminator. */
  function NameByte(name: seq<u16>, i: nat): u8 {
    if i / 2 < |name| then (if i % 2 == 0 then name[i / 2] % 0x100 else name[i / 2] / 0x100) else 0
  }

  function NameBytes(name: seq<u16>): (b: seq<u8>)
    ensures |b| == 2 * |name| + 2
  {
    seq(2 * |name| + 2, i requires 0 <= i => NameByte(name, i))
  }

  predicate WellFormed(r: Record) {
    && |r.key.guid| == 16 && r.key.name != [] && 0 !in r.key.name
    && NameSize(r.key) < 0x1_0000_0000 && |r.data| < 0x1_0000_0000
  }

  function Header(r: Record): (b: seq<u8>)
    requires WellFormed(r)
    ensures |b| == RECORD_HEADER
  {
    [0xaa, 0x55, r.state,
      r.reserved] + Little32(r.attributes) + Little32(NameSize(r.key)) + Little32(|r.data|) + r.key.guid
  }

  function Encode(r: Record): (b: seq<u8>)
    requires WellFormed(r)
    ensures |b| == SizeOf(r)
  {
    Header(r) + NameBytes(r.key.name) + r.data
  }

  lemma HeaderLayout(r: Record)
    requires WellFormed(r)
    ensures var b: seq<int> := Header(r);
      && |b| == 32 && b[0] == 0xaa && b[1] == 0x55 && b[2] == r.state && b[3] == r.reserved
      && b[4] + 0x100 * b[5] + 0x1_0000 * b[6] + 0x100_0000 * b[7] == r.attributes
      && b[8] + 0x100 * b[9] + 0x1_0000 * b[10] + 0x100_0000 * b[11] == 2 * |r.key.name| + 2
      && b[12] + 0x100 * b[13] + 0x1_0000 * b[14] + 0x100_0000 * b[15] == |r.data|
      && Header(r)[16..32] == r.key.guid
  {
    hide Little32;
    var h, x, y, z := Header(r), Little32(r.attributes), Little32(NameSize(r.key)), Little32(|r.data|);
    LittleSum(r.attributes);
    LittleSum(NameSize(r.key));
    LittleSum(|r.data|);
    assert h[4] == x[0] && h[5] == x[1] && h[6] == x[2] && h[7] == x[3];
    assert h[8] == y[0] && h[9] == y[1] && h[10] == y[2] && h[11] == y[3];
    assert h[12] == z[0] && h[13] == z[1] && h[14] == z[2] && h[15] == z[3];
  }

  lemma LittleSum(x: u32)
    ensures var b: seq<int> := Little32(x);
      b[0] + 0x100 * b[1] + 0x1_0000 * b[2] + 0x100_0000 * b[3] == x
  {
    LittleField(Little32(x), 0, x);
  }

  lemma NameLayout(name: seq<u16>)
    ensures var b: seq<int>, n := NameBytes(name), |name|;
      && |b| == 2 * n + 2 && (forall i :: 0 <= i < n ==> b[2 * i] + 0x100 * b[2 * i + 1] == name[i])
      && b[2 * n] == 0 && b[2 * n + 1] == 0
  {
    var b := NameBytes(name);
    forall i | 0 <= i < |name| ensures b[2 * i] == name[i] % 0x100 && b[2 * i + 1] == name[i] / 0x100 {
      assert b[2 * i] == NameByte(name, 2 * i) && b[2 * i + 1] == NameByte(name, 2 * i + 1);
    }
  }

  /** The layout of a record, byte by byte: 55AA, state, a reserved byte, attributes, the sizes of name and data, the
      GUID; then the characters of the name and two zeros; then the data. Numbers are little-endian. */
  lemma Layout(r: Record)
    requires WellFormed(r)
    ensures var b, n, name := Encode(r), |r.key.name|, r.key.name;
      && |b| == 34 + 2 * n + |r.data| && b[..32] == Header(r)
      && (forall i :: 0 <= i < n ==> var v: seq<int> := b[32..34 + 2 * n]; v[2 * i] + 0x100 * v[2 * i + 1] == name[i])
      && b[32 + 2 * n] == 0 && b[33 + 2 * n] == 0 && b[34 + 2 * n..] == r.data
    ensures var b: seq<int> := Encode(r);
      && b[0] == 0xaa && b[1] == 0x55 && b[2] == r.state && b[3] == r.reserved
      && b[4] + 0x100 * b[5] + 0x1_0000 * b[6] + 0x100_0000 * b[7] == r.attributes
      && b[8] + 0x100 * b[9] + 0x1_0000 * b[10] + 0x100_0000 * b[11] == 2 * |r.key.name| + 2
      && b[12] + 0x100 * b[13] + 0x1_0000 * b[14] + 0x100_0000 * b[15] == |r.data|
      && Encode(r)[16..32] == r.key.guid
  {
    hide Header, NameBytes;
    HeaderLayout(r);
    NameLayout(r.key.name);
    var b, h, name := Encode(r), Header(r), NameBytes(r.key.name);
    assert b[..32] == h && b[32..34 + 2 * |r.key.name|] == name;
    assert forall i :: 0 <= i < 32 ==> b[i] == h[i];
    assert b[..32][16..32] == b[16..32];
    assert b[32 + 2 * |r.key.name|] == name[2 * |r.key.name|] && b[33 + 2 * |r.key.name|] == name[2 * |r.key.name| + 1];
  }

  /** Record r stands at p. */
  predicate Sits(b: seq<u8>, p: nat, r: Record) {
    WellFormed(r) && p + SizeOf(r) <= |b| && b[p..p + SizeOf(r)] == Encode(r)
  }

  // ---- Reading a record -------------------------------------------------------------------------

  predicate IsValidVariableHeader(b: seq<u8>, p: nat)
    requires p + 2 <= |b|
  {
    b[p] == 0xaa && b[p + 1] == 0x55
  }

  function StateAt(b: seq<u8>, p: nat): u8
    requires p + RECORD_HEADER <= |b|
  {
    b[p + 2]
  }

  function AttributesAt(b: seq<u8>, p: nat): u32
    requires p + RECORD_HEADER <= |b|
  {
    Field32(b, p + 4)
  }

  function NameSizeAt(b: seq<u8>, p: nat): u32
    requires p + RECORD_HEADER <= |b|
  {
    Field32(b, p + 8)
  }

  function DataSizeAt(b: seq<u8>, p: nat): u32
    requires p + RECORD_HEADER <= |b|
  {
    Field32(b, p + 12)
  }

  function GuidAt(b: seq<u8>, p: nat): seq<u8>
    requires p + RECORD_HEADER <= |b|
  {
    b[p + 16..p + 32]
  }

  function GetVariableDataPtr(b: seq<u8>, p: nat): nat
    requires p + RECORD_HEADER <= |b|
  {
    p + RECORD_HEADER + NameSizeAt(b, p)
  }

  function GetNextVariablePtr(b: seq<u8>, p: nat): nat
    requires p + RECORD_HEADER <= |b|
  {
    GetVariableDataPtr(b, p) + DataSizeAt(b, p)
  }

  lemma SubSlice<T>(b: seq<T>, p: nat, q: nat, i: nat, j: nat)
    requires p <= q <= |b| && i <= j <= q - p
    ensures b[p..q][i..j] == b[p + i..p + j]
  {
    var x, y := b[p..q][i..j], b[p + i..p + j];
    forall k | 0 <= k < |x| ensures x[k] == y[k] {}
    assert x == y;
  }

  lemma Parts(b: seq<u8>, p: nat, r: Record)
    requires Sits(b, p, r)
    ensures b[p..p + RECORD_HEADER] == Header(r)
    ensures b[p + RECORD_HEADER..p + RECORD_HEADER + NameSize(r.key)] == NameBytes(r.key.name)
    ensures b[p + RECORD_HEADER + NameSize(r.key)..p + SizeOf(r)] == r.data
  {
    hide Header;
    var e := b[p..p + SizeOf(r)];
    assert e[..RECORD_HEADER] == Header(r);
    assert e[RECORD_HEADER..RECORD_HEADER + NameSize(r.key)] == NameBytes(r.key.name);
    assert e[RECORD_HEADER + NameSize(r.key)..SizeOf(r)] == r.data;
    SubSlice(b, p, p + SizeOf(r), 0, RECORD_HEADER);
    SubSlice(b, p, p + SizeOf(r), RECORD_HEADER, RECORD_HEADER + NameSize(r.key));
    SubSlice(b, p, p + SizeOf(r), RECORD_HEADER + NameSize(r.key), SizeOf(r));
  }

  lemma FiveParts<T>(a: seq<T>, b: seq<T>, c: seq<T>, d: seq<T>, e: seq<T>)
    requires |a| == |b| == |c| == |d| == 4 && |e| == 16
    ensures var h := a + b + c + d + e;
      |h| == 32 && h[..4] == a && h[4..8] == b && h[8..12] == c && h[12..16] == d && h[16..32] == e
  {
  }

  lemma HeaderFields(b: seq<u8>, p: nat, r: Record)
    requires WellFormed(r) && p + RECORD_HEADER <= |b| && b[p..p + RECORD_HEADER] == Header(r)
    ensures IsValidVariableHeader(b, p) && StateAt(b, p) == r.state && b[p + 3] == r.reserved
    ensures AttributesAt(b, p) == r.attributes && GuidAt(b, p) == r.key.guid
    ensures NameSizeAt(b, p) == NameSize(r.key) && DataSizeAt(b, p) == |r.data|
  {
    var h := b[p..p + RECORD_HEADER];
    FiveParts([0xaa, 0x55, r.state, r.reserved], Little32(r.attributes), Little32(NameSize(r.key)), Little32(|r.data|),
              r.key.guid);
    SubSlice(b, p, p + RECORD_HEADER, 4, 8);
    SubSlice(b, p, p + RECORD_HEADER, 8, 12);
    SubSlice(b, p, p + RECORD_HEADER, 12, 16);
    SubSlice(b, p, p + RECORD_HEADER, 16, 32);
    LittleField(b, p + 4, r.attributes);
    LittleField(b, p + 8, NameSize(r.key));
    LittleField(b, p + 12, |r.data|);
    assert h[0] == b[p] && h[1] == b[p + 1] && h[2] == b[p + 2] && h[3] == b[p + 3];
  }

  /** Every field of a record is read back, and the next record follows it. */
  lemma Fields(b: seq<u8>, p: nat, r: Record)
    requires Sits(b, p, r)
    ensures IsValidVariableHeader(b, p) && StateAt(b, p) == r.state && b[p + 3] == r.reserved
    ensures AttributesAt(b, p) == r.attributes && GuidAt(b, p) == r.key.guid
    ensures NameSizeAt(b, p) == NameSize(r.key) && DataSizeAt(b, p) == |r.data|
    ensures b[p + RECORD_HEADER..GetVariableDataPtr(b, p)] == NameBytes(r.key.name)
    ensures b[GetVariableDataPtr(b, p)..GetNextVariablePtr(b, p)] == r.data
    ensures GetNextVariablePtr(b, p) == p + SizeOf(r)
  {
    Parts(b, p, r);
    HeaderFields(b, p, r);
  }

  lemma NameInjective(a: seq<u16>, b: seq<u16>)
    requires NameBytes(a) == NameBytes(b)
    ensures a == b
  {
    assert |a| == |b|;
    forall i | 0 <= i < |a| ensures a[i] == b[i] {
      assert NameBytes(a)[2 * i] == NameByte(a, 2 * i) && NameBytes(b)[2 * i] == NameByte(b, 2 * i);
      assert NameBytes(a)[2 * i + 1] == NameByte(a, 2 * i + 1) && NameBytes(b)[2 * i + 1] == NameByte(b, 2 * i + 1);
    }
  }

  /** The bytes at p determine the record. */
  lemma SitsUnique(b: seq<u8>, p: nat, r: Record, r': Record)
    requires Sits(b, p, r) && Sits(b, p, r')
    ensures r == r'
  {
    hide Sits, NameBytes, AttributesAt, GuidAt, StateAt, IsValidVariableHeader;
    Fields(b, p, r);
    Fields(b, p, r');
    NameInjective(r.key.name, r'.key.name);
  }

  // ---- A whole store ----------------------------------------------------------------------------

  predicate Framed(b: seq<u8>, log: seq<Record>) {
    forall k {:trigger Sits(b, Offset(log, k), log[k])} :: 0 <= k < |log| ==> Sits(b, Offset(log, k), log[k])
  }

  /** The memory of a store of the given size: a header that states the size, the records one after the other, erased
      bytes, and two foreign bytes that do not begin a record. */
  predicate Image(b: seq<u8>, size: u32, log: seq<Record>) {
    && End(log) <= size && |b| == size + 2 && Field32(b, 16) == size
    && Framed(b, log)
    && (forall i :: End(log) <= i < size ==> b[i] == VAR_DEFAULT_VALUE)
    && b[size] != 0xaa
  }

  /** Walking with GetNextVariablePtr goes from record k to record k + 1. */
  lemma WalkStep(b: seq<u8>, size: u32, log: seq<Record>, k: nat)
    requires Image(b, size, log) && k < |log|
    ensures Sits(b, Offset(log, k), log[k]) && Offset(log, k + 1) <= size
    ensures IsValidVariableHeader(b, Offset(log, k)) && GetNextVariablePtr(b, Offset(log, k)) == Offset(log, k + 1)
  {
    hide SizeOf, Sits;
    assert Sits(b, Offset(log, k), log[k]);
    Fields(b, Offset(log, k), log[k]);
    if k + 1 < |log| { OffsetGrows(log, k + 1, |log|); }
  }

  /** And stops behind the last one. */
  lemma WalkEnd(b: seq<u8>, size: u32, log: seq<Record>)
    requires Image(b, size, log)
    ensures !IsValidVariableHeader(b, End(log))
  {
    hide Framed, Offset;
  }

  /** What a walk sees at step k: record k, or behind the last record no valid header. */
  lemma Walk(b: seq<u8>, size: u32, log: seq<Record>, k: nat)
    requires Image(b, size, log) && k <= |log|
    ensures Offset(log, k) + 2 <= |b| && (IsValidVariableHeader(b, Offset(log, k)) <==> k < |log|)
    ensures k < |log| ==>
      var p, r := Offset(log, k), log[k];
      && Sits(b, p, r) && p < size && p + RECORD_HEADER <= |b| && GetNextVariablePtr(b, p) == Offset(log, k + 1)
      && StateAt(b, p) == r.state && AttributesAt(b, p) == r.attributes && GuidAt(b, p) == r.key.guid
  {
    hide Framed, Offset, SizeOf, Sits, IsValidVariableHeader, StateAt, AttributesAt, GuidAt, GetNextVariablePtr;
    if k < |log| {
      OffsetGrows(log, k, |log|);
      WalkStep(b, size, log, k);
      Fields(b, Offset(log, k), log[k]);
    } else {
      WalkEnd(b, size, log);
    }
  }

  /** A store holds one log only, so a scan after a restart finds the records that were written. */
  lemma {:induction false} SamePrefix(b: seq<u8>, size: u32, log: seq<Record>, log': seq<Record>, n: nat)
    requires Image(b, size, log) && Image(b, size, log') && n <= |log|
    ensures n <= |log'| && log[..n] == log'[..n]
  {
    hide Framed, Offset, SizeOf, IsValidVariableHeader, Sits;
    if n > 0 {
      SamePrefix(b, size, log, log', n - 1);
      forall k | 0 <= k < n - 1 ensures log[k] == log'[k] { assert log[..n - 1][k] == log'[..n - 1][k]; }
      OffsetPrefix(log, log', n - 1);
      WalkStep(b, size, log, n - 1);
      WalkEnd(b, size, log');
      WalkStep(b, size, log', n - 1);
      SitsUnique(b, Offset(log, n - 1), log[n - 1], log'[n - 1]);
    }
  }

  lemma ImageUnique(b: seq<u8>, size: u32, log: seq<Record>, log': seq<Record>)
    requires Image(b, size, log) && Image(b, size, log')
    ensures log == log'
  {
    hide Image;
    SamePrefix(b, size, log, log', |log|);
    SamePrefix(b, size, log', log, |log'|);
  }

  // ---- Writing ----------------------------------------------------------------------------------

  lemma SitsSame(b: seq<u8>, b': seq<u8>, p: nat, r: Record)
    requires Sits(b, p, r) && p + SizeOf(r) <= |b'| && forall i :: p <= i < p + SizeOf(r) ==> b'[i] == b[i]
    ensures Sits(b', p, r)
  {
    hide Encode, SizeOf;
    var x, y := b[p..p + SizeOf(r)], b'[p..p + SizeOf(r)];
    forall i | 0 <= i < SizeOf(r) ensures x[i] == y[i] { assert b'[p + i] == b[p + i]; }
    assert x == y;
  }

  lemma FieldCopy(b: seq<u8>, b': seq<u8>, i: nat)
    requires i + 4 <= |b| == |b'| && forall j :: i <= j < i + 4 ==> b[j] == b'[j]
    ensures Field32(b, i) == Field32(b', i)
  {
    assert b[i] == b'[i] && b[i + 1] == b'[i + 1] && b[i + 2] == b'[i + 2] && b[i + 3] == b'[i + 3];
  }

  /** Writing at or behind the end of the records moves none of them. */
  lemma FramedKept(b: seq<u8>, b': seq<u8>, log: seq<Record>)
    requires Framed(b, log) && End(log) <= |b'| && End(log) <= |b| && forall i :: 0 <= i < End(log) ==> b'[i] == b[i]
    ensures Framed(b', log)
  {
    hide Sits, Offset, SizeOf;
    forall k | 0 <= k < |log| ensures Sits(b', Offset(log, k), log[k]) {
      OffsetGrows(log, k, |log|);
      assert Sits(b, Offset(log, k), log[k]);
      SitsSame(b, b', Offset(log, k), log[k]);
    }
  }

  lemma FramedAppend(b: seq<u8>, log: seq<Record>, r: Record)
    requires Framed(b, log) && Sits(b, End(log), r)
    ensures Framed(b, log + [r]) && End(log + [r]) == End(log) + SizeOf(r)
  {
    hide Sits, SizeOf;
    var log' := log + [r];
    OffsetPrefix(log, log', |log|);
    assert End(log') == Offset(log', |log|) + SizeOf(r);
    hide Offset, End;
    forall k | 0 <= k < |log'| ensures Sits(b, Offset(log', k), log'[k]) {
      OffsetPrefix(log, log', k);
      assert k < |log| ==> Sits(b, Offset(log, k), log[k]);
    }
  }

  /** Writing an encoded record at LastVariableOffset appends it. */
  lemma ImageAppend(b: seq<u8>, size: u32, log: seq<Record>, r: Record)
    requires Image(b, size, log) && WellFormed(r) && End(log) + SizeOf(r) <= size
    ensures Image(Overwrite(b, End(log), Encode(r)), size, log + [r]) && End(log + [r]) == End(log) + SizeOf(r)
  {
    hide Encode;
    var b' := Overwrite(b, End(log), Encode(r));
    FramedKept(b, b', log);
    FramedAppend(b', log, r);
    FieldCopy(b, b', 16);
  }

  lemma EncodeState(r: Record, state: u8)
    requires WellFormed(r)
    ensures Encode(r.(state := state)) == Encode(r)[2 := state]
  {
  }

  /** Writing byte d of a record so that it becomes record r' of the same size. */
  lemma SitsChanged(b: seq<u8>, p: nat, r: Record, r': Record, d: nat, x: u8)
    requires Sits(b, p, r) && WellFormed(r') && SizeOf(r') == SizeOf(r) && d < SizeOf(r)
    requires Encode(r') == Encode(r)[d := x]
    ensures Sits(b[p + d := x], p, r')
  {
    hide Encode;
    var y, z := b[p..p + SizeOf(r)], b[p + d := x][p..p + SizeOf(r)];
    assert z == y[d := x];
  }

  /** It changes that record and nothing else. */
  lemma ImageByte(b: seq<u8>, size: u32, log: seq<Record>, n: nat, r: Record, d: nat, x: u8)
    requires Image(b, size, log) && n < |log| && WellFormed(r) && SizeOf(r) == SizeOf(log[n]) && d < SizeOf(r)
    requires WellFormed(log[n]) && Encode(r) == Encode(log[n])[d := x]
    ensures Offset(log, n) + d < |b| && Image(b[Offset(log, n) + d := x], size, log[n := r])
    ensures End(log[n := r]) == End(log)
  {
    hide Sits, Offset, Encode, SizeOf, WellFormed;
    var p, log' := Offset(log, n), log[n := r];
    OffsetGrows(log, n, |log|);
    var b' := b[p + d := x];
    OffsetPrefix(log, log', |log|);
    forall k | 0 <= k < |log| ensures Sits(b', Offset(log', k), log'[k]) {
      OffsetPrefix(log, log', k);
      ByteElsewhere(b, size, log, n, r, d, x, k);
    }
    FieldCopy(b, b', 16);
  }

  lemma ByteElsewhere(b: seq<u8>, size: u32, log: seq<Record>, n: nat, r: Record, d: nat, x: u8, k: nat)
    requires Image(b, size, log) && n < |log| && WellFormed(r) && SizeOf(r) == SizeOf(log[n]) && d < SizeOf(r)
    requires WellFormed(log[n]) && Encode(r) == Encode(log[n])[d := x] && k < |log| && Offset(log, n) + d < |b|
    ensures Sits(b[Offset(log, n) + d := x], Offset(log, k), log[n := r][k])
  {
    hide Sits, Offset, SizeOf, Encode, WellFormed;
    assert Sits(b, Offset(log, k), log[k]);
    OffsetGrows(log, k, |log|);
    if k == n {
      SitsChanged(b, Offset(log, n), log[n], r, d, x);
    } else {
      OffsetGrows(log, if k < n then k else n, if k < n then n else k);
      SitsSame(b, b[Offset(log, n) + d := x], Offset(log, k), log[k]);
    }
  }

  lemma ImageSits(b: seq<u8>, size: u32, log: seq<Record>, n: nat)
    requires Image(b, size, log) && n < |log|
    ensures WellFormed(log[n]) && Offset(log, n) + SizeOf(log[n]) <= size
  {
    hide Offset, SizeOf, Encode;
    assert Sits(b, Offset(log, n), log[n]);
    OffsetGrows(log, n, |log|);
  }

  /** Writing one state byte changes the state of that record and nothing else. */
  lemma ImageState(b: seq<u8>, size: u32, log: seq<Record>, n: nat, state: u8)
    requires Image(b, size, log) && n < |log|
    ensures Offset(log, n) + 2 < |b| && Image(b[Offset(log, n) + 2 := state], size, SetState(log, n, state))
    ensures End(SetState(log, n, state)) == End(log)
  {
    hide Image, Encode, Offset;
    ImageSits(b, size, log, n);
    EncodeState(log[n], state);
    ImageByte(b, size, log, n, log[n].(state := state), 2, state);
  }

  /** Record r with byte j of its data replaced. */
  function WithData(r: Record, j: nat, x: u8): Record
    requires j < |r.data|
  {
    r.(data := r.data[j := x])
  }

  lemma EncodeData(r: Record, j: nat, x: u8)
    requires WellFormed(r) && j < |r.data|
    ensures Encode(WithData(r, j, x)) == Encode(r)[RECORD_HEADER + NameSize(r.key) + j := x]
  {
    hide Header, NameBytes;
    assert Header(WithData(r, j, x)) == Header(r) by { SameHeader(r, r.data[j := x]); }
  }

  lemma SameHeader(r: Record, data: seq<u8>)
    requires WellFormed(r) && |data| == |r.data|
    ensures Header(r.(data := data)) == Header(r)
  {
  }

  /** Writing one byte of data changes the data of that record and nothing else. */
  lemma ImageData(b: seq<u8>, size: u32, log: seq<Record>, n: nat, j: nat, x: u8)
    requires Image(b, size, log) && n < |log| && j < |log[n].data|
    ensures var p := Offset(log, n) + RECORD_HEADER + NameSize(log[n].key) + j;
      p < |b| && Image(b[p := x], size, log[n := WithData(log[n], j, x)])
  {
    hide Image, Encode, Offset;
    ImageSits(b, size, log, n);
    EncodeData(log[n], j, x);
    ImageByte(b, size, log, n, WithData(log[n], j, x), RECORD_HEADER + NameSize(log[n].key) + j, x);
  }

  /** The record that byte p belongs to. */
  lemma {:induction false} RecordOf(log: seq<Record>, n: nat, p: nat) returns (k: nat)
    requires n <= |log| && STORE_HEADER <= p < Offset(log, n)
    ensures k < n && Offset(log, k) <= p < Offset(log, k) + SizeOf(log[k])
  {
    if p >= Offset(log, n - 1) { k := n - 1; } else { k := RecordOf(log, n - 1, p); }
  }

  lemma SitsByte(b: seq<u8>, b': seq<u8>, q: nat, r: Record, p: nat)
    requires Sits(b, q, r) && Sits(b', q, r) && q <= p < q + SizeOf(r)
    ensures b[p] == b'[p]
  {
    hide Encode;
    assert b[q..q + SizeOf(r)][p - q] == b'[q..q + SizeOf(r)][p - q];
  }

  /** A single byte written anywhere behind the header of a store leaves its log intact exactly when it was there
      already. */
  lemma StrayByte(b: seq<u8>, size: u32, log: seq<Record>, p: nat, x: u8)
    requires Image(b, size, log) && STORE_HEADER <= p < size
    ensures Image(b[p := x], size, log) <==> b[p] == x
  {
    hide Sits, Offset, SizeOf;
    if b[p] == x {
      assert b[p := x] == b;
    } else if p >= End(log) {
      assert b[p] == VAR_DEFAULT_VALUE && b[p := x][p] == x;
    } else if Image(b[p := x], size, log) {
      var k := RecordOf(log, |log|, p);
      assert Sits(b, Offset(log, k), log[k]) && Sits(b[p := x], Offset(log, k), log[k]);
      SitsByte(b, b[p := x], Offset(log, k), log[k], p);
    }
  }

  /** A byte behind the records, other than the first of a record, moves none of them and adds none. */
  lemma WriteBehind(b: seq<u8>, size: u32, log: seq<Record>, p: nat, x: u8)
    requires Image(b, size, log) && End(log) <= p < size && x != 0xaa
    ensures Framed(b[p := x], log) && End(log) + 2 <= |b| && !IsValidVariableHeader(b[p := x], End(log))
  {
    hide Framed, Offset;
    FramedKept(b, b[p := x], log);
  }

  /** A byte other than the one there, written on the start of record n, leaves the records before it and no more. */
  lemma CutHeader(b: seq<u8>, size: u32, log: seq<Record>, n: nat, d: nat, x: u8)
    requires Image(b, size, log) && n < |log| && d < 2 && x != 0xaa && x != 0x55
    ensures var p := Offset(log, n);
      && p + d < |b| && End(log[..n]) == p && p + 2 <= |b|
      && Framed(b[p + d := x], log[..n]) && !IsValidVariableHeader(b[p + d := x], p)
  {
    hide Sits, SizeOf;
    var p := Offset(log, n);
    WalkStep(b, size, log, n);
    OffsetPrefix(log, log[..n], n);
    OffsetGrows(log, n, |log|);
    FramedPrefix(b, log, n);
    FramedKept(b, b[p + d := x], log[..n]);
  }

  lemma FramedPrefix(b: seq<u8>, log: seq<Record>, n: nat)
    requires Framed(b, log) && n <= |log|
    ensures Framed(b, log[..n])
  {
    hide Sits, SizeOf, Offset;
    forall k | 0 <= k < n ensures Sits(b, Offset(log[..n], k), log[..n][k]) {
      OffsetPrefix(log, log[..n], k);
      assert Sits(b, Offset(log, k), log[k]);
    }
  }
}
