/** The variable store seen as a log of records: how a record is found, and what a log means. */
module VariableLog {
  import opened EfiTypes
  import opened Words

  /** Record states. An update first clears bit 0 (in transition), a deletion clears bit 1. */
  const VAR_ADDED: u8 := 0x3f
  const VAR_ADDED_IN_TRANSITION: u8 := 0x3e

  const EFI_VARIABLE_NON_VOLATILE: u32 := 1
  const EFI_VARIABLE_BOOTSERVICE_ACCESS: u32 := 2
  const EFI_VARIABLE_RUNTIME_ACCESS: u32 := 4
  const EFI_VARIABLE_HARDWARE_ERROR_RECORD: u32 := 8
  const EFI_VARIABLE_AUTHENTICATED_WRITE_ACCESS: u32 := 0x10

  /** The C expression `state & VAR_IN_DELETED_TRANSITION`. */
  function MarkTransition(state: u8): u8 { state - state % 2 }

  /** The C expression `state & VAR_DELETED`. */
  function MarkDeleted(state: u8): u8 {
    if state / 2 % 2 == 1 then state - 2 else state
  }

  /** The two marks clear one bit each and touch no other. */
  lemma MarkBits(state: u8, k: nat)
    ensures Bit(MarkTransition(state), k) <==> k != 0 && Bit(state, k)
    ensures Bit(MarkDeleted(state), k) <==> k != 1 && Bit(state, k)
  {
    hide Bit, MarkTransition, MarkDeleted;
    MarkParts(state);
    LowClear(state / 2, state % 2, k);
    BitPush(state / 2, state % 2, if k == 0 then 0 else k - 1);
    BitPush(2 * (state / 4) + 0, state % 2, if k == 0 then 0 else k - 1);
    if k > 0 { LowClear(state / 4, state / 2 % 2, k - 1); }
  }

  lemma MarkParts(state: u8)
    ensures state == 2 * (state / 2) + state % 2 && state / 2 == 2 * (state / 4) + state / 2 % 2
    ensures MarkTransition(state) == 2 * (state / 2) + 0
    ensures MarkDeleted(state) == 2 * (2 * (state / 4) + 0) + state % 2
  {
  }

  lemma LowClear(x: nat, d: nat, k: nat)
    requires d < 2
    ensures Bit(2 * x + 0, k) <==> k != 0 && Bit(2 * x + d, k)
  {
    hide Bit;
    BitPush(x, d, if k == 0 then 0 else k - 1);
    BitPush(x, 0, if k == 0 then 0 else k - 1);
  }

  /** A variable's identity: a name without its terminator, and a vendor GUID. */
  datatype Key = Key(name: seq<u16>, guid: seq<u8>)

  datatype Record = Record(state: u8, reserved: u8, attributes: u32, key: Key, data: seq<u8>)

  /** Bytes of the store header and of a record header. */
  const STORE_HEADER: nat := 28
  const RECORD_HEADER: nat := 32

  /** The length of a name in the store: two bytes a character, and the terminator. */
  function NameSize(k: Key): nat { 2 * |k.name| + 2 }

  function SizeOf(r: Record): (n: nat)
    ensures n >= RECORD_HEADER + 2
  {
    RECORD_HEADER + NameSize(r.key) + |r.data|
  }

  /** Where record n of the log begins in the store; for n == |log|, LastVariableOffset. */
  function Offset(log: seq<Record>, n: nat): (p: nat)
    requires n <= |log|
    ensures p >= STORE_HEADER
  {
    if n == 0 then STORE_HEADER else Offset(log, n - 1) + SizeOf(log[n - 1])
  }

  function End(log: seq<Record>): nat { Offset(log, |log|) }

  lemma {:induction false} OffsetPrefix(log: seq<Record>, log': seq<Record>, n: nat)
    requires n <= |log| && n <= |log'| && forall k :: 0 <= k < n ==> SizeOf(log[k]) == SizeOf(log'[k])
    ensures Offset(log, n) == Offset(log', n)
  {
    if n > 0 { OffsetPrefix(log, log', n - 1); }
  }

  lemma {:induction false} OffsetGrows(log: seq<Record>, i: nat, j: nat)
    requires i < j <= |log|
    ensures Offset(log, i) + SizeOf(log[i]) <= Offset(log, j)
  {
    if i + 1 < j { OffsetGrows(log, i, j - 1); }
  }

  datatype Value = Value(attributes: u32, data: seq<u8>)

  predicate Added(r: Record) { r.state == VAR_ADDED }

  predicate InTransition(r: Record) { r.state == VAR_ADDED_IN_TRANSITION }

  predicate Live(r: Record) { Added(r) || InTransition(r) }

  predicate NonVolatile(r: Record) { TestMask(r.attributes, EFI_VARIABLE_NON_VOLATILE) }

  predicate AtRuntime(r: Record) { TestMask(r.attributes, EFI_VARIABLE_RUNTIME_ACCESS) }

  predicate HardwareError(r: Record) { TestMask(r.attributes, EFI_VARIABLE_HARDWARE_ERROR_RECORD) }

  /** At runtime (rt) only variables with runtime access exist. */
  predicate Visible(r: Record, rt: bool) { Live(r) && (rt ==> AtRuntime(r)) }

  /** The empty name asks for any variable. */
  predicate Matches(r: Record, k: Key) { k.name == [] || r.key == k }

  predicate Hit(r: Record, k: Key, rt: bool) { Visible(r, rt) && Matches(r, k) }

  // ---- Finding ----------------------------------------------------------------------------------

  /** FindVariable's walk from record i, with best the last in-transition hit so far or -1: the first added hit wins,
      and if there is none, the last in-transition hit. */
  function Scan(log: seq<Record>, k: Key, rt: bool, i: nat, best: int): (f: int)
    requires i <= |log| && -1 <= best < |log| && (best >= 0 ==> Hit(log[best], k, rt))
    ensures -1 <= f < |log| && (f >= 0 ==> Hit(log[f], k, rt))
    decreases |log| - i
  {
    if i == |log| then best
    else if Hit(log[i], k, rt) && Added(log[i]) then i
    else Scan(log, k, rt, i + 1, if Hit(log[i], k, rt) then i else best)
  }

  function Find(log: seq<Record>, k: Key, rt: bool): (f: int)
    ensures -1 <= f < |log| && (f >= 0 ==> Hit(log[f], k, rt))
  {
    Scan(log, k, rt, 0, -1)
  }

  function ValueOf(r: Record): Value { Value(r.attributes, r.data) }

  function ValueAt(log: seq<Record>, f: int): Option<Value>
    requires -1 <= f < |log|
  {
    if f < 0 then None else Some(ValueOf(log[f]))
  }

  /** What GetVariable answers. */
  function Lookup(log: seq<Record>, k: Key, rt: bool): Option<Value> {
    ValueAt(log, Find(log, k, rt))
  }

  // ---- What a log means -------------------------------------------------------------------------

  /** The newest of the first n records that is a hit, or -1. */
  function Newest(log: seq<Record>, k: Key, rt: bool, n: nat): (f: int)
    requires n <= |log|
    ensures -1 <= f < n && (f >= 0 ==> Hit(log[f], k, rt)) && forall j :: f < j < n ==> !Hit(log[j], k, rt)
    decreases n
  {
    if n == 0 then -1 else if Hit(log[n - 1], k, rt) then n - 1 else Newest(log, k, rt, n - 1)
  }

  /** The meaning of a log: a variable is its newest live record. */
  function Content(log: seq<Record>, k: Key, rt: bool): Option<Value> {
    ValueAt(log, Newest(log, k, rt, |log|))
  }

  /** Two live records of one key: the older one is in transition and, where access is uniform (u), both have the same
      runtime access. */
  predicate Supersedes(older: Record, newer: Record, u: bool) {
    Live(older) && Live(newer) && older.key == newer.key ==>
      InTransition(older) && (u ==> (AtRuntime(older) <==> AtRuntime(newer)))
  }

  /** The log invariant: per key at most one added record, and every in-transition record of that key precedes it. What
      the runtime sees of a log also needs uniform access. */
  predicate Sound(log: seq<Record>, u: bool) {
    forall i, j :: 0 <= i < j < |log| ==> Supersedes(log[i], log[j], u)
  }

  lemma {:induction false} ScanFindsNewest(log: seq<Record>, k: Key, rt: bool, i: nat, best: int, u: bool)
    requires Sound(log, u) && k.name != [] && i <= |log| && best == Newest(log, k, rt, i)
    ensures Scan(log, k, rt, i, best) == Newest(log, k, rt, |log|)
    decreases |log| - i
  {
    if i < |log| {
      if Hit(log[i], k, rt) && Added(log[i]) {
        forall j | i < j < |log| ensures !Hit(log[j], k, rt) { assert Supersedes(log[i], log[j], u); }
      } else {
        ScanFindsNewest(log, k, rt, i + 1, if Hit(log[i], k, rt) then i else best, u);
      }
    }
  }

  /** In a sound log, "the first added record, else the last in transition" is the newest live record. */
  lemma FindIsNewest(log: seq<Record>, k: Key, rt: bool, u: bool)
    requires Sound(log, u) && k.name != []
    ensures Find(log, k, rt) == Newest(log, k, rt, |log|)
    ensures Lookup(log, k, rt) == Content(log, k, rt)
  {
    ScanFindsNewest(log, k, rt, 0, -1, u);
  }

  // ---- The three changes to a log ---------------------------------------------------------------

  lemma {:induction false} NewestPrefix(log: seq<Record>, log': seq<Record>, k: Key, rt: bool, n: nat)
    requires n <= |log| && n <= |log'| && forall i :: 0 <= i < n ==> Hit(log[i], k, rt) == Hit(log'[i], k, rt)
    ensures Newest(log, k, rt, n) == Newest(log', k, rt, n)
  {
  }

  /** Appending a live record gives its key its value and changes no other key. */
  lemma ContentAppend(log: seq<Record>, r: Record, k: Key, rt: bool)
    ensures Content(log + [r], k, rt) == if Hit(r, k, rt) then Some(ValueOf(r)) else Content(log, k, rt)
  {
    NewestPrefix(log, log + [r], k, rt, |log|);
  }

  lemma {:induction false} ContentConcat(a: seq<Record>, b: seq<Record>, k: Key, rt: bool)
    ensures Content(a + b, k, rt) == if Content(b, k, rt).Some? then Content(b, k, rt) else Content(a, k, rt)
    decreases |b|
  {
    if b == [] {
      assert a + b == a;
    } else {
      var rest, r := b[..|b| - 1], b[|b| - 1];
      assert b == rest + [r] && a + b == (a + rest) + [r];
      ContentConcat(a, rest, k, rt);
      ContentAppend(a + rest, r, k, rt);
      ContentAppend(rest, r, k, rt);
    }
  }

  function SetState(log: seq<Record>, i: nat, state: u8): seq<Record>
    requires i < |log|
  {
    log[i := log[i].(state := state)]
  }

  /** A change of state moves no record. */
  lemma StateKeepsOffset(log: seq<Record>, i: nat, state: u8)
    requires i < |log|
    ensures |SetState(log, i, state)| == |log| && End(SetState(log, i, state)) == End(log)
    ensures Offset(SetState(log, i, state), i) == Offset(log, i)
  {
    OffsetPrefix(log, SetState(log, i, state), i);
    OffsetPrefix(log, SetState(log, i, state), |log|);
  }

  /** Marking the record that is found as in transition is invisible. */
  lemma ContentTransition(log: seq<Record>, i: nat, k: Key, rt: bool)
    requires i < |log| && Live(log[i])
    ensures Content(SetState(log, i, MarkTransition(log[i].state)), k, rt) == Content(log, k, rt)
  {
    NewestPrefix(log, SetState(log, i, MarkTransition(log[i].state)), k, rt, |log|);
  }

  /** Deleting a record leaves every other key alone, and its own key too when a newer record is visible. */
  lemma ContentDelete(log: seq<Record>, i: nat, k: Key, rt: bool)
    requires i < |log| && Live(log[i])
    requires Hit(log[i], k, rt) ==> i < Newest(log, k, rt, |log|)
    ensures Content(SetState(log, i, MarkDeleted(log[i].state)), k, rt) == Content(log, k, rt)
  {
    var log' := SetState(log, i, MarkDeleted(log[i].state));
    var f, f' := Newest(log, k, rt, |log|), Newest(log', k, rt, |log|);
    assert f >= 0 ==> log'[f] == log[f];
    assert f' >= 0 && f' != i ==> log'[f'] == log[f'];
  }

  lemma SoundAppend(log: seq<Record>, r: Record, u: bool)
    requires Sound(log, u)
    ensures Sound(log + [r], u) <==> forall i :: 0 <= i < |log| ==> Supersedes(log[i], r, u)
  {
    if Sound(log + [r], u) {
      forall i | 0 <= i < |log| ensures Supersedes(log[i], r, u) {
        assert Supersedes((log + [r])[i], (log + [r])[|log|], u);
      }
    }
  }

  lemma SoundMark(log: seq<Record>, i: nat, state: u8, u: bool)
    requires Sound(log, u) && i < |log| && state != VAR_ADDED && (Live(log[i]) || state != VAR_ADDED_IN_TRANSITION)
    ensures Sound(SetState(log, i, state), u)
  {
    var log' := SetState(log, i, state);
    forall a, b | 0 <= a < b < |log'| ensures Supersedes(log'[a], log'[b], u) {
      assert Supersedes(log[a], log[b], u);
    }
  }

  // ---- Reclaim ----------------------------------------------------------------------------------

  /** ExistNewerVariable: a later live record has the same key. */
  predicate Newer(log: seq<Record>, i: nat)
    requires i < |log|
  {
    exists j :: i < j < |log| && Live(log[j]) && log[j].key == log[i].key
  }

  /** What Reclaim keeps of record i: an added record as it is; one in transition without a newer one as added, or
      as it is when it is the record cur being updated; nothing else. */
  function Keep(log: seq<Record>, cur: int, i: nat): (kept: seq<Record>)
    requires i < |log|
  {
    var r := log[i];
    if Added(r) then [r]
    else if InTransition(r) && !Newer(log, i) then [if i == cur then r else r.(state := VAR_ADDED)]
    else []
  }

  function CompactFrom(log: seq<Record>, cur: int, i: nat): seq<Record>
    requires i <= |log|
    decreases |log| - i
  {
    if i == |log| then [] else Keep(log, cur, i) + CompactFrom(log, cur, i + 1)
  }

  /** The log after Reclaim. */
  function Compact(log: seq<Record>, cur: int): seq<Record> { CompactFrom(log, cur, 0) }

  lemma ContentOne(r: Record, k: Key, rt: bool)
    ensures Content([r], k, rt) == if Hit(r, k, rt) then Some(ValueOf(r)) else None
  {
    assert [] + [r] == [r];
    ContentAppend([], r, k, rt);
  }

  /** A record Reclaim drops is not the meaning of anything: a newer record of its key follows. */
  lemma DroppedIsCovered(log: seq<Record>, cur: int, i: nat, k: Key, rt: bool, u: bool)
    requires rt ==> u
    requires Sound(log, u) && i < |log| && k.name != [] && Hit(log[i], k, rt) && Keep(log, cur, i) == []
    ensures Content(log[i + 1..], k, rt).Some?
  {
    var j :| i < j < |log| && Live(log[j]) && log[j].key == log[i].key;
    assert Supersedes(log[i], log[j], u);
    assert log[i + 1..][j - i - 1] == log[j];
  }

  lemma ContentKeep(log: seq<Record>, cur: int, i: nat, k: Key, rt: bool, u: bool)
    requires rt ==> u
    requires Sound(log, u) && i < |log| && k.name != [] && Content(log[i + 1..], k, rt).None?
    ensures Content(Keep(log, cur, i), k, rt) == Content([log[i]], k, rt)
  {
    ContentOne(log[i], k, rt);
    if Keep(log, cur, i) != [] {
      ContentOne(Keep(log, cur, i)[0], k, rt);
    } else if Hit(log[i], k, rt) {
      DroppedIsCovered(log, cur, i, k, rt, u);
    }
  }

  lemma {:induction false} ContentCompactFrom(log: seq<Record>, cur: int, i: nat, k: Key, rt: bool, u: bool)
    requires rt ==> u
    requires Sound(log, u) && i <= |log| && k.name != []
    ensures Content(CompactFrom(log, cur, i), k, rt) == Content(log[i..], k, rt)
    decreases |log| - i
  {
    if i < |log| {
      ContentCompactFrom(log, cur, i + 1, k, rt, u);
      ContentConcat(Keep(log, cur, i), CompactFrom(log, cur, i + 1), k, rt);
      ContentConcat([log[i]], log[i + 1..], k, rt);
      assert log[i..] == [log[i]] + log[i + 1..];
      if Content(log[i + 1..], k, rt).None? {
        ContentKeep(log, cur, i, k, rt, u);
      }
    }
  }

  /** Every record kept is kept for one record of the log. */
  lemma {:induction false} CompactOrigin(log: seq<Record>, cur: int, i: nat, m: nat) returns (j: nat)
    requires i <= |log| && m < |CompactFrom(log, cur, i)|
    ensures i <= j < |log| && Keep(log, cur, j) == [CompactFrom(log, cur, i)[m]]
    decreases |log| - i
  {
    if m < |Keep(log, cur, i)| {
      j := i;
    } else {
      j := CompactOrigin(log, cur, i + 1, m - |Keep(log, cur, i)|);
    }
  }

  /** No two records have the same key. */
  predicate Distinct(log: seq<Record>) {
    forall i, j :: 0 <= i < j < |log| ==> log[i].key != log[j].key
  }

  lemma KeptIsNewest(log: seq<Record>, cur: int, i: nat, m: nat, u: bool)
    requires Sound(log, u) && i < |log| && Keep(log, cur, i) != [] && m < |CompactFrom(log, cur, i + 1)|
    ensures CompactFrom(log, cur, i + 1)[m].key != Keep(log, cur, i)[0].key
  {
    var j := CompactOrigin(log, cur, i + 1, m);
    assert Supersedes(log[i], log[j], u);
  }

  lemma {:induction false} CompactFromDistinct(log: seq<Record>, cur: int, i: nat, u: bool)
    requires Sound(log, u) && i <= |log|
    ensures Distinct(CompactFrom(log, cur, i))
    decreases |log| - i
  {
    if i < |log| {
      CompactFromDistinct(log, cur, i + 1, u);
      var first, rest := Keep(log, cur, i), CompactFrom(log, cur, i + 1);
      forall m | 0 <= m < |rest| && first != [] ensures rest[m].key != first[0].key {
        KeptIsNewest(log, cur, i, m, u);
      }
    }
  }

  predicate AllAdded(log: seq<Record>) {
    forall i :: 0 <= i < |log| ==> Added(log[i])
  }

  lemma {:induction false} CompactAdded(log: seq<Record>, i: nat)
    requires AllAdded(log) && i <= |log|
    ensures CompactFrom(log, -1, i) == log[i..]
    decreases |log| - i
  {
    if i < |log| {
      CompactAdded(log, i + 1);
      assert log[i..] == [log[i]] + log[i + 1..];
    }
  }

  /** Reclaim preserves the meaning of every variable, and leaves a sound log without two records of one key. */
  lemma ReclaimPreserves(log: seq<Record>, cur: int, k: Key, rt: bool, u: bool)
    requires rt ==> u
    requires Sound(log, u) && k.name != []
    ensures Sound(Compact(log, cur), u) && Distinct(Compact(log, cur))
    ensures Lookup(Compact(log, cur), k, rt) == Lookup(log, k, rt)
  {
    CompactFromDistinct(log, cur, 0, u);
    ContentCompactFrom(log, cur, 0, k, rt, u);
    assert log[0..] == log;
    FindIsNewest(log, k, rt, u);
    FindIsNewest(Compact(log, cur), k, rt, u);
  }

  /** With no record being updated, all that is left are added records, and a second reclaim changes nothing. */
  lemma ReclaimTwice(log: seq<Record>)
    ensures AllAdded(Compact(log, -1))
    ensures Compact(Compact(log, -1), -1) == Compact(log, -1)
  {
    var log' := Compact(log, -1);
    forall m | 0 <= m < |log'| ensures Added(log'[m]) {
      var j := CompactOrigin(log, -1, 0, m);
    }
    CompactAdded(log', 0);
    assert log'[0..] == log';
  }
}
