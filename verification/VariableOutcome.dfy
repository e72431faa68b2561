/** What a caller of SetVariable is answered, in terms of its arguments, the bits of attributes and states, and the
    bytes the stores hold. */
module VariableOutcome {
  import opened EfiTypes
  import opened Words
  import opened VariableLog
  import opened VariableUpdate
  import opened VariableRun
  import opened VariableRecovery
  import opened VariableEnumeration
  import opened VariableGhosts
  import opened VariableMoves
  import opened VariableServices
  import opened VariableBytes

  // ---- Attributes and states --------------------------------------------------------------------

  predicate NvBit(attributes: nat) { attributes % 2 == 1 }

  predicate BootBit(attributes: nat) { attributes / 2 % 2 == 1 }

  predicate RuntimeBit(attributes: nat) { attributes / 4 % 2 == 1 }

  predicate HwErrBit(attributes: nat) { attributes / 8 % 2 == 1 }

  /** A record that a call for variable k, at runtime or before it, can see: it was written and not deleted. */
  predicate Shows(r: Record, k: Key, rt: bool) {
    (r.state == 0x3f || r.state == 0x3e) && r.key == k && (rt ==> RuntimeBit(r.attributes))
  }

  lemma AttributeBits(r: Record)
    ensures (NonVolatile(r) <==> NvBit(r.attributes)) && (AtRuntime(r) <==> RuntimeBit(r.attributes))
    ensures HardwareError(r) <==> HwErrBit(r.attributes)
  {
  }

  lemma ShowsIsHit(r: Record, k: Key, rt: bool)
    requires k.name != []
    ensures Hit(r, k, rt) <==> Shows(r, k, rt)
  {
  }

  /** A variable is found exactly when a record of it shows; what is found is the newest one, and none shows in the
      other store. */
  lemma FoundIs(s: Stores, k: Key, rt: bool)
    requires Inv(s, false) && k.name != []
    ensures Locate(s, k, rt).None? <==>
      && (forall a :: 0 <= a < |s.nv| ==> !Shows(s.nv[a], k, rt))
      && forall a :: 0 <= a < |s.vol| ==> !Shows(s.vol[a], k, rt)
    ensures Locate(s, k, rt).Some? ==>
      var Track(t, i) := Locate(s, k, rt).value;
      && Shows(s.Get(t)[i], k, rt) && (forall a :: i < a < |s.Get(t)| ==> !Shows(s.Get(t)[a], k, rt))
      && forall a :: 0 <= a < |s.Get(Other(t))| ==> !Shows(s.Get(Other(t))[a], k, rt)
  {
    hide Inv, Find;
    forall r: Record ensures Hit(r, k, rt) <==> Shows(r, k, rt) { ShowsIsHit(r, k, rt); }
    FindSome(s, k, rt);
    if Locate(s, k, rt).Some? { FoundVisible(s, k, rt); }
  }

  lemma FindSome(s: Stores, k: Key, rt: bool)
    ensures Locate(s, k, rt).None? <==>
      (forall a :: 0 <= a < |s.nv| ==> !Hit(s.nv[a], k, rt)) && forall a :: 0 <= a < |s.vol| ==> !Hit(s.vol[a], k, rt)
  {
    ScanAnswer(s.All(), k, rt, 0, -1);
    forall j | 0 <= j < |s.nv| ensures s.All()[j] == s.nv[j] {}
    forall j | 0 <= j < |s.vol| ensures s.All()[|s.nv| + j] == s.vol[j] {}
  }

  // ---- Deleting ---------------------------------------------------------------------------------

  /** No data, or an attribute set that gives access neither before the runtime nor at it. */
  predicate AsksToDelete(q: Request) {
    q.data == [] || !(BootBit(q.attributes) || RuntimeBit(q.attributes))
  }

  lemma DeletesIs(q: Request)
    ensures Deletes(q) <==> AsksToDelete(q)
    ensures StoreOf(q) == if NvBit(q.attributes) then NvStore else VolatileStore
  {
  }

  /** At runtime a variable of the volatile store is read-only, and only a non-volatile one may be changed. */
  predicate MayChange(s: Stores, f: Track, rt: bool)
    requires f.i < |s.Get(f.t)|
  {
    rt ==> f.t.NvStore? && NvBit(s.Get(f.t)[f.i].attributes)
  }

  /** What a deletion is answered, and what it leaves: nothing is written for a variable that is not found or may not be
      changed; otherwise one state byte, and the variable reads as the next older record that shows, if any. */
  lemma DeleteOutcome(s: Stores, sizes: Sizes, q: Request, rt: bool)
    requires Inv(s, false) && q.key.name != [] && AsksToDelete(q)
    ensures var run, f := SetRun(s, sizes, q, rt), Locate(s, q.key, rt);
      run.Run? &&
      if f.None? then run.status == EFI_NOT_FOUND && run.states == [s]
      else
        var Track(t, i) := f.value;
        && (run.status == EFI_SUCCESS <==> MayChange(s, f.value, rt))
        && (run.status != EFI_SUCCESS ==>
              && run.states == [s]
              && run.status == if t.VolatileStore? then EFI_WRITE_PROTECTED else EFI_INVALID_PARAMETER)
        && (run.status == EFI_SUCCESS ==>
              var log, x := s.Get(t), Last(run.states);
              && run.states == [s, x]
              && x == s.Set(t, log[i := log[i].(state := if log[i].state == 0x3f then 0x3d else 0x3c)])
              && Meaning(x, q.key, rt) == ValueAt(log, Newest(log, q.key, rt, i)))
  {
    hide Inv, Meaning, Find, Newest;
    DeletesIs(q);
    if Locate(s, q.key, rt).Some? && MayChange(s, Locate(s, q.key, rt).value, rt) {
      DeletingShowsGhost(s, sizes, q, rt, false);
      FoundVisible(s, q.key, rt);
      OlderIn(s, q.key, rt);
    }
  }

  /** Older records of the variable found stand in its own store only. */
  lemma OlderIn(s: Stores, k: Key, rt: bool)
    requires Inv(s, false) && k.name != [] && Locate(s, k, rt).Some?
    ensures var Track(t, i) := Locate(s, k, rt).value;
      && -1 <= Newest(s.Get(t), k, rt, i) < |s.Get(t)|
      && ValueAt(s.All(), Newest(s.All(), k, rt, Find(s.All(), k, rt))) ==
         ValueAt(s.Get(t), Newest(s.Get(t), k, rt, i))
  {
    hide Inv, Newest, Find, Absent, Hit, ValueAt, Locate;
    FoundVisible(s, k, rt);
    FoundAt(s, k, rt);
    var Track(t, i) := Locate(s, k, rt).value;
    if t.NvStore? { OlderLeft(s.nv, s.vol, k, rt, i); } else { OlderRight(s.nv, s.vol, k, rt, i); }
  }

  lemma FoundAt(s: Stores, k: Key, rt: bool)
    requires Locate(s, k, rt).Some?
    ensures var Track(t, i) := Locate(s, k, rt).value;
      Find(s.All(), k, rt) == (if t.NvStore? then i else |s.nv| + i) && s.All() == s.nv + s.vol
  {
  }

  lemma OlderLeft(a: seq<Record>, b: seq<Record>, k: Key, rt: bool, i: nat)
    requires i < |a|
    ensures -1 <= Newest(a, k, rt, i) < |a|
    ensures ValueAt(a + b, Newest(a + b, k, rt, i)) == ValueAt(a, Newest(a, k, rt, i))
  {
    hide Newest, Hit;
    NewestPrefix(a + b, a, k, rt, i);
  }

  lemma OlderRight(a: seq<Record>, b: seq<Record>, k: Key, rt: bool, i: nat)
    requires i < |b| && Absent(a, k) && k.name != []
    ensures -1 <= Newest(b, k, rt, i) < |b|
    ensures ValueAt(a + b, Newest(a + b, k, rt, |a| + i)) == ValueAt(b, Newest(b, k, rt, i))
  {
    hide Newest, Hit;
    NewestAll(a, b, k, rt, i);
    NoneHere(a, k, rt, |a|);
  }

  lemma {:induction false} NoneHere(log: seq<Record>, k: Key, rt: bool, n: nat)
    requires Absent(log, k) && k.name != [] && n <= |log|
    ensures Newest(log, k, rt, n) == -1
  {
    if n > 0 { NoneHere(log, k, rt, n - 1); }
  }

  // ---- Room -------------------------------------------------------------------------------------

  /** A record takes 32 bytes, its name with a terminator, and its data. */
  function RecordBytes(k: Key, data: seq<u8>): nat { 32 + 2 * (|k.name| + 1) + |data| }

  /** The bytes in use: the store header and every record, whatever its state. */
  function UsedBytes(log: seq<Record>): nat {
    if log == [] then 28
    else UsedBytes(log[..|log| - 1]) + RecordBytes(log[|log| - 1].key, log[|log| - 1].data)
  }

  /** The newest live record of its variable. */
  predicate IsLatest(log: seq<Record>, i: nat)
    requires i < |log|
  {
    && (log[i].state == 0x3f || log[i].state == 0x3e)
    && forall j :: i < j < |log| && log[j].key == log[i].key ==> log[j].state != 0x3f && log[j].state != 0x3e
  }

  /** The bytes worth keeping: the newest live record of every variable, from record i on. */
  function LatestBytes(log: seq<Record>, i: nat): nat
    requires i <= |log|
    decreases |log| - i
  {
    if i == |log| then 0
    else (if IsLatest(log, i) then RecordBytes(log[i].key, log[i].data) else 0) + LatestBytes(log, i + 1)
  }

  lemma {:induction false} UsedIs(log: seq<Record>)
    ensures UsedBytes(log) == End(log)
  {
    if log != [] {
      var front := log[..|log| - 1];
      UsedIs(front);
      OffsetPrefix(front, log, |front|);
    }
  }

  lemma {:induction false} EndConcat(a: seq<Record>, b: seq<Record>)
    ensures End(a + b) + 28 == End(a) + End(b)
    decreases |b|
  {
    if b == [] {
      assert a + b == a;
    } else {
      var front := b[..|b| - 1];
      EndConcat(a, front);
      assert (a + b)[..|a + b| - 1] == a + front;
      UsedIs(a + b);
      UsedIs(a + front);
      UsedIs(b);
      UsedIs(front);
    }
  }

  lemma KeptIsLatest(log: seq<Record>, cur: int, i: nat, u: bool)
    requires Sound(log, u) && i < |log|
    ensures End(Keep(log, cur, i)) == 28 + if IsLatest(log, i) then RecordBytes(log[i].key, log[i].data) else 0
  {
    var kept := Keep(log, cur, i);
    UsedIs(kept);
    if Added(log[i]) {
      forall j | i < j < |log| && log[j].key == log[i].key ensures log[j].state != 0x3f && log[j].state != 0x3e {
        assert Supersedes(log[i], log[j], u);
      }
    }
    assert kept != [] ==> kept[..0] == [] && UsedBytes(kept[..0]) == 28;
  }

  /** A reclaim leaves the bytes worth keeping and no others. */
  lemma {:induction false} CompactBytes(log: seq<Record>, cur: int, i: nat, u: bool)
    requires Sound(log, u) && i <= |log|
    ensures End(CompactFrom(log, cur, i)) == 28 + LatestBytes(log, i)
    decreases |log| - i
  {
    hide Sound, Keep, End, IsLatest;
    if i == |log| {
      UsedIs([]);
    } else {
      KeptIsLatest(log, cur, i, u);
      CompactBytes(log, cur, i + 1, u);
      EndConcat(Keep(log, cur, i), CompactFrom(log, cur, i + 1));
    }
  }

  /** What a reclaim keeps: the newest live record of every variable in log order, as an added record; only the record
      under update stays in transition. */
  function LatestRecords(log: seq<Record>, cur: int, i: nat): seq<Record>
    requires i <= |log|
    decreases |log| - i
  {
    if i == |log| then []
    else
      (if IsLatest(log, i) then [log[i].(state := if i == cur then log[i].state else 0x3f)] else []) +
      LatestRecords(log, cur, i + 1)
  }

  lemma {:induction false} CompactIs(log: seq<Record>, cur: int, i: nat, u: bool)
    requires Sound(log, u) && i <= |log|
    ensures CompactFrom(log, cur, i) == LatestRecords(log, cur, i)
    decreases |log| - i
  {
    hide Sound;
    if i < |log| {
      CompactIs(log, cur, i + 1, u);
      KeepIs(log, cur, i, u);
    }
  }

  lemma KeepIs(log: seq<Record>, cur: int, i: nat, u: bool)
    requires Sound(log, u) && i < |log|
    ensures Keep(log, cur, i) ==
      if IsLatest(log, i) then [log[i].(state := if i == cur then log[i].state else 0x3f)] else []
  {
    LatestIs(log, i);
    if Added(log[i]) {
      forall j | i < j < |log| && Live(log[j]) ensures log[j].key != log[i].key {
        assert Supersedes(log[i], log[j], u);
      }
    }
  }

  /** Where the records of a store stand in its memory: the first behind 28 bytes of header, each behind the one before,
      and nothing but erased bytes behind the last. */
  lemma ImageIs(b: seq<u8>, size: u32, log: seq<Record>)
    requires Image(b, size, log)
    ensures UsedBytes(log) <= size && |b| == size + 2
    ensures forall i :: UsedBytes(log) <= i < size ==> b[i] == 0xff
    ensures forall k :: 0 <= k < |log| ==>
      var p := UsedBytes(log[..k]);
      WellFormed(log[k]) && p + |Encode(log[k])| <= size && b[p..p + |Encode(log[k])|] == Encode(log[k])
  {
    hide Encode, SizeOf;
    UsedIs(log);
    forall k | 0 <= k < |log|
      ensures var p := UsedBytes(log[..k]);
        WellFormed(log[k]) && p + |Encode(log[k])| <= size && b[p..p + |Encode(log[k])|] == Encode(log[k])
    {
      UsedIs(log[..k]);
      OffsetPrefix(log[..k], log, k);
      assert Sits(b, Offset(log, k), log[k]);
      OffsetGrows(log, k, |log|);
    }
  }

  lemma {:induction false} MarkedLatest(log: seq<Record>, n: nat, i: nat)
    requires n < |log| && Live(log[n]) && i <= |log|
    ensures LatestBytes(SetState(log, n, VAR_ADDED_IN_TRANSITION), i) == LatestBytes(log, i)
    decreases |log| - i
  {
    var log' := SetState(log, n, VAR_ADDED_IN_TRANSITION);
    if i < |log| {
      assert IsLatest(log', i) <==> IsLatest(log, i) by {
        forall j | 0 <= j < |log| ensures Live(log'[j]) == Live(log[j]) && log'[j].key == log[j].key {}
        LatestIs(log, i);
        LatestIs(log', i);
      }
      MarkedLatest(log, n, i + 1);
    }
  }

  lemma LatestIs(log: seq<Record>, i: nat)
    requires i < |log|
    ensures IsLatest(log, i) <==> Live(log[i]) && forall j :: i < j < |log| && Live(log[j]) ==> log[j].key != log[i].key
  {
  }

  // ---- Storing ----------------------------------------------------------------------------------

  /** So many bytes in use leave room for the new record; the source adds in 32 bits. */
  predicate RoomIn(used: nat, q: Request, size: nat) {
    (RecordBytes(q.key, q.data) + used) % 0x1_0000_0000 <= size
  }

  /** The store that the attributes ask for, and its size. */
  function Target(s: Stores, q: Request): seq<Record> { if NvBit(q.attributes) then s.nv else s.vol }

  function TargetSize(sizes: Sizes, q: Request): nat { if NvBit(q.attributes) then sizes.nv else sizes.vol }

  /** The new record fits at once, or after a reclaim, which the non-volatile store does not get at runtime. */
  predicate RoomFor(s: Stores, sizes: Sizes, q: Request, rt: bool) {
    || RoomIn(UsedBytes(Target(s, q)), q, TargetSize(sizes, q))
    || (!(rt && NvBit(q.attributes)) && RoomIn(28 + LatestBytes(Target(s, q), 0), q, TargetSize(sizes, q)))
  }

  /** The states before the new record is stored: the call's first, and one more with the record found marked. */
  function Prepared(s: Stores, f: Option<Track>): seq<Stores>
    requires f.Some? ==> f.value.i < |s.Get(f.value.t)|
  {
    if f.None? then [s]
    else [s, s.Set(f.value.t, SetState(s.Get(f.value.t), f.value.i, VAR_ADDED_IN_TRANSITION))]
  }

  lemma PreparedBytes(s: Stores, q: Request, f: Option<Track>)
    requires Inv(s, false) && (f.Some? ==> f.value.i < |s.Get(f.value.t)| && Live(s.Get(f.value.t)[f.value.i]))
    ensures var log := Last(Prepared(s, f)).Get(StoreOf(q));
      && Sound(log, false) && UsedBytes(log) == UsedBytes(Target(s, q))
      && LatestBytes(log, 0) == LatestBytes(Target(s, q), 0)
  {
    hide Inv, LatestBytes, UsedBytes, Sound;
    DeletesIs(q);
    SoundOf(s, StoreOf(q), false);
    if f.Some? {
      var Track(t, i) := f.value;
      SoundOf(s, t, false);
      SoundMark(s.Get(t), i, VAR_ADDED_IN_TRANSITION, false);
      MarkedLatest(s.Get(t), i, 0);
      StateKeepsOffset(s.Get(t), i, VAR_ADDED_IN_TRANSITION);
      UsedIs(s.Get(t));
      UsedIs(SetState(s.Get(t), i, VAR_ADDED_IN_TRANSITION));
    }
  }

  /** The new record stands last in the store that the attributes ask for. */
  predicate Stands(q: Request, x: Stores) {
    && Target(x, q) != []
    && Target(x, q)[|Target(x, q)| - 1] == Record(0x3f, 0, q.attributes, q.key, q.data)
  }

  lemma StoredStands(states: seq<Stores>, sizes: Sizes, q: Request, f: Option<Track>, rt: bool)
    requires states != [] && (f.Some? ==> f.value.i < |Last(states).Get(f.value.t)|)
    requires Stored(StoreNew(states, sizes, q, f, rt))
    ensures StoreNew(states, sizes, q, f, rt).states != [] && Stands(q, Last(StoreNew(states, sizes, q, f, rt).states))
  {
    hide Compact, Fits, Offset;
    DeletesIs(q);
  }

  lemma CompactWhole(log: seq<Record>, cur: int)
    requires Sound(log, false)
    ensures End(Compact(log, cur)) == 28 + LatestBytes(log, 0)
  {
    CompactBytes(log, cur, 0, false);
  }

  lemma FitsIs(log: seq<Record>, q: Request, size: nat)
    ensures Fits(log, NewRecord(q), size) <==> RoomIn(End(log), q, size)
  {
  }

  lemma StoreNewIs(s: Stores, sizes: Sizes, q: Request, f: Option<Track>, rt: bool)
    requires Inv(s, false) && (f.Some? ==> f.value.i < |s.Get(f.value.t)| && Live(s.Get(f.value.t)[f.value.i]))
    ensures var run := StoreNew(Prepared(s, f), sizes, q, f, rt);
      && (Stored(run) <==> RoomFor(s, sizes, q, rt))
      && (!Stored(run) ==> run.status == EFI_OUT_OF_RESOURCES)
      && (Stored(run) ==> run.states != [] && Stands(q, Last(run.states)))
  {
    hide Inv, UsedBytes, LatestBytes, Compact, Offset, Sound, Fits, RoomIn;
    DeletesIs(q);
    PreparedBytes(s, q, f);
    var log := Last(Prepared(s, f)).Get(StoreOf(q));
    UsedIs(log);
    CompactWhole(log, Current(f, StoreOf(q)));
    FitsIs(log, q, sizes.Get(StoreOf(q)));
    FitsIs(Compact(log, Current(f, StoreOf(q))), q, sizes.Get(StoreOf(q)));
    if Stored(StoreNew(Prepared(s, f), sizes, q, f, rt)) { StoredStands(Prepared(s, f), sizes, q, f, rt); }
  }

  /** At runtime a variable may only be created non-volatile and with runtime access. */
  predicate MayCreate(q: Request, rt: bool) { rt ==> RuntimeBit(q.attributes) && NvBit(q.attributes) }

  /** What any other request is answered: it is refused if it may not change what it finds, or create what it does not
      find; finds its data already there; or is stored exactly when there is room for it. */
  lemma StoreOutcome(s: Stores, sizes: Sizes, q: Request, rt: bool)
    requires Inv(s, false) && q.key.name != [] && !AsksToDelete(q)
    ensures var run, f := SetRun(s, sizes, q, rt), Locate(s, q.key, rt);
      if f.None? && !MayCreate(q, rt) then run == Run(EFI_INVALID_PARAMETER, [s], -1)
      else if f.Some? && !MayChange(s, f.value, rt) then
        run == Run(if f.value.t.VolatileStore? then EFI_WRITE_PROTECTED else EFI_INVALID_PARAMETER, [s], -1)
      else if f.Some? && s.Get(f.value.t)[f.value.i].data == q.data then run == Run(EFI_SUCCESS, [s], -1)
      else
        && (Stored(run) <==> RoomFor(s, sizes, q, rt))
        && (!Stored(run) ==> run.status == EFI_OUT_OF_RESOURCES)
        && (Stored(run) ==> Stands(q, Last(run.states)))
  {
    hide Inv, StoreNew, RoomFor, Stands;
    DeletesIs(q);
    var f := Locate(s, q.key, rt);
    if f.Some? {
      MarkLive(s.Get(f.value.t)[f.value.i]);
      StoreNewIs(s, sizes, q, f, rt);
    } else {
      StoreNewIs(s, sizes, q, f, rt);
    }
  }
}
