/** The variable services over the two stores. */
module FsVariable {
  import opened EfiTypes
  import opened Words
  import opened VariableLog
  import opened VariableUpdate
  import opened VariableRun
  import opened VariableRecovery
  import opened VariableEnumeration
  import opened VariableBytes
  import opened VariableJournal
  import opened FsStore

  class VariableGlobal {
    const nv: VariableStore
    const vol: VariableStore

    ghost predicate Valid()
      reads this, nv, vol, nv.mem, vol.mem
    {
      Paired() && nv.Valid() && vol.Valid()
    }

    /** Two stores with memories of their own, of at most 4 GB, and one journal. */
    ghost predicate Paired() {
      && nv != vol && nv.mem != vol.mem && nv.journal == vol.journal && nv.t.NvStore? && vol.t.VolatileStore?
      && STORE_HEADER + 2 <= nv.mem.Length <= 0x1_0000_0001 && STORE_HEADER + 2 <= vol.mem.Length <= 0x1_0000_0001
    }

    ghost function Logs(): Stores
      reads nv, vol
    {
      Stores(nv.log, vol.log)
    }

    ghost function Capacity(): Sizes
      requires Paired()
    {
      Sizes(nv.mem.Length - 2, vol.mem.Length - 2)
    }

    function Store(t: StoreType): VariableStore { if t.NvStore? then nv else vol }

    constructor (nvStore: VariableStore, volStore: VariableStore)
      requires nvStore != volStore && nvStore.mem != volStore.mem && nvStore.Valid() && volStore.Valid()
      requires nvStore.journal == volStore.journal && nvStore.t.NvStore? && volStore.t.VolatileStore?
      ensures Valid() && nv == nvStore && vol == volStore
    {
      nv, vol := nvStore, volStore;
    }

    /** CurrPtr, and the store it points into; -1 is NULL. */
    method FindVariable(k: Key, rt: bool) returns (status: Status, t: StoreType, curr: int, ghost n: nat)
      requires Valid() && 0 !in k.name
      ensures Locate(Logs(), k, rt).None? ==> status == EFI_NOT_FOUND && curr == -1
      ensures Locate(Logs(), k, rt).Some? ==>
        status == EFI_SUCCESS && Locate(Logs(), k, rt) == Some(Track(t, n)) && curr == Offset(Logs().Get(t), n)
    {
      hide Hit, Offset, Scan, Image, Locate, Joint, Find;
      FindIsScan(Logs(), k, rt);
      ghost var all := Logs().All();
      AllParts(Logs());
      var found, inDelete;
      found, inDelete, n := nv.Search(k, rt, all, 0, -1);
      if found >= 0 {
        LocateAt(Logs(), k, rt, NvStore, n);
        return EFI_SUCCESS, NvStore, found, n;
      }
      ghost var best := if inDelete >= 0 then n else -1;
      var found', inDelete', n' := vol.Search(k, rt, all, |nv.log|, best);
      if found' >= 0 {
        LocateAt(Logs(), k, rt, VolatileStore, n');
        return EFI_SUCCESS, VolatileStore, found', n';
      }
      ScanEnd(all, k, rt, if inDelete' >= 0 then |nv.log| + n' else best);
      if inDelete' >= 0 {
        LocateAt(Logs(), k, rt, VolatileStore, n');
        return EFI_SUCCESS, VolatileStore, inDelete', n';
      }
      if inDelete >= 0 {
        LocateAt(Logs(), k, rt, NvStore, n);
        return EFI_SUCCESS, NvStore, inDelete, n;
      }
      LocateNone(Logs(), k, rt);
      return EFI_NOT_FOUND, NvStore, -1, 0;
    }

    method GetVariable(k: Key, size: nat, rt: bool)
      returns (status: Status, attributes: u32, dataSize: nat, data: seq<u8>)
      requires Valid() && 0 !in k.name
      ensures Meaning(Logs(), k, rt).None? ==> status == EFI_NOT_FOUND
      ensures Meaning(Logs(), k, rt).Some? ==>
        var v := Meaning(Logs(), k, rt).value;
        && dataSize == |v.data| && status == (if size >= |v.data| then EFI_SUCCESS else EFI_BUFFER_TOO_SMALL)
        && (status == EFI_SUCCESS ==> data == v.data && attributes == v.attributes)
    {
      hide Image, Framed, Offset, Sits, GetVariableDataPtr, AttributesAt, Find;
      var t, curr;
      ghost var n;
      status, t, curr, n := FindVariable(k, rt);
      attributes, dataSize, data := 0, 0, [];
      if curr < 0 { return; }
      var b := Store(t).mem[..];
      ghost var log := Logs().Get(t);
      Walk(b, |b| - 2, log, n);
      Fields(b, curr, log[n]);
      DataInside(b, curr, log[n]);
      dataSize := DataSizeAt(b, curr);
      if size >= dataSize {
        data := b[GetVariableDataPtr(b, curr)..GetVariableDataPtr(b, curr) + dataSize];
        attributes := AttributesAt(b, curr);
      } else {
        status := EFI_BUFFER_TOO_SMALL;
      }
    }

    /** The walk of GetNextVariableName through the rest of one store and then, from the first store, the second. */
    method WalkStores(t: StoreType, v: nat, rt: bool, ghost i: nat) returns (t': StoreType, p: int, ghost n: nat)
      requires Valid() && i <= |Logs().Get(t)| && v == Offset(Logs().Get(t), i)
      ensures var next := NextVisible(Logs().All(), rt, Joint(Logs(), t, i));
        if next < |Logs().All()| then
          n < |Logs().Get(t')| && p == Offset(Logs().Get(t'), n) && next == Joint(Logs(), t', n)
        else p == -1
    {
      hide Image, Offset, NextVisible;
      p, n := Store(t).NextLive(v, rt, i);
      t' := t;
      NextInStores(Logs(), rt, t, i);
      if p < 0 && t.NvStore? {
        t' := VolatileStore;
        FirstOffset(vol.log);
        p, n := vol.NextLive(STORE_HEADER, rt, 0);
      }
    }

    /** The name after k, as it is stored, and its vendor. */
    method GetNextVariableName(size: nat, k: Key, rt: bool)
      returns (status: Status, nameSize: nat, name: seq<u8>, guid: seq<u8>)
      requires Valid() && 0 !in k.name
      ensures var n := NextAfter(Logs().All(), k, rt);
        if n == |Logs().All()| then status == EFI_NOT_FOUND
        else
          var next := Logs().All()[n].key;
          && nameSize == NameSize(next)
          && status == (if NameSize(next) <= size then EFI_SUCCESS else EFI_BUFFER_TOO_SMALL)
          && (status == EFI_SUCCESS ==> name == NameBytes(next.name) && guid == next.guid)
    {
      hide Image, Framed, Offset, Sits, GetVariableDataPtr, AttributesAt, Find, NameBytes, NextVisible, NextAfter,
        Locate, Joint;
      NextOfLocated(Logs(), k, rt);
      var t, curr;
      ghost var i;
      status, t, curr, i := FindVariable(k, rt);
      nameSize, name, guid := 0, [], [];
      if curr < 0 { return; }
      if k.name != [] {
        var b := Store(t).mem[..];
        Walk(b, |b| - 2, Logs().Get(t), i);
        curr := GetNextVariablePtr(b, curr);
        i := i + 1;
      }
      ghost var n;
      t, curr, n := WalkStores(t, curr, rt, i);
      JointAt(Logs(), t, n);
      if curr < 0 {
        status := EFI_NOT_FOUND;
      } else {
        status, nameSize, name, guid := CopyName(t, curr, size, n);
      }
    }

    // ---- Setting --------------------------------------------------------------------------------

    /** A record's size added to a store's never wraps, so the source's truncated test is exact. */
    ghost predicate Room(q: Request)
      requires Paired()
    {
      && WellFormed(NewRecord(q))
      && SizeOf(NewRecord(q)) + Capacity().nv < 0x1_0000_0000 && SizeOf(NewRecord(q)) + Capacity().vol < 0x1_0000_0000
    }

    /** A deletion mark that goes astray stays inside the store it goes to; the source does not check it. */
    ghost predicate Inside(run: Run, to: StoreType)
      requires Paired()
    {
      run.Stray? ==> run.at < Capacity().Get(to)
    }

    /** These writes have taken the stores through the states of the run: after each of them the memory written is an
        image of the next state's log, and the logs are those of the last state. A mark that went astray is one more
        write, of one byte, after which the store it went to need not be valid. */
    ghost predicate Done(run: Run, to: StoreType, status: Status, writes: seq<Write>)
      requires Paired()
      reads this, nv, vol, nv.mem, vol.mem
    {
      && run.states != [] && Logs() == Last(run.states)
      && match run
         case Run(result, states, erased) => Valid() && status == result &&
           Recorded(writes, Capacity(), states, erased, to)
         case Stray(states, at, mark) =>
           var n := |writes| - 1;
           && status == EFI_SUCCESS && Store(Other(to)).Valid() && n > 0
           && Recorded(writes[..n], Capacity(), states, -1, to) && writes[n - 1].t == to && at < |writes[n - 1].bytes|
           && writes[n] == Write(to, writes[n - 1].bytes[at := mark]) && Store(to).mem[..] == writes[n].bytes
    }

    /** UpdateVariable's last write: the state of the record at curr, marked deleted, to the store of the new record. */
    method MarkOld(to: StoreType, t: StoreType, curr: nat, ghost i: nat)
      requires Valid() && i < |Logs().Get(t)| && curr == Offset(Logs().Get(t), i)
      requires t != to ==> curr + 2 < Capacity().Get(to)
      modifies nv`log, nv.mem, vol`log, vol.mem, nv.journal
      ensures var s, mark := old(Logs()), MarkDeleted(old(Logs()).Get(t)[i].state);
        && nv.journal.writes == old(nv.journal.writes) + [Write(to, Store(to).mem[..])]
        && nv.last == old(nv.last) && vol.last == old(vol.last)
        && (t == to ==> Valid() && Logs() == s.Set(t, SetState(s.Get(t), i, mark)))
        && (t != to ==> Store(t).Valid() && Logs() == s
                        && curr + 2 < |old(Store(to).mem[..])| &&
                          Store(to).mem[..] == old(Store(to).mem[..])[curr + 2 := mark])
    {
      hide Image, Framed, Offset, Sits, SizeOf, SetState;
      ghost var b := Store(to).mem[..];
      Walk(Store(t).mem[..], Store(t).mem.Length - 2, Logs().Get(t), i);
      var state := MarkDeleted(StateAt(Store(t).mem[..], curr));
      if t == to {
        Store(to).WriteState(curr, state, i);
      } else {
        Store(to).WriteStore(curr + 2, [state]);
        assert Overwrite(b, curr + 2, [state]) == b[curr + 2 := state];
      }
    }

    /** The append of the new record, and its journal entry. */
    method AppendNew(q: Request, ghost states: seq<Stores>, ghost erased: int, ghost before: seq<Write>)
      returns (ghost writes: seq<Write>)
      requires Valid() && Room(q) && states != [] && Last(states) == Logs() && erased != |states|
      requires Recorded(before, Capacity(), states, erased, StoreOf(q))
      requires SizeOf(NewRecord(q)) + Store(StoreOf(q)).last <= Capacity().Get(StoreOf(q))
      modifies nv`log, nv`last, nv.mem, vol`log, vol`last, vol.mem, nv.journal
      ensures Valid() && Logs() == old(Logs()).Set(StoreOf(q), old(Logs()).Get(StoreOf(q)) + [NewRecord(q)])
      ensures writes == before + [Write(StoreOf(q), Store(StoreOf(q)).mem[..])]
      ensures nv.journal.writes == old(nv.journal.writes) + [Write(StoreOf(q), Store(StoreOf(q)).mem[..])]
      ensures Recorded(writes, Capacity(), states + [Logs()], erased, StoreOf(q))
    {
      hide Image, Offset, SizeOf, WellFormed, Encode, Recorded, Shows, End;
      Store(StoreOf(q)).Append(NewRecord(q));
      writes := Log(Capacity(), states, erased, StoreOf(q), before, Logs());
    }

    /** The new record fits: append it and mark the old one deleted. */
    method StoreFitting(q: Request, t: StoreType, curr: int, rt: bool, ghost f: Option<Track>,
                        ghost states: seq<Stores>, ghost before: seq<Write>)
      returns (status: Status, ghost writes: seq<Write>)
      requires Valid() && Room(q) && states != [] && Last(states) == Logs()
      requires Recorded(before, Capacity(), states, -1, StoreOf(q))
      requires if f.None? then curr == -1 else
        f.value.t == t && f.value.i < |Logs().Get(t)| && curr == Offset(Logs().Get(t), f.value.i)
      requires Fits(Logs().Get(StoreOf(q)), NewRecord(q), Capacity().Get(StoreOf(q)))
      requires Inside(StoreNew(states, Capacity(), q, f, rt), StoreOf(q))
      modifies nv`log, nv`last, nv.mem, vol`log, vol`last, vol.mem, nv.journal
      ensures before <= writes && nv.journal.writes == old(nv.journal.writes) + writes[|before|..]
      ensures Done(StoreNew(states, Capacity(), q, f, rt), StoreOf(q), status, writes)
    {
      hide Image, Offset, SizeOf, Compact, MarkDeleted, SetState, WellFormed, Encode, Recorded, Shows, StoreNew;
      var to := StoreOf(q);
      ghost var s := Logs();
      FittingRun(states, Capacity(), q, f, rt);
      SizeIs(Store(to).mem[..], Store(to).mem.Length - 2, Store(to).log);
      writes := AppendNew(q, states, -1, before);
      ghost var s1 := Logs();
      if curr >= 0 {
        OffsetPrefix(s.Get(t), s1.Get(t), f.value.i);
        MarkOld(to, t, curr, f.value.i);
        if t == to {
          writes := Log(Capacity(), states + [s1], -1, to, writes, Logs());
        } else {
          writes := writes + [Write(to, Store(to).mem[..])];
        }
      }
      status := EFI_SUCCESS;
    }

    /** The reclaim of a store, and its two journal entries. */
    method ReclaimLogged(to: StoreType, cur: int, ghost curIndex: int,
                         ghost states: seq<Stores>, ghost before: seq<Write>)
      returns (ghost writes: seq<Write>)
      requires Valid() && states != [] && Last(states) == Logs() && Recorded(before, Capacity(), states, -1, to)
      requires -1 <= curIndex < |Logs().Get(to)|
      requires if curIndex < 0 then cur < 0 else cur == Offset(Logs().Get(to), curIndex)
      modifies nv`log, nv`last, nv.mem, vol`log, vol`last, vol.mem, nv.journal
      ensures Valid() && Logs() == old(Logs()).Set(to, Compact(old(Logs()).Get(to), curIndex))
      ensures |writes| == |before| + 2 && before <= writes
      ensures nv.journal.writes == old(nv.journal.writes) + writes[|before|..]
      ensures Recorded(writes, Capacity(), states + [old(Logs()).Set(to, []), Logs()], |states|, to)
    {
      hide Image, Offset, Compact, Recorded, Wiped;
      ghost var s := Logs();
      var common, hwErr;
      ghost var blank;
      common, hwErr, blank := Store(to).Reclaim(cur, curIndex);
      writes := LogReclaim(Capacity(), states, to, before, s, blank);
    }

    /** It does not fit: reclaim its store, and append it if it fits then. */
    method StoreReclaiming(q: Request, t: StoreType, curr: int, rt: bool, ghost f: Option<Track>,
                           ghost states: seq<Stores>, ghost before: seq<Write>)
      returns (status: Status, ghost writes: seq<Write>)
      requires Valid() && Room(q) && states != [] && Last(states) == Logs()
      requires Recorded(before, Capacity(), states, -1, StoreOf(q))
      requires if f.None? then curr == -1 else
        f.value.t == t && f.value.i < |Logs().Get(t)| && curr == Offset(Logs().Get(t), f.value.i)
      requires !Fits(Logs().Get(StoreOf(q)), NewRecord(q), Capacity().Get(StoreOf(q))) && !(StoreOf(q).NvStore? && rt)
      modifies nv`log, nv`last, nv.mem, vol`log, vol`last, vol.mem, nv.journal
      ensures before <= writes && nv.journal.writes == old(nv.journal.writes) + writes[|before|..]
      ensures Done(StoreNew(states, Capacity(), q, f, rt), StoreOf(q), status, writes)
    {
      hide Image, Offset, SizeOf, Compact, MarkDeleted, SetState, WellFormed, Encode, Recorded, Shows, Wiped,
        StoreNew;
      var r, to := NewRecord(q), StoreOf(q);
      var store := Store(to);
      ghost var s := Logs();
      ReclaimingRun(states, Capacity(), q, f, rt);
      writes := ReclaimLogged(to, if to == t then curr else -1, Current(f, to), states, before);
      ghost var s2 := Logs();
      SizeIs(store.mem[..], store.mem.Length - 2, store.log);
      if (SizeOf(r) + store.last) % 0x1_0000_0000 > store.mem.Length - 2 { return EFI_OUT_OF_RESOURCES, writes; }
      writes := AppendNew(q, states + [s.Set(to, []), s2], |states|, writes);
      status := EFI_SUCCESS;
    }

    /** UpdateVariable's second half; curr points to the record found, or is -1. What was written before is given. */
    method StoreVariable(q: Request, t: StoreType, curr: int, rt: bool, ghost f: Option<Track>,
                         ghost states: seq<Stores>, ghost before: seq<Write>)
      returns (status: Status, ghost writes: seq<Write>)
      requires Valid() && Room(q) && states != [] && Last(states) == Logs()
      requires Recorded(before, Capacity(), states, -1, StoreOf(q))
      requires if f.None? then curr == -1 else
        f.value.t == t && f.value.i < |Logs().Get(t)| && curr == Offset(Logs().Get(t), f.value.i)
      requires Inside(StoreNew(states, Capacity(), q, f, rt), StoreOf(q))
      modifies nv`log, nv`last, nv.mem, vol`log, vol`last, vol.mem, nv.journal
      ensures before <= writes && nv.journal.writes == old(nv.journal.writes) + writes[|before|..]
      ensures Done(StoreNew(states, Capacity(), q, f, rt), StoreOf(q), status, writes)
    {
      hide Image, Offset, SizeOf, Compact, MarkDeleted, SetState, WellFormed, Encode, Recorded, Shows;
      var r, to := NewRecord(q), StoreOf(q);
      var store := Store(to);
      SizeIs(store.mem[..], store.mem.Length - 2, store.log);
      if (SizeOf(r) + store.last) % 0x1_0000_0000 <= store.mem.Length - 2 {
        status, writes := StoreFitting(q, t, curr, rt, f, states, before);
      } else if to.NvStore? && rt {
        status, writes := EFI_OUT_OF_RESOURCES, before;
      } else {
        status, writes := StoreReclaiming(q, t, curr, rt, f, states, before);
      }
    }

    /** The journal entries of a reclaim that has just been made. */
    ghost method LogReclaim(cap: Sizes, states: seq<Stores>, to: StoreType, writes: seq<Write>, s: Stores,
                            blank: seq<u8>)
      returns (more: seq<Write>)
      requires Valid() && cap == Capacity() && states != [] && Recorded(writes, cap, states, -1, to)
      requires s == Last(states) && Wiped(blank, cap.Get(to)) && Logs() == s.Set(to, Store(to).log)
      ensures more == writes + [Write(to, blank), Write(to, Store(to).mem[..])]
      ensures Recorded(more, cap, states + [s.Set(to, []), Logs()], |states|, to)
    {
      hide Image, Wiped, Recorded;
      RecordedLater(writes, cap, states, |states|, to);
      RecordedMore(writes, cap, states, |states|, to, Write(to, blank), s.Set(to, []));
      more := Log(cap, states + [s.Set(to, [])], |states|, to, writes + [Write(to, blank)], Logs());
      assert states + [s.Set(to, [])] + [Logs()] == states + [s.Set(to, []), Logs()];
    }

    /** The journal entry of a write that has just been made. */
    ghost method Log(cap: Sizes, states: seq<Stores>, erased: int, to: StoreType, writes: seq<Write>, s: Stores)
      returns (more: seq<Write>)
      requires Paired() && Store(to).Valid() && cap == Capacity() && states != [] && s.Get(to) == Store(to).log
      requires Recorded(writes, cap, states, erased, to) && erased != |states| && s == Last(states).Set(to, s.Get(to))
      ensures more == writes + [Write(to, Store(to).mem[..])] && Recorded(more, cap, states + [s], erased, to)
    {
      hide Image;
      more := writes + [Write(to, Store(to).mem[..])];
      RecordedMore(writes, cap, states, erased, to, Write(to, Store(to).mem[..]), s);
    }

    /** The record at p holds this data. */
    static method SameData(b: seq<u8>, p: nat, data: seq<u8>, ghost r: Record) returns (same: bool)
      requires Sits(b, p, r)
      ensures same <==> r.data == data
    {
      Fields(b, p, r);
      DataInside(b, p, r);
      same := DataSizeAt(b, p) == |data| && b[GetVariableDataPtr(b, p)..GetVariableDataPtr(b, p) + |data|] == data;
    }

    /** UpdateVariable for a variable that FindVariable found. */
    method UpdateFound(q: Request, t: StoreType, curr: nat, rt: bool, ghost i: nat)
      returns (status: Status, ghost writes: seq<Write>)
      requires Valid() && Room(q) && i < |Logs().Get(t)| && curr == Offset(Logs().Get(t), i)
      requires Inside(Update(Logs(), Capacity(), q, Some(Track(t, i)), rt), StoreOf(q))
      modifies nv`log, nv`last, nv.mem, vol`log, vol`last, vol.mem, nv.journal
      ensures nv.journal.writes == old(nv.journal.writes) + writes
      ensures Done(Update(old(Logs()), Capacity(), q, Some(Track(t, i)), rt), StoreOf(q), status, writes)
    {
      hide Image, Offset, SizeOf, Compact, MarkDeleted, SetState, StoreNew, Sits, MarkTransition, Deletes, Shows;
      var store := Store(t);
      var b := store.mem[..];
      ghost var s, r := Logs(), Logs().Get(t)[i];
      writes := [];
      Walk(b, |b| - 2, s.Get(t), i);
      if rt {
        if t.VolatileStore? { return EFI_WRITE_PROTECTED, writes; }
        if !TestMask(AttributesAt(b, curr), EFI_VARIABLE_NON_VOLATILE) { return EFI_INVALID_PARAMETER, writes; }
      }
      if Deletes(q) {
        store.Retire(curr, i);
        writes := LogOther(Capacity(), s, StoreOf(q), t);
        return EFI_SUCCESS, writes;
      }
      var same := SameData(b, curr, q.data, r);
      if same { return EFI_SUCCESS, writes; }
      status, writes := ReplaceFound(q, t, curr, rt, i);
    }

    /** Mark the record found as in transition if it is live, then store the new one. */
    method ReplaceFound(q: Request, t: StoreType, curr: nat, rt: bool, ghost i: nat)
      returns (status: Status, ghost writes: seq<Write>)
      requires Valid() && Room(q) && i < |Logs().Get(t)| && curr == Offset(Logs().Get(t), i)
      requires !Deletes(q) && Logs().Get(t)[i].data != q.data && (rt ==> t.NvStore? && NonVolatile(Logs().Get(t)[i]))
      requires Inside(Update(Logs(), Capacity(), q, Some(Track(t, i)), rt), StoreOf(q))
      modifies nv`log, nv`last, nv.mem, vol`log, vol`last, vol.mem, nv.journal
      ensures nv.journal.writes == old(nv.journal.writes) + writes
      ensures Done(Update(old(Logs()), Capacity(), q, Some(Track(t, i)), rt), StoreOf(q), status, writes)
    {
      hide Image, Offset, SizeOf, SetState, StoreNew, Sits, MarkTransition, Deletes, Recorded, NonVolatile, Done,
        Inside;
      ghost var s, r := Logs(), Logs().Get(t)[i];
      Walk(Store(t).mem[..], Store(t).mem.Length - 2, s.Get(t), i);
      var state := StateAt(Store(t).mem[..], curr);
      ghost var states, before: seq<Write> := [s], [];
      EmptyRecorded(Capacity(), s, StoreOf(q));
      if state == VAR_ADDED || state == VAR_ADDED_IN_TRANSITION {
        Store(t).Supersede(curr, i);
        StateKeepsOffset(s.Get(t), i, MarkTransition(r.state));
        states := [s, s.Set(t, SetState(s.Get(t), i, MarkTransition(r.state)))];
        before := LogOther(Capacity(), s, StoreOf(q), t);
      }
      status, writes := StoreVariable(q, t, curr, rt, Some(Track(t, i)), states, before);
      assert writes == before + writes[|before|..];
    }

    /** The journal entry of a first write, to store t. */
    ghost method LogOther(cap: Sizes, s: Stores, to: StoreType, t: StoreType) returns (writes: seq<Write>)
      requires Paired() && Store(t).Valid() && cap == Capacity() && Logs() == s.Set(t, Store(t).log)
      ensures writes == [Write(t, Store(t).mem[..])] && Recorded(writes, cap, [s, Logs()], -1, to)
    {
      hide Image;
      writes := [Write(t, Store(t).mem[..])];
      assert Shows(writes[0], cap, s, Logs(), false);
    }

    method UpdateVariable(q: Request, t: StoreType, curr: int, rt: bool, ghost f: Option<Track>)
      returns (status: Status, ghost writes: seq<Write>)
      requires Valid() && Room(q)
      requires if f.None? then curr == -1 else
        f.value.t == t && f.value.i < |Logs().Get(t)| && curr == Offset(Logs().Get(t), f.value.i)
      requires Inside(Update(Logs(), Capacity(), q, f, rt), StoreOf(q))
      modifies nv`log, nv`last, nv.mem, vol`log, vol`last, vol.mem, nv.journal
      ensures nv.journal.writes == old(nv.journal.writes) + writes
      ensures Done(Update(old(Logs()), Capacity(), q, f, rt), StoreOf(q), status, writes)
    {
      hide Image, Offset, SizeOf, Compact, MarkDeleted, SetState, StoreNew, Live;
      if curr >= 0 {
        status, writes := UpdateFound(q, t, curr, rt, f.value.i);
        return;
      }
      writes := [];
      if Deletes(q) { return EFI_NOT_FOUND, writes; }
      if rt && !(TestMask(q.attributes, EFI_VARIABLE_RUNTIME_ACCESS) &&
        TestMask(q.attributes, EFI_VARIABLE_NON_VOLATILE)) {
        return EFI_INVALID_PARAMETER, writes;
      }
      status, writes := StoreVariable(q, t, curr, rt, f, [Logs()], []);
    }

    /** SetVariable, for variables other than the four language variables. */
    method SetVariable(q: Request, rt: bool, maxVariable: nat, maxHwErr: nat)
      returns (status: Status, ghost writes: seq<Write>)
      requires Valid() && 0 !in q.key.name && |q.key.guid| == 16
      requires maxVariable + nv.mem.Length <= 0x1_0000_0000 && maxHwErr + nv.mem.Length <= 0x1_0000_0000
      requires maxVariable + vol.mem.Length <= 0x1_0000_0000 && maxHwErr + vol.mem.Length <= 0x1_0000_0000
      requires !Refused(q, maxVariable, maxHwErr) ==> Inside(SetRun(Logs(), Capacity(), q, rt), StoreOf(q))
      modifies nv`log, nv`last, nv.mem, vol`log, vol`last, vol.mem, nv.journal
      ensures nv.journal.writes == old(nv.journal.writes) + writes
      ensures Refused(q, maxVariable, maxHwErr) ==>
        Valid() && status == EFI_INVALID_PARAMETER && Logs() == old(Logs()) && writes == []
      ensures !Refused(q, maxVariable, maxHwErr) ==>
        Done(SetRun(old(Logs()), Capacity(), q, rt), StoreOf(q), status, writes)
    {
      hide Image, Offset, Update, Locate, Done;
      writes := [];
      if Refused(q, maxVariable, maxHwErr) { return EFI_INVALID_PARAMETER, writes; }
      var t, curr;
      ghost var n;
      status, t, curr, n := FindVariable(q.key, rt);
      status, writes := UpdateVariable(q, t, curr, rt, Locate(Logs(), q.key, rt));
    }

    /** The name of the record at p, if the caller's buffer holds it. */
    method CopyName(t: StoreType, p: nat, size: nat, ghost n: nat)
      returns (status: Status, nameSize: nat, name: seq<u8>, guid: seq<u8>)
      requires Valid() && n < |Logs().Get(t)| && p == Offset(Logs().Get(t), n)
      ensures var k := Logs().Get(t)[n].key;
        && nameSize == NameSize(k) && status == (if NameSize(k) <= size then EFI_SUCCESS else EFI_BUFFER_TOO_SMALL)
        && (status == EFI_SUCCESS ==> name == NameBytes(k.name) && guid == k.guid)
    {
      hide Image, Framed, Offset, Sits, NameBytes;
      var b := Store(t).mem[..];
      ghost var r := Logs().Get(t)[n];
      Walk(b, |b| - 2, Logs().Get(t), n);
      Fields(b, p, r);
      NameInside(b, p, r);
      nameSize, name, guid := NameSizeAt(b, p), [], [];
      if nameSize <= size {
        status, name, guid := EFI_SUCCESS, b[p + RECORD_HEADER..GetVariableDataPtr(b, p)], GuidAt(b, p);
      } else {
        status := EFI_BUFFER_TOO_SMALL;
      }
    }
  }

  /** SetVariable's own checks of its arguments. */
  predicate Refused(q: Request, maxVariable: nat, maxHwErr: nat) {
    || q.key.name == []
    || TestMask(q.attributes, EFI_VARIABLE_AUTHENTICATED_WRITE_ACCESS)
    || (TestMask(q.attributes, EFI_VARIABLE_RUNTIME_ACCESS) && !TestMask(q.attributes, EFI_VARIABLE_BOOTSERVICE_ACCESS))
    || SizeOf(NewRecord(q)) > (if HardwareError(NewRecord(q)) then maxHwErr else maxVariable)
    || (HardwareError(NewRecord(q)) && !(HW_ERR_REC <= q.key.name))
  }

  /** L"HwErrRec" */
  const HW_ERR_REC: seq<u16> := [72, 119, 69, 114, 114, 82, 101, 99]

  /** Which arguments are refused, in numbers: no name, the authenticated-write bit, runtime access without boot service
      access, more bytes than the limit of their kind, or a hardware error record that is not named like one. */
  lemma RefusedIs(q: Request, maxVariable: nat, maxHwErr: nat)
    ensures Refused(q, maxVariable, maxHwErr) <==>
      var a, name := q.attributes, q.key.name;
      || |name| == 0 || a / 16 % 2 == 1 || (a / 4 % 2 == 1 && a / 2 % 2 == 0)
      || 32 + 2 * (|name| + 1) + |q.data| > (if a / 8 % 2 == 1 then maxHwErr else maxVariable)
      || (a / 8 % 2 == 1 && !(|name| >= 8 && name[..8] == [72, 119, 69, 114, 114, 82, 101, 99]))
  {
  }

  lemma EmptyRecorded(sizes: Sizes, s: Stores, r: StoreType)
    ensures Recorded([], sizes, [s], -1, r)
  {
  }

  /** What StoreNew does when the new record fits. */
  lemma FittingRun(states: seq<Stores>, sizes: Sizes, q: Request, f: Option<Track>, rt: bool)
    requires states != [] && (f.Some? ==> f.value.i < |Last(states).Get(f.value.t)|)
    requires Fits(Last(states).Get(StoreOf(q)), NewRecord(q), sizes.Get(StoreOf(q)))
    ensures var s, to, run := Last(states), StoreOf(q), StoreNew(states, sizes, q, f, rt);
      var s1 := s.Set(to, s.Get(to) + [NewRecord(q)]);
      if f.None? then run == Run(EFI_SUCCESS, states + [s1], -1)
      else
        var Track(t, i) := f.value;
        var mark := MarkDeleted(s.Get(t)[i].state);
        if t == to then run == Run(EFI_SUCCESS, states + [s1] + [s1.Set(t, SetState(s1.Get(t), i, mark))], -1)
        else run == Stray(states + [s1], Offset(s.Get(t), i) + 2, mark)
  {
    hide Fits, SetState, MarkDeleted, Offset;
  }

  /** What StoreNew does when it does not and a reclaim is allowed. */
  lemma ReclaimingRun(states: seq<Stores>, sizes: Sizes, q: Request, f: Option<Track>, rt: bool)
    requires states != [] && (f.Some? ==> f.value.i < |Last(states).Get(f.value.t)|)
    requires !Fits(Last(states).Get(StoreOf(q)), NewRecord(q), sizes.Get(StoreOf(q))) && !(StoreOf(q).NvStore? && rt)
    ensures var s, to, r := Last(states), StoreOf(q), NewRecord(q);
      var log := Compact(s.Get(to), Current(f, to));
      var reclaimed := states + [s.Set(to, []), s.Set(to, log)];
      StoreNew(states, sizes, q, f, rt) ==
        if Fits(log, r, sizes.Get(to)) then Run(EFI_SUCCESS, reclaimed + [s.Set(to, log + [r])], |states|)
        else Run(EFI_OUT_OF_RESOURCES, reclaimed, |states|)
  {
    hide Fits, Compact;
  }

  lemma FirstOffset(log: seq<Record>)
    ensures Offset(log, 0) == STORE_HEADER
  {
  }

  lemma {:induction false} NextRight(a: seq<Record>, b: seq<Record>, rt: bool, i: nat)
    requires i <= |b|
    ensures NextVisible(a + b, rt, |a| + i) == |a| + NextVisible(b, rt, i)
    decreases |b| - i
  {
    if i < |b| && !Visible(b[i], rt) { NextRight(a, b, rt, i + 1); }
  }

  lemma {:induction false} NextLeft(a: seq<Record>, b: seq<Record>, rt: bool, i: nat)
    requires i <= |a|
    ensures NextVisible(a + b, rt, i) ==
      if NextVisible(a, rt, i) < |a| then NextVisible(a, rt, i) else |a| + NextVisible(b, rt, 0)
    decreases |a| - i
  {
    if i == |a| {
      NextRight(a, b, rt, 0);
    } else if !Visible(a[i], rt) {
      NextLeft(a, b, rt, i + 1);
    }
  }

  /** The index in the joint log of record i of store t. */
  function Joint(s: Stores, t: StoreType, i: nat): nat { if t.NvStore? then i else |s.nv| + i }

  lemma JointAt(s: Stores, t: StoreType, n: nat)
    ensures n < |s.Get(t)| ==> Joint(s, t, n) < |s.All()| && s.All()[Joint(s, t, n)] == s.Get(t)[n]
  {
  }

  /** The next visible record of both stores is the next one of this store, or else the first one of the second. */
  lemma NextInStores(s: Stores, rt: bool, t: StoreType, i: nat)
    requires i <= |s.Get(t)|
    ensures NextVisible(s.All(), rt, Joint(s, t, i)) ==
      var here := NextVisible(s.Get(t), rt, i);
      if here < |s.Get(t)| || t.VolatileStore? then Joint(s, t, here) else |s.nv| + NextVisible(s.vol, rt, 0)
  {
    if t.NvStore? { NextLeft(s.nv, s.vol, rt, i); } else { NextRight(s.nv, s.vol, rt, i); }
  }

  /** The two logs as parts of the joint one. */
  lemma AllParts(s: Stores)
    ensures |s.All()| == |s.nv| + |s.vol|
    ensures s.All()[0..0 + |s.nv|] == s.nv && s.All()[|s.nv|..|s.nv| + |s.vol|] == s.vol
  {
  }

  lemma FindIsScan(s: Stores, k: Key, rt: bool)
    ensures Find(s.All(), k, rt) == Scan(s.All(), k, rt, 0, -1)
    ensures forall n :: Joint(s, NvStore, n) == n && Joint(s, VolatileStore, n) == |s.nv| + n
  {
  }

  lemma LocateAt(s: Stores, k: Key, rt: bool, t: StoreType, n: nat)
    requires n < |s.Get(t)| && Find(s.All(), k, rt) == Joint(s, t, n)
    ensures Locate(s, k, rt) == Some(Track(t, n))
  {
  }

  lemma LocateNone(s: Stores, k: Key, rt: bool)
    requires Find(s.All(), k, rt) < 0
    ensures Locate(s, k, rt) == None
  {
  }

  lemma NextOfLocated(s: Stores, k: Key, rt: bool)
    ensures Locate(s, k, rt).None? ==> NextAfter(s.All(), k, rt) == |s.All()|
    ensures Locate(s, k, rt).Some? ==>
      var Track(t, i) := Locate(s, k, rt).value;
      NextAfter(s.All(), k, rt) == NextVisible(s.All(), rt, Joint(s, t, if k.name == [] then i else i + 1))
  {
  }

  lemma ScanEnd(log: seq<Record>, k: Key, rt: bool, best: int)
    requires -1 <= best < |log| && (best >= 0 ==> Hit(log[best], k, rt))
    ensures Scan(log, k, rt, |log|, best) == best
  {
  }

  lemma DataInside(b: seq<u8>, p: nat, r: Record)
    requires Sits(b, p, r)
    ensures GetVariableDataPtr(b, p) + |r.data| <= |b|
    ensures b[GetVariableDataPtr(b, p)..GetVariableDataPtr(b, p) + |r.data|] == r.data
  {
    Fields(b, p, r);
  }
}
