/** The two logs of the variable store, their invariant, and what each atomic write does to them. */
module VariableUpdate {
  import opened EfiTypes
  import opened VariableLog

  datatype StoreType = NvStore | VolatileStore

  datatype Stores = Stores(nv: seq<Record>, vol: seq<Record>) {
    function Get(t: StoreType): seq<Record> { if t.NvStore? then nv else vol }

    function Set(t: StoreType, log: seq<Record>): Stores {
      if t.NvStore? then Stores(log, vol) else Stores(nv, log)
    }

    /** The order in which the stores are searched. */
    function All(): seq<Record> { nv + vol }
  }

  function Other(t: StoreType): StoreType { if t.NvStore? then VolatileStore else NvStore }

  datatype Track = Track(t: StoreType, i: nat)

  /** FindVariable: the store and the record it points to. */
  function Locate(s: Stores, k: Key, rt: bool): (f: Option<Track>)
    ensures f.Some? ==> f.value.i < |s.Get(f.value.t)| && Hit(s.Get(f.value.t)[f.value.i], k, rt)
  {
    var f := Find(s.All(), k, rt);
    if f < 0 then None
    else if f < |s.nv| then Some(Track(NvStore, f))
    else Some(Track(VolatileStore, f - |s.nv|))
  }

  function Meaning(s: Stores, k: Key, rt: bool): Option<Value> { Lookup(s.All(), k, rt) }

  // ---- The invariant ----------------------------------------------------------------------------

  predicate Placed(log: seq<Record>, t: StoreType) {
    forall i :: 0 <= i < |log| && Live(log[i]) ==> (NonVolatile(log[i]) <==> t.NvStore?)
  }

  predicate Absent(log: seq<Record>, k: Key) {
    forall i :: 0 <= i < |log| && Live(log[i]) ==> log[i].key != k
  }

  predicate Apart(a: seq<Record>, b: seq<Record>) {
    forall i, j :: 0 <= i < |a| && 0 <= j < |b| && Live(a[i]) && Live(b[j]) ==> a[i].key != b[j].key
  }

  /** Both logs are sound (with uniform access, where u), live records are in the store their attributes name, and no
      key is live in both. */
  predicate Inv(s: Stores, u: bool) {
    && Sound(s.nv, u) && Sound(s.vol, u) && Placed(s.nv, NvStore) && Placed(s.vol, VolatileStore) && Apart(s.nv, s.vol)
  }

  lemma SoundAll(s: Stores, u: bool)
    requires Inv(s, u)
    ensures Sound(s.All(), u)
  {
    var all := s.All();
    forall i, j | 0 <= i < j < |all| ensures Supersedes(all[i], all[j], u) {
      if j < |s.nv| {
        assert Supersedes(s.nv[i], s.nv[j], u);
      } else if i >= |s.nv| {
        assert Supersedes(s.vol[i - |s.nv|], s.vol[j - |s.nv|], u);
      }
    }
  }

  lemma ContentAbsent(log: seq<Record>, k: Key, rt: bool)
    requires Absent(log, k) && k.name != []
    ensures Content(log, k, rt) == None
  {
  }

  lemma OneSide(s: Stores, t: StoreType, k: Key, rt: bool, u: bool)
    requires Inv(s, u) && k.name != [] && Content(s.Get(t), k, rt).Some?
    ensures Absent(s.Get(Other(t)), k)
  {
    var log := s.Get(t);
    var i := Newest(log, k, rt, |log|);
    assert Live(log[i]);
  }

  /** What the two stores mean together, looked at from either store. */
  lemma MeaningSplit(s: Stores, t: StoreType, k: Key, rt: bool, u: bool)
    requires Inv(s, u) && k.name != []
    ensures Meaning(s, k, rt) ==
      if Content(s.Get(t), k, rt).Some? then Content(s.Get(t), k, rt) else Content(s.Get(Other(t)), k, rt)
  {
    SoundAll(s, u);
    FindIsNewest(s.All(), k, rt, u);
    ContentConcat(s.nv, s.vol, k, rt);
    if Content(s.nv, k, rt).Some? {
      OneSide(s, NvStore, k, rt, u);
      ContentAbsent(s.vol, k, rt);
    }
  }

  /** A change to one store's log that keeps a key's meaning there keeps it altogether. */
  lemma MeaningKept(s: Stores, t: StoreType, log: seq<Record>, k: Key, rt: bool, u: bool)
    requires Inv(s, u) && Inv(s.Set(t, log), u) && k.name != [] && Content(log, k, rt) == Content(s.Get(t), k, rt)
    ensures Meaning(s.Set(t, log), k, rt) == Meaning(s, k, rt)
  {
    MeaningSplit(s, t, k, rt, u);
    MeaningSplit(s.Set(t, log), t, k, rt, u);
  }

  // ---- What one atomic write does ---------------------------------------------------------------

  /** Where a live record may stand: its attributes name store t, and its key is not live in the other store. */
  predicate Home(s: Stores, t: StoreType, r: Record) {
    (NonVolatile(r) <==> t.NvStore?) && Absent(s.Get(Other(t)), r.key)
  }

  lemma HomeOld(s: Stores, t: StoreType, i: nat, u: bool)
    requires Inv(s, u) && i < |s.Get(t)| && Live(s.Get(t)[i])
    ensures Home(s, t, s.Get(t)[i])
  {
  }

  lemma InvSet(s: Stores, t: StoreType, log: seq<Record>, u: bool)
    requires Inv(s, u) && Sound(log, u) && forall j :: 0 <= j < |log| && Live(log[j]) ==> Home(s, t, log[j])
    ensures Inv(s.Set(t, log), u)
  {
  }

  /** Marking a live record in transition changes no meaning. */
  lemma WriteTransition(s: Stores, t: StoreType, i: nat, k: Key, rt: bool, u: bool)
    requires Inv(s, u) && i < |s.Get(t)| && Live(s.Get(t)[i]) && k.name != []
    ensures var s' := s.Set(t, SetState(s.Get(t), i, MarkTransition(s.Get(t)[i].state)));
      Inv(s', u) && Meaning(s', k, rt) == Meaning(s, k, rt)
  {
    var log := s.Get(t);
    var log' := SetState(log, i, MarkTransition(log[i].state));
    SoundMark(log, i, MarkTransition(log[i].state), u);
    forall j | 0 <= j < |log'| && Live(log'[j]) ensures Home(s, t, log'[j]) { HomeOld(s, t, j, u); }
    InvSet(s, t, log', u);
    ContentTransition(log, i, k, rt);
    MeaningKept(s, t, log', k, rt, u);
  }

  /** Appending an added record that supersedes all others of its key sets that key and no other. */
  lemma WriteAppend(s: Stores, t: StoreType, r: Record, k: Key, rt: bool, u: bool)
    requires Inv(s, u) && Home(s, t, r) && k.name != []
    requires forall i :: 0 <= i < |s.Get(t)| ==> Supersedes(s.Get(t)[i], r, u)
    ensures var s' := s.Set(t, s.Get(t) + [r]);
      Inv(s', u) && Meaning(s', k, rt) == if Hit(r, k, rt) then Some(ValueOf(r)) else Meaning(s, k, rt)
  {
    var log := s.Get(t);
    SoundAppend(log, r, u);
    forall j | 0 <= j < |log + [r]| && Live((log + [r])[j]) ensures Home(s, t, (log + [r])[j]) {
      if j < |log| { HomeOld(s, t, j, u); }
    }
    InvSet(s, t, log + [r], u);
    ContentAppend(log, r, k, rt);
    MeaningSplit(s, t, k, rt, u);
    MeaningSplit(s.Set(t, log + [r]), t, k, rt, u);
  }

  /** Deleting a record changes nothing that a newer visible record stands for. */
  lemma WriteDelete(s: Stores, t: StoreType, i: nat, k: Key, rt: bool, u: bool)
    requires Inv(s, u) && i < |s.Get(t)| && Live(s.Get(t)[i]) && k.name != []
    requires Hit(s.Get(t)[i], k, rt) ==> i < Newest(s.Get(t), k, rt, |s.Get(t)|)
    ensures var s' := s.Set(t, SetState(s.Get(t), i, MarkDeleted(s.Get(t)[i].state)));
      Inv(s', u) && Meaning(s', k, rt) == Meaning(s, k, rt)
  {
    var log := s.Get(t);
    var log' := SetState(log, i, MarkDeleted(log[i].state));
    InvDelete(s, t, i, u);
    ContentDelete(log, i, k, rt);
    MeaningKept(s, t, log', k, rt, u);
  }

  lemma InvDelete(s: Stores, t: StoreType, i: nat, u: bool)
    requires Inv(s, u) && i < |s.Get(t)| && Live(s.Get(t)[i])
    ensures Inv(s.Set(t, SetState(s.Get(t), i, MarkDeleted(s.Get(t)[i].state))), u)
  {
    var log := s.Get(t);
    var log' := SetState(log, i, MarkDeleted(log[i].state));
    SoundMark(log, i, MarkDeleted(log[i].state), u);
    forall j | 0 <= j < |log'| && Live(log'[j]) ensures Home(s, t, log'[j]) { HomeOld(s, t, j, u); }
    InvSet(s, t, log', u);
  }

  /** Writing back the compacted log changes no meaning. */
  lemma WriteCompact(s: Stores, t: StoreType, cur: int, k: Key, rt: bool, u: bool)
    requires rt ==> u
    requires Inv(s, u) && k.name != []
    ensures var s' := s.Set(t, Compact(s.Get(t), cur));
      Inv(s', u) && Meaning(s', k, rt) == Meaning(s, k, rt)
  {
    var log := s.Get(t);
    var log' := Compact(log, cur);
    ReclaimPreserves(log, cur, k, rt, u);
    forall j | 0 <= j < |log'| && Live(log'[j]) ensures Home(s, t, log'[j]) {
      var i := CompactOrigin(log, cur, 0, j);
      HomeOld(s, t, i, u);
    }
    InvSet(s, t, log', u);
    FindIsNewest(log, k, rt, u);
    FindIsNewest(log', k, rt, u);
    MeaningKept(s, t, log', k, rt, u);
  }
}
