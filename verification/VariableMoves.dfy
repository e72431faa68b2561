/** Updates that move a variable to the other store: when they break the invariant, and what the stray mark does. */
module VariableMoves {
  import opened EfiTypes
  import opened Words
  import opened VariableLog
  import opened VariableUpdate
  import opened VariableRun
  import opened VariableRecovery
  import opened VariableGhosts
  import opened VariableBytes

  // ---- The invariant ----------------------------------------------------------------------------

  /** For a variable that is found, keeping its volatility and naming its store again is the same. */
  lemma SameStoreKeeps(s: Stores, q: Request, f: Track, u: bool)
    requires Inv(s, u) && f.i < |s.Get(f.t)| && Live(s.Get(f.t)[f.i]) && s.Get(f.t)[f.i].key == q.key
    ensures KeepsAccess(s, q, false) <==> f.t == StoreOf(q)
  {
    KeepsHere(s, q, f);
    if f.t == StoreOf(q) {
      forall j | 0 <= j < |s.All()| && Live(s.All()[j]) && s.All()[j].key == q.key
        ensures NonVolatile(s.All()[j]) <==> NonVolatile(NewRecord(q))
      {
        assert j < |s.nv| ==> s.All()[j] == s.nv[j];
        assert j >= |s.nv| ==> s.All()[j] == s.vol[j - |s.nv|];
      }
    }
  }

  lemma KeepsHere(s: Stores, q: Request, f: Track)
    requires f.i < |s.Get(f.t)| && Live(s.Get(f.t)[f.i]) && s.Get(f.t)[f.i].key == q.key
    ensures KeepsAccess(s, q, false) ==> (NonVolatile(s.Get(f.t)[f.i]) <==> NonVolatile(NewRecord(q)))
  {
    if KeepsAccess(s, q, false) { KeepsSplit(s, q, false); }
  }

  lemma InvWeaken(s: Stores, u: bool)
    requires Inv(s, u)
    ensures Inv(s, false)
  {
    forall i, j | 0 <= i < j < |s.nv|
      ensures Supersedes(s.nv[i], s.nv[j], false)
    {
      assert Supersedes(s.nv[i], s.nv[j], u);
    }
    forall i, j | 0 <= i < j < |s.vol|
      ensures Supersedes(s.vol[i], s.vol[j], false)
    {
      assert Supersedes(s.vol[i], s.vol[j], u);
    }
  }

  lemma BothStores(s: Stores, t: StoreType, i: nat, j: nat)
    requires i < |s.Get(t)| && j < |s.Get(Other(t))| && Live(s.Get(t)[i]) && Live(s.Get(Other(t))[j])
    requires s.Get(t)[i].key == s.Get(Other(t))[j].key
    ensures !Inv(s, false)
  {
    if t.NvStore? {
      assert s.nv[i].key == s.vol[j].key;
    } else {
      assert s.nv[j].key == s.vol[i].key;
    }
  }

  /** The update was carried out: the new record is in its store. */
  predicate Stored(run: Run) { run.Stray? || run.status.EFI_SUCCESS? }

  /** The store the new record goes to, with or without a reclaim. */
  function Into(log: seq<Record>, room: bool): seq<Record> { if room then log else Compact(log, -1) }

  /** A moving update leaves the old record in transition in one store and adds the new one to the other. */
  lemma RunOfMove(s: Stores, sizes: Sizes, q: Request, rt: bool)
    requires Replaces(s, q, rt) && Locate(s, q.key, rt).value.t == Other(StoreOf(q)) && Stored(SetRun(s, sizes, q, rt))
    ensures var Track(t, i) := Locate(s, q.key, rt).value;
      var run, to, room := SetRun(s, sizes, q, rt), StoreOf(q), HasRoom(s, sizes, q);
      && run.states != [] && (run.Stray? <==> room)
      && Last(run.states) == s.Set(t, SetState(s.Get(t), i, VAR_ADDED_IN_TRANSITION))
                              .Set(to, Into(s.Get(to), room) + [NewRecord(q)])
      && (run.Stray? ==> run.at == Offset(s.Get(t), i) + 2 && run.mark == MarkDeleted(VAR_ADDED_IN_TRANSITION))
  {
    hide Compact, Deletes, Locate, Offset, SizeOf;
    var Track(t, i) := Locate(s, q.key, rt).value;
    MarkLive(s.Get(t)[i]);
    StateKeepsOffset(s.Get(t), i, VAR_ADDED_IN_TRANSITION);
  }

  lemma MoveBreaks(s: Stores, sizes: Sizes, q: Request, rt: bool)
    requires Replaces(s, q, rt) && Locate(s, q.key, rt).value.t == Other(StoreOf(q)) && Stored(SetRun(s, sizes, q, rt))
    requires q.key.name != []
    ensures SetRun(s, sizes, q, rt).states != [] && !Inv(Last(SetRun(s, sizes, q, rt).states), false)
  {
    hide Inv, Compact, SetRun, Offset, Stored, Deletes;
    RunOfMove(s, sizes, q, rt);
    var Track(t, i) := Locate(s, q.key, rt).value;
    BothStores(Last(SetRun(s, sizes, q, rt).states), t, i, |Into(s.Get(StoreOf(q)), HasRoom(s, sizes, q))|);
  }

  lemma StayKeeps(s: Stores, sizes: Sizes, q: Request, rt: bool, u: bool)
    requires rt ==> u
    requires Inv(s, u) && q.key.name != [] && Replaces(s, q, rt) && Stored(SetRun(s, sizes, q, rt))
    requires Locate(s, q.key, rt).value.t == StoreOf(q)
    ensures SetRun(s, sizes, q, rt).states != [] && Inv(Last(SetRun(s, sizes, q, rt).states), false)
  {
    hide Inv, KeepsAccess, Meaning, StoreReady, IsCurrent, Locate, StoreNew, Deletes;
    LocateFinds(s, q.key, rt, u);
    var Track(t, i) := Locate(s, q.key, rt).value;
    CurrentLive(s.Get(t), i);
    SameStoreKeeps(s, q, Track(t, i), u);
    InvWeaken(s, u);
    FoundReady(s, q, Track(t, i), q.key, false, false);
    var s1 := s.Set(t, SetState(s.Get(t), i, MarkTransition(s.Get(t)[i].state)));
    StoredRun([s, s1], sizes, q, Some(Track(t, i)), rt);
  }

  lemma CurrentLive(log: seq<Record>, i: nat)
    requires IsCurrent(log, i)
    ensures i < |log| && Live(log[i])
  {
  }

  lemma StoredRun(states: seq<Stores>, sizes: Sizes, q: Request, f: Option<Track>, rt: bool)
    requires states != [] && Quiet(states[0], states, q.key, false, false) && q.key.name != []
    requires StoreReady(Last(states), q, f, false)
    ensures var run := StoreNew(states, sizes, q, f, rt);
      run.Run? && run.states != [] && Inv(Last(run.states), false)
  {
    hide Fits, Quiet, StoreReady, StoreNew, Inv, Meaning;
    if Fits(Last(states).Get(StoreOf(q)), NewRecord(q), sizes.Get(StoreOf(q))) {
      FitsRun(states, sizes, q, f, rt, q.key, false, false);
    } else {
      FullRun(states, sizes, q, f, rt, q.key, false, false);
    }
  }

  /** An update that is carried out with other data keeps the invariant if and only if the request names the store the
      variable is in; that is, if and only if it keeps the variable's volatility. */
  lemma MovedIsStray(s: Stores, sizes: Sizes, q: Request, rt: bool, u: bool)
    requires rt ==> u
    requires Inv(s, u) && q.key.name != [] && Replaces(s, q, rt) && Stored(SetRun(s, sizes, q, rt))
    ensures SetRun(s, sizes, q, rt).states != []
    ensures Inv(Last(SetRun(s, sizes, q, rt).states), false) <==> Locate(s, q.key, rt).value.t == StoreOf(q)
    ensures Locate(s, q.key, rt).value.t == StoreOf(q) <==> KeepsAccess(s, q, false)
    ensures SetRun(s, sizes, q, rt).Stray? <==> Locate(s, q.key, rt).value.t != StoreOf(q) && HasRoom(s, sizes, q)
  {
    hide Inv, KeepsAccess, SetRun, HasRoom, Locate, IsCurrent;
    LocateFinds(s, q.key, rt, u);
    var Track(t, i) := Locate(s, q.key, rt).value;
    CurrentLive(s.Get(t), i);
    SameStoreKeeps(s, q, Track(t, i), u);
    if t == StoreOf(q) {
      StayKeeps(s, sizes, q, rt, u);
      StayRun(s, sizes, q, rt);
    } else {
      RunOfMove(s, sizes, q, rt);
      MoveBreaks(s, sizes, q, rt);
    }
  }

  lemma StayRun(s: Stores, sizes: Sizes, q: Request, rt: bool)
    requires Replaces(s, q, rt) && Locate(s, q.key, rt).value.t == StoreOf(q)
    ensures SetRun(s, sizes, q, rt).Run?
  {
    hide Compact, Deletes, Locate, Fits, SetState;
  }

  // ---- What is read afterwards ------------------------------------------------------------------

  lemma {:induction false} FirstAdded(log: seq<Record>, k: Key, rt: bool, i: nat, best: int, n: nat)
    requires i <= n < |log| && -1 <= best < |log| && (best >= 0 ==> Hit(log[best], k, rt))
    requires Hit(log[n], k, rt) && Added(log[n]) && forall j :: i <= j < n ==> !(Hit(log[j], k, rt) && Added(log[j]))
    ensures Scan(log, k, rt, i, best) == n
    decreases n - i
  {
    if i < n {
      FirstAdded(log, k, rt, i + 1, if Hit(log[i], k, rt) then i else best, n);
    }
  }

  /** None of the first n records is an added hit. */
  predicate NoneAdded(log: seq<Record>, k: Key, rt: bool, n: nat)
    requires n <= |log|
  {
    forall j :: 0 <= j < n && Hit(log[j], k, rt) ==> !Added(log[j])
  }

  /** The first added hit of a store is what the variable means if the other store has none. */
  lemma OnlyAdded(s: Stores, t: StoreType, n: nat, k: Key, rt: bool)
    requires n < |s.Get(t)| && Hit(s.Get(t)[n], k, rt) && Added(s.Get(t)[n]) && k.name != []
    requires NoneAdded(s.Get(t), k, rt, n) && NoneAdded(s.Get(Other(t)), k, rt, |s.Get(Other(t))|)
    ensures Meaning(s, k, rt) == Some(ValueOf(s.Get(t)[n]))
  {
    var all := s.All();
    var m := if t.NvStore? then n else |s.nv| + n;
    assert NoneAdded(s.nv, k, rt, if t.NvStore? then n else |s.nv|);
    assert t.VolatileStore? ==> NoneAdded(s.vol, k, rt, n);
    forall j | 0 <= j < m ensures !(Hit(all[j], k, rt) && Added(all[j])) {
      if j < |s.nv| { assert all[j] == s.nv[j]; } else { assert all[j] == s.vol[j - |s.nv|]; }
    }
    FirstAdded(all, k, rt, 0, -1, m);
  }

  /** Once the new record is in and before any mark goes astray, GetVariable answers it in spite of the old record. */
  lemma MovedReads(s: Stores, sizes: Sizes, q: Request, rt: bool, u: bool)
    requires rt ==> u
    requires Inv(s, u) && q.key.name != [] && Replaces(s, q, rt) && Stored(SetRun(s, sizes, q, rt))
    requires Locate(s, q.key, rt).value.t == Other(StoreOf(q))
    ensures SetRun(s, sizes, q, rt).states != []
    ensures Meaning(Last(SetRun(s, sizes, q, rt).states), q.key, false) == Some(ValueOf(NewRecord(q)))
  {
    hide Inv, SetRun, Locate, Compact, Meaning, Stored, Offset;
    LocateFinds(s, q.key, rt, u);
    RunOfMove(s, sizes, q, rt);
    var Track(t, i) := Locate(s, q.key, rt).value;
    var to, room := StoreOf(q), HasRoom(s, sizes, q);
    var into := Into(s.Get(to), room);
    CompactAbsent(s.Get(to), -1, q.key);
    OnlyAdded(Last(SetRun(s, sizes, q, rt).states), to, |into|, q.key, false);
  }

  // ---- The stray mark ---------------------------------------------------------------------------

  /** The mark goes to the offset of the old record's state. If a record of the new store begins at the same offset as
      the old record in its own, that record is deleted. */
  lemma StrayDeletes(s: Stores, sizes: Sizes, q: Request, rt: bool, b: seq<u8>, n: nat)
    requires Replaces(s, q, rt) && SetRun(s, sizes, q, rt).Stray? && SetRun(s, sizes, q, rt).states != []
    requires var log := Last(SetRun(s, sizes, q, rt).states).Get(StoreOf(q));
      var Track(t, i) := Locate(s, q.key, rt).value;
      Image(b, sizes.Get(StoreOf(q)), log) && n < |log| && Offset(log, n) == Offset(s.Get(t), i)
    ensures var run := SetRun(s, sizes, q, rt);
      var log := Last(run.states).Get(StoreOf(q));
      && run.at < |b| && Image(b[run.at := run.mark], sizes.Get(StoreOf(q)), SetState(log, n, run.mark))
      && !Live(SetState(log, n, run.mark)[n])
  {
    hide Image, Locate, SetRun, Offset, Deletes;
    StrayMoves(s, sizes, q, rt);
    RunOfMove(s, sizes, q, rt);
    var run := SetRun(s, sizes, q, rt);
    ImageState(b, sizes.Get(StoreOf(q)), Last(run.states).Get(StoreOf(q)), n, run.mark);
  }

  lemma StrayMoves(s: Stores, sizes: Sizes, q: Request, rt: bool)
    requires Replaces(s, q, rt) && SetRun(s, sizes, q, rt).Stray?
    ensures Locate(s, q.key, rt).value.t == Other(StoreOf(q))
  {
    hide Compact, Deletes, Locate, Fits, SetState;
  }

  /** The stores once the mark has landed on the state of record n of the new store. */
  function Marked(run: Run, to: StoreType, n: nat): Stores
    requires run.Stray? && run.states != [] && n < |Last(run.states).Get(to)|
  {
    Last(run.states).Set(to, SetState(Last(run.states).Get(to), n, run.mark))
  }

  /** The mark of this run lands on the state of record n. */
  predicate LandsOn(s: Stores, sizes: Sizes, q: Request, rt: bool, n: nat) {
    && Replaces(s, q, rt) && SetRun(s, sizes, q, rt).Stray? && SetRun(s, sizes, q, rt).states != []
    && var Track(t, i) := Locate(s, q.key, rt).value;
       var log := Last(SetRun(s, sizes, q, rt).states).Get(StoreOf(q));
       n < |log| && Offset(log, n) == Offset(s.Get(t), i)
  }

  /** It is the new record itself that begins where the old one does in its own store. */
  predicate Coincide(s: Stores, q: Request, rt: bool)
    requires Replaces(s, q, rt)
  {
    Offset(s.Get(Locate(s, q.key, rt).value.t), Locate(s, q.key, rt).value.i) == End(s.Get(StoreOf(q)))
  }

  lemma LandsWhere(s: Stores, sizes: Sizes, q: Request, rt: bool, n: nat)
    requires LandsOn(s, sizes, q, rt, n)
    ensures Locate(s, q.key, rt).value.t == Other(StoreOf(q))
    ensures var Track(t, i) := Locate(s, q.key, rt).value;
      var run, log, to := SetRun(s, sizes, q, rt), s.Get(StoreOf(q)), StoreOf(q);
      && Marked(run, to, n) == s.Set(t, SetState(s.Get(t), i, VAR_ADDED_IN_TRANSITION))
                                .Set(to, SetState(log + [NewRecord(q)], n, MarkDeleted(VAR_ADDED_IN_TRANSITION)))
      && n <= |log| && (n == |log| <==> Coincide(s, q, rt))
  {
    hide SetRun, Locate, Offset, Deletes, SizeOf;
    StrayMoves(s, sizes, q, rt);
    RunOfMove(s, sizes, q, rt);
    var log, log' := s.Get(StoreOf(q)), s.Get(StoreOf(q)) + [NewRecord(q)];
    OffsetPrefix(log, log', |log|);
    if n < |log| { OffsetGrows(log', n, |log|); }
  }

  lemma LostInMove(s: Stores, t: StoreType, i: nat, r: Record, u: bool)
    requires Inv(s, u) && i < |s.Get(t)| && Live(s.Get(t)[i]) && s.Get(t)[i].key == r.key && r.key.name != []
    requires Absent(s.Get(Other(t)), r.key)
    ensures var dead := s.Get(Other(t)) + [r.(state := MarkDeleted(VAR_ADDED_IN_TRANSITION))];
      var x := s.Set(t, SetState(s.Get(t), i, VAR_ADDED_IN_TRANSITION)).Set(Other(t), dead);
      Inv(x, false) && forall k: Key :: k.name != [] ==> Meaning(x, k, false) == Meaning(s, k, false)
  {
    hide Inv, Meaning;
    InvWeaken(s, u);
    var s1 := s.Set(t, SetState(s.Get(t), i, VAR_ADDED_IN_TRANSITION));
    MarkLive(s.Get(t)[i]);
    WriteTransition(s, t, i, r.key, false, false);
    var gone := r.(state := MarkDeleted(VAR_ADDED_IN_TRANSITION));
    var log := s.Get(Other(t));
    DeadAppend(s1, Other(t), gone);
    forall k: Key | k.name != [] ensures Meaning(s1.Set(Other(t), log + [gone]), k, false) == Meaning(s, k, false) {
      WriteTransition(s, t, i, k, false, false);
      ContentAppend(log, gone, k, false);
      MeaningKept(s1, Other(t), log + [gone], k, false, false);
    }
  }

  /** A dead record at the end of a log changes nothing. */
  lemma DeadAppend(s: Stores, t: StoreType, r: Record)
    requires Inv(s, false) && !Live(r)
    ensures Inv(s.Set(t, s.Get(t) + [r]), false)
  {
    SoundOf(s, t, false);
    SoundAppend(s.Get(t), r, false);
    forall j | 0 <= j < |s.Get(t) + [r]| && Live((s.Get(t) + [r])[j]) ensures Home(s, t, (s.Get(t) + [r])[j]) {
      HomeOld(s, t, j, false);
    }
    InvSet(s, t, s.Get(t) + [r], false);
  }

  lemma KeptInMove(s: Stores, t: StoreType, i: nat, r: Record, n: nat, u: bool)
    requires Inv(s, u) && IsCurrent(s.Get(t), i) && s.Get(t)[i].key == r.key && r.key.name != [] && Added(r)
    requires Absent(s.Get(Other(t)), r.key) && n < |s.Get(Other(t))|
    ensures var log := SetState(s.Get(Other(t)) + [r], n, MarkDeleted(VAR_ADDED_IN_TRANSITION));
      var x := s.Set(t, SetState(s.Get(t), i, VAR_ADDED_IN_TRANSITION)).Set(Other(t), log);
      !Inv(x, false) && Meaning(x, r.key, false) == Some(ValueOf(r))
  {
    hide Inv, Meaning;
    var m := |s.Get(Other(t))|;
    var log := SetState(s.Get(Other(t)) + [r], n, MarkDeleted(VAR_ADDED_IN_TRANSITION));
    var x := s.Set(t, SetState(s.Get(t), i, VAR_ADDED_IN_TRANSITION)).Set(Other(t), log);
    assert log[m] == r;
    forall j | 0 <= j < m && log[j].key == r.key ensures !Added(log[j]) {
      assert j != n ==> log[j] == s.Get(Other(t))[j];
    }
    OnlyAdded(x, Other(t), m, r.key, false);
    BothStores(x, t, i, m);
  }

  /** The completed call: when the mark of a move lands on the state of a record, the new data is lost and the old value
      read, in spite of the success reported, if and only if the new record begins at the offset the old one has in its
      own store. In that case alone the stores still satisfy the invariant. */
  lemma MovedOutcome(s: Stores, sizes: Sizes, q: Request, rt: bool, n: nat, u: bool)
    requires rt ==> u
    requires Inv(s, u) && q.key.name != [] && LandsOn(s, sizes, q, rt, n)
    ensures var x := Marked(SetRun(s, sizes, q, rt), StoreOf(q), n);
      && (Inv(x, false) <==> Coincide(s, q, rt))
      && Meaning(x, q.key, false) ==
         if Coincide(s, q, rt) then Meaning(s, q.key, false) else Some(ValueOf(NewRecord(q)))
  {
    hide Inv, SetRun, Locate, Meaning, Coincide, Marked, IsCurrent, Deletes, Offset;
    LandsWhere(s, sizes, q, rt, n);
    LocateFinds(s, q.key, rt, u);
    var Track(t, i) := Locate(s, q.key, rt).value;
    CurrentLive(s.Get(t), i);
    if Coincide(s, q, rt) {
      var log := s.Get(StoreOf(q));
      assert SetState(log + [NewRecord(q)], n, MarkDeleted(VAR_ADDED_IN_TRANSITION)) ==
        log + [NewRecord(q).(state := MarkDeleted(VAR_ADDED_IN_TRANSITION))];
      LostInMove(s, t, i, NewRecord(q), u);
    } else {
      KeptInMove(s, t, i, NewRecord(q), n, u);
    }
  }

  /** The mark lands on byte j of the data of record n. */
  predicate LandsInData(s: Stores, sizes: Sizes, q: Request, rt: bool, n: nat, j: nat) {
    && Replaces(s, q, rt) && SetRun(s, sizes, q, rt).Stray?
    && var run := SetRun(s, sizes, q, rt);
       var log := Last(run.states).Get(StoreOf(q));
       n < |log| && j < |log[n].data| && run.at == Offset(log, n) + RECORD_HEADER + NameSize(log[n].key) + j
  }

  /** The completed call again: when the mark lands in the data of a record, the new data is read back with the marked
      byte in it if the record is the new one, and else intact. Either way both records of the variable are live. */
  lemma MovedData(s: Stores, sizes: Sizes, q: Request, rt: bool, n: nat, j: nat, b: seq<u8>, u: bool)
    requires rt ==> u
    requires Inv(s, u) && q.key.name != [] && LandsInData(s, sizes, q, rt, n, j)
    requires Image(b, sizes.Get(StoreOf(q)), Last(SetRun(s, sizes, q, rt).states).Get(StoreOf(q)))
    ensures var run, to := SetRun(s, sizes, q, rt), StoreOf(q);
      var log := Last(run.states).Get(to);
      var x := Last(run.states).Set(to, log[n := WithData(log[n], j, run.mark)]);
      && run.at < |b| && Image(b[run.at := run.mark], sizes.Get(to), x.Get(to)) && !Inv(x, false)
      && Meaning(x, q.key, false) ==
         Some(Value(q.attributes, if n == |s.Get(to)| && j < |q.data| then q.data[j := run.mark] else q.data))
  {
    hide Inv, SetRun, Locate, Meaning, IsCurrent, Deletes, Offset, Image;
    StrayMoves(s, sizes, q, rt);
    RunOfMove(s, sizes, q, rt);
    LocateFinds(s, q.key, rt, u);
    var Track(t, i) := Locate(s, q.key, rt).value;
    CurrentLive(s.Get(t), i);
    var run, to := SetRun(s, sizes, q, rt), StoreOf(q);
    ImageData(b, sizes.Get(to), Last(run.states).Get(to), n, j, run.mark);
    SpoiltInMove(s, t, i, NewRecord(q), n, j, run.mark);
  }

  lemma SpoiltInMove(s: Stores, t: StoreType, i: nat, r: Record, n: nat, j: nat, mark: u8)
    requires IsCurrent(s.Get(t), i) && s.Get(t)[i].key == r.key && r.key.name != [] && Added(r)
    requires Absent(s.Get(Other(t)), r.key) && n <= |s.Get(Other(t))| && j < |(s.Get(Other(t)) + [r])[n].data|
    ensures var log := s.Get(Other(t)) + [r];
      var s1 := s.Set(t, SetState(s.Get(t), i, VAR_ADDED_IN_TRANSITION));
      var x := s1.Set(Other(t), log[n := WithData(log[n], j, mark)]);
      && !Inv(x, false)
      && Meaning(x, r.key, false) ==
         Some(Value(r.attributes, if n == |s.Get(Other(t))| && j < |r.data| then r.data[j := mark] else r.data))
  {
    hide Inv, Meaning;
    var m := |s.Get(Other(t))|;
    var all := s.Get(Other(t)) + [r];
    var log := all[n := WithData(all[n], j, mark)];
    var x := s.Set(t, SetState(s.Get(t), i, VAR_ADDED_IN_TRANSITION)).Set(Other(t), log);
    forall k | 0 <= k < m && log[k].key == r.key ensures !Added(log[k]) { assert all[k] == s.Get(Other(t))[k]; }
    OnlyAdded(x, Other(t), m, r.key, false);
    BothStores(x, t, i, m);
  }

  lemma {:induction false} ScanSame(log: seq<Record>, log': seq<Record>, k: Key, rt: bool, i: nat, best: int)
    requires i <= |log| == |log'| && -1 <= best < |log|
    requires forall j :: 0 <= j < |log| ==> Hit(log[j], k, rt) == Hit(log'[j], k, rt)
    requires forall j :: 0 <= j < |log| && Hit(log[j], k, rt) ==> log[j] == log'[j]
    requires best >= 0 ==> Hit(log[best], k, rt)
    ensures Scan(log, k, rt, i, best) == Scan(log', k, rt, i, best)
    decreases |log| - i
  {
    if i < |log| {
      ScanSame(log, log', k, rt, i + 1, if Hit(log[i], k, rt) then i else best);
    }
  }

  /** A dead record in place of one that is no hit changes nothing. */
  lemma BlindTo(s: Stores, t: StoreType, n: nat, r: Record, k: Key, rt: bool)
    requires n < |s.Get(t)| && !Hit(s.Get(t)[n], k, rt) && !Hit(r, k, rt)
    ensures Meaning(s.Set(t, s.Get(t)[n := r]), k, rt) == Meaning(s, k, rt)
  {
    var a, b := s.All(), s.Set(t, s.Get(t)[n := r]).All();
    var m := if t.NvStore? then n else |s.nv| + n;
    assert b == a[m := r];
    ScanSame(a, b, k, rt, 0, -1);
  }

  lemma HiddenAppend(s: Stores, t: StoreType, r: Record, k: Key, rt: bool)
    requires Inv(s, false) && k.name != [] && !Hit(r, k, rt)
    ensures Meaning(s.Set(t, s.Get(t) + [r]), k, rt) == Meaning(s, k, rt)
  {
    var gone := r.(state := MarkDeleted(VAR_ADDED_IN_TRANSITION));
    var log := s.Get(t);
    DeadAppend(s, t, gone);
    ContentAppend(log, gone, k, rt);
    MeaningKept(s, t, log + [gone], k, rt, false);
    var y := s.Set(t, log + [gone]);
    BlindTo(y, t, |log|, r, k, rt);
    assert y.Get(t)[|log| := r] == log + [r] && y.Set(t, log + [r]) == s.Set(t, log + [r]);
  }

  /** The mark lands on byte d of record n. */
  predicate LandsAt(s: Stores, sizes: Sizes, q: Request, rt: bool, n: nat, d: nat) {
    && Replaces(s, q, rt) && SetRun(s, sizes, q, rt).Stray?
    && var run := SetRun(s, sizes, q, rt);
       var log := Last(run.states).Get(StoreOf(q));
       n < |log| && d < SizeOf(log[n]) && run.at == Offset(log, n) + d
  }

  lemma StateByte(r: Record)
    requires WellFormed(r)
    ensures |Encode(r)| > 2 && Encode(r)[2] == r.state
  {
  }

  /** The completed call in general: wherever the mark lands in a record so that another record r of the same size
      stands there, be it on the state, the attributes, the GUID, the name or the data. The new data is lost if it was
      the new record and is now dead or another variable's, and hidden if an older record has become an added one of
      this variable; otherwise the new record is read as it is now. */
  lemma MovedField(s: Stores, sizes: Sizes, q: Request, rt: bool, n: nat, d: nat, r: Record, b: seq<u8>, u: bool)
    requires rt ==> u
    requires Inv(s, u) && q.key.name != [] && LandsAt(s, sizes, q, rt, n, d)
    requires var run := SetRun(s, sizes, q, rt);
      var log := Last(run.states).Get(StoreOf(q));
      && Image(b, sizes.Get(StoreOf(q)), log) && WellFormed(log[n])
      && WellFormed(r) && SizeOf(r) == SizeOf(log[n]) && Encode(r) == Encode(log[n])[d := run.mark]
    ensures var run, to, log := SetRun(s, sizes, q, rt), StoreOf(q), s.Get(StoreOf(q));
      var x := Last(run.states).Set(to, (log + [NewRecord(q)])[n := r]);
      && n <= |log| && run.at < |b| && Image(b[run.at := run.mark], sizes.Get(to), x.Get(to))
      && Meaning(x, q.key, false) ==
         if n < |log| then
           if r.key == q.key && Added(r) then Some(ValueOf(r)) else Some(ValueOf(NewRecord(q)))
         else if r.key == q.key && Added(r) then Some(ValueOf(r)) else Meaning(s, q.key, false)
  {
    hide Inv, SetRun, Locate, Meaning, IsCurrent, Deletes, Offset, Image, Encode, SizeOf, WellFormed;
    StrayMoves(s, sizes, q, rt);
    RunOfMove(s, sizes, q, rt);
    LocateFinds(s, q.key, rt, u);
    var Track(t, i) := Locate(s, q.key, rt).value;
    CurrentLive(s.Get(t), i);
    var run, to := SetRun(s, sizes, q, rt), StoreOf(q);
    var log := Last(run.states).Get(to);
    ImageByte(b, sizes.Get(to), log, n, r, d, run.mark);
    StateByte(r);
    StateByte(log[n]);
    if n < |s.Get(to)| {
      ChangedBefore(s, t, i, NewRecord(q), n, r);
    } else {
      ChangedNew(s, t, i, NewRecord(q), r, u);
      assert log[n := r] == s.Get(to) + [r];
    }
  }

  /** An older record of the new store has become r. */
  lemma ChangedBefore(s: Stores, t: StoreType, i: nat, new': Record, n: nat, r: Record)
    requires IsCurrent(s.Get(t), i) && s.Get(t)[i].key == new'.key && new'.key.name != [] && Added(new')
    requires Absent(s.Get(Other(t)), new'.key) && n < |s.Get(Other(t))|
    ensures var x := s.Set(t, SetState(s.Get(t), i, VAR_ADDED_IN_TRANSITION))
                      .Set(Other(t), (s.Get(Other(t)) + [new'])[n := r]);
      Meaning(x, new'.key, false) == Some(ValueOf(if r.key == new'.key && Added(r) then r else new'))
  {
    hide Meaning;
    var m := |s.Get(Other(t))|;
    var all := s.Get(Other(t)) + [new'];
    var log := all[n := r];
    var x := s.Set(t, SetState(s.Get(t), i, VAR_ADDED_IN_TRANSITION)).Set(Other(t), log);
    forall k | 0 <= k < m && k != n && log[k].key == new'.key ensures !Added(log[k]) {
      assert log[k] == s.Get(Other(t))[k];
    }
    assert log[m] == new' && log[n] == r;
    OnlyAdded(x, Other(t), if r.key == new'.key && Added(r) then n else m, new'.key, false);
  }

  /** The new record has become r, which is added or dead. */
  lemma ChangedNew(s: Stores, t: StoreType, i: nat, new': Record, r: Record, u: bool)
    requires Inv(s, u) && IsCurrent(s.Get(t), i) && s.Get(t)[i].key == new'.key && new'.key.name != []
    requires Absent(s.Get(Other(t)), new'.key) && (Live(r) ==> Added(r))
    ensures var x := s.Set(t, SetState(s.Get(t), i, VAR_ADDED_IN_TRANSITION)).Set(Other(t), s.Get(Other(t)) + [r]);
      Meaning(x, new'.key, false) ==
        if r.key == new'.key && Added(r) then Some(ValueOf(r)) else Meaning(s, new'.key, false)
  {
    hide Inv, Meaning;
    InvWeaken(s, u);
    MarkLive(s.Get(t)[i]);
    WriteTransition(s, t, i, new'.key, false, false);
    var s1 := s.Set(t, SetState(s.Get(t), i, VAR_ADDED_IN_TRANSITION));
    if r.key == new'.key && Added(r) {
      OnlyAdded(s1.Set(Other(t), s.Get(Other(t)) + [r]), Other(t), |s.Get(Other(t))|, new'.key, false);
    } else {
      HiddenAppend(s1, Other(t), r, new'.key, false);
    }
  }

  /** The mark lands on the start of record n: the walk ends there, and that record and all behind it are lost, the new
      one among them. The old value is read, although the call succeeds. */
  lemma MovedStart(s: Stores, sizes: Sizes, q: Request, rt: bool, n: nat, d: nat, b: seq<u8>, u: bool)
    requires rt ==> u
    requires Inv(s, u) && q.key.name != [] && LandsAt(s, sizes, q, rt, n, d) && d < 2
    requires Image(b, sizes.Get(StoreOf(q)), Last(SetRun(s, sizes, q, rt).states).Get(StoreOf(q)))
    ensures var run, to := SetRun(s, sizes, q, rt), StoreOf(q);
      var seen := Last(run.states).Get(to)[..n];
      var b' := if run.at < |b| then b[run.at := run.mark] else b;
      && run.at < |b| && Framed(b', seen) && End(seen) + 2 <= |b'| && !IsValidVariableHeader(b', End(seen))
      && n <= |s.Get(to)| && seen == s.Get(to)[..n]
      && Meaning(Last(run.states).Set(to, seen), q.key, false) == Meaning(s, q.key, false)
  {
    hide Inv, SetRun, Locate, Meaning, IsCurrent, Deletes, Offset, Image, SizeOf, Framed;
    StrayMoves(s, sizes, q, rt);
    RunOfMove(s, sizes, q, rt);
    LocateFinds(s, q.key, rt, u);
    var Track(t, i) := Locate(s, q.key, rt).value;
    CurrentLive(s.Get(t), i);
    var run, to := SetRun(s, sizes, q, rt), StoreOf(q);
    CutHeader(b, sizes.Get(to), Last(run.states).Get(to), n, d, run.mark);
    InvWeaken(s, u);
    MarkLive(s.Get(t)[i]);
    WriteTransition(s, t, i, q.key, false, false);
    CutElsewhere(s.Set(t, SetState(s.Get(t), i, VAR_ADDED_IN_TRANSITION)), to, n, q.key);
    assert Last(run.states).Get(to)[..n] == s.Get(to)[..n];
  }

  /** Cutting a store off changes no variable that has no live record in it. */
  lemma CutElsewhere(s: Stores, t: StoreType, n: nat, k: Key)
    requires Inv(s, false) && n <= |s.Get(t)| && Absent(s.Get(t), k) && k.name != []
    ensures Meaning(s.Set(t, s.Get(t)[..n]), k, false) == Meaning(s, k, false)
  {
    var log := s.Get(t);
    SoundOf(s, t, false);
    forall i, j | 0 <= i < j < n ensures Supersedes(log[..n][i], log[..n][j], false) {
      assert Supersedes(log[i], log[j], false);
    }
    forall j | 0 <= j < n && Live(log[j]) ensures Home(s, t, log[j]) { HomeOld(s, t, j, false); }
    InvSet(s, t, log[..n], false);
    ContentAbsent(log, k, false);
    ContentAbsent(log[..n], k, false);
    MeaningKept(s, t, log[..n], k, false, false);
  }

  // ---- The other variables ----------------------------------------------------------------------

  /** Marking record n deleted shows the older record if n is the newest hit, and nothing else changes. */
  lemma DeadContent(log: seq<Record>, n: nat, state: u8, k: Key)
    requires n < |log| && state != VAR_ADDED && state != VAR_ADDED_IN_TRANSITION
    ensures Content(SetState(log, n, state), k, false) ==
      if n == Newest(log, k, false, |log|) then ValueAt(log, Newest(log, k, false, n)) else Content(log, k, false)
  {
    var f, log' := Newest(log, k, false, |log|), SetState(log, n, state);
    if n == f {
      DeadShowsOlder(log, n, state, k, false);
    } else {
      var g := Newest(log', k, false, |log'|);
      assert f >= 0 ==> log'[f] == log[f];
      assert g >= 0 ==> log'[g] == log[g];
    }
  }

  lemma DeadMeaning(s: Stores, t: StoreType, n: nat, state: u8, k: Key)
    requires Inv(s, false) && k.name != [] && n < |s.Get(t)| && state != VAR_ADDED && state != VAR_ADDED_IN_TRANSITION
    ensures var s' := s.Set(t, SetState(s.Get(t), n, state));
      && Inv(s', false)
      && Meaning(s', k, false) ==
         if n == Newest(s.Get(t), k, false, |s.Get(t)|) then ValueAt(s.Get(t), Newest(s.Get(t), k, false, n))
         else Meaning(s, k, false)
  {
    var log, log' := s.Get(t), SetState(s.Get(t), n, state);
    SoundOf(s, t, false);
    SoundMark(log, n, state, false);
    forall j | 0 <= j < |log'| && Live(log'[j]) ensures Home(s, t, log'[j]) { HomeOld(s, t, j, false); }
    InvSet(s, t, log', false);
    DeadContent(log, n, state, k);
    MeaningSplit(s, t, k, false, false);
    MeaningSplit(s.Set(t, log'), t, k, false, false);
    if n == Newest(log, k, false, |log|) {
      OneSide(s, t, k, false, false);
      ContentAbsent(s.Get(Other(t)), k, false);
    }
  }

  /** Every other variable keeps its value, but for the one whose newest record the mark lands on: that goes back to its
      next older record, and is gone if there is none. */
  lemma MovedOthers(s: Stores, sizes: Sizes, q: Request, rt: bool, n: nat, k: Key, u: bool)
    requires rt ==> u
    requires Inv(s, u) && q.key.name != [] && LandsOn(s, sizes, q, rt, n) && k.name != [] && k != q.key
    ensures var x, log := Marked(SetRun(s, sizes, q, rt), StoreOf(q), n), s.Get(StoreOf(q));
      Meaning(x, k, false) ==
        if n == Newest(log, k, false, |log|) then ValueAt(log, Newest(log, k, false, n)) else Meaning(s, k, false)
  {
    hide Inv, SetRun, Locate, Meaning, Coincide, Marked, IsCurrent, Deletes, Offset, Newest, Content;
    LandsWhere(s, sizes, q, rt, n);
    LocateFinds(s, q.key, rt, u);
    InvWeaken(s, u);
    var Track(t, i) := Locate(s, q.key, rt).value;
    CurrentLive(s.Get(t), i);
    MarkLive(s.Get(t)[i]);
    WriteTransition(s, t, i, k, false, false);
    var s1 := s.Set(t, SetState(s.Get(t), i, VAR_ADDED_IN_TRANSITION));
    LandedOthers(s1, StoreOf(q), n, NewRecord(q), k);
  }

  lemma LandedOthers(s: Stores, to: StoreType, n: nat, r: Record, k: Key)
    requires Inv(s, false) && k.name != [] && r.key != k && n <= |s.Get(to)|
    ensures var log, mark := s.Get(to), MarkDeleted(VAR_ADDED_IN_TRANSITION);
      Meaning(s.Set(to, SetState(log + [r], n, mark)), k, false) ==
        if n == Newest(log, k, false, |log|) then ValueAt(log, Newest(log, k, false, n)) else Meaning(s, k, false)
  {
    hide Inv, Meaning, Newest, Content;
    var log, mark := s.Get(to), MarkDeleted(VAR_ADDED_IN_TRANSITION);
    var gone := r.(state := mark);
    DeadAppend(s, to, gone);
    var y := s.Set(to, log + [gone]);
    ContentAppend(log, gone, k, false);
    MeaningKept(s, to, log + [gone], k, false, false);
    if n == |log| {
      assert SetState(log + [r], n, mark) == log + [gone];
      NewestInside(log, k);
    } else {
      DeadMeaning(y, to, n, mark, k);
      NewestPrefix(log + [gone], log, k, false, n);
      NewestPrefix(log + [gone], log, k, false, |log|);
      NewestSkips(log, gone, k);
      var z := s.Set(to, SetState(log + [gone], n, mark));
      assert y.Set(to, SetState(y.Get(to), n, mark)) == z;
      BlindTo(z, to, |log|, r, k, false);
      assert SetState(log + [gone], n, mark)[|log| := r] == SetState(log + [r], n, mark);
    }
  }

  lemma NewestInside(log: seq<Record>, k: Key)
    ensures Newest(log, k, false, |log|) < |log|
  {
  }

  lemma NewestSkips(log: seq<Record>, r: Record, k: Key)
    requires !Live(r)
    ensures Newest(log + [r], k, false, |log| + 1) == Newest(log + [r], k, false, |log|)
  {
  }

  /** So the first variable of one store, moved to the other while that is empty, is lost. */
  lemma FirstIsLost(s: Stores, sizes: Sizes, q: Request)
    requires Inv(s, false) && q.key.name != [] && Replaces(s, q, false) && SetRun(s, sizes, q, false).Stray?
    requires Locate(s, q.key, false).value.i == 0 && s.Get(StoreOf(q)) == []
    ensures SetRun(s, sizes, q, false).states != [] && |Last(SetRun(s, sizes, q, false).states).Get(StoreOf(q))| == 1
    ensures Meaning(Marked(SetRun(s, sizes, q, false), StoreOf(q), 0), q.key, false) == Meaning(s, q.key, false)
  {
    hide Inv, SetRun, Locate, Meaning, Marked, Deletes;
    StrayMoves(s, sizes, q, false);
    RunOfMove(s, sizes, q, false);
    MovedOutcome(s, sizes, q, false, 0, false);
  }
}
