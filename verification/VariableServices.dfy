/** What callers of SetVariable can rely on, whether or not the request moves the variable to the other store. */
module VariableServices {
  import opened EfiTypes
  import opened Words
  import opened VariableLog
  import opened VariableUpdate
  import opened VariableRun
  import opened VariableRecovery
  import opened VariableEnumeration
  import opened VariableGhosts
  import opened VariableMoves

  /** The request replaces the data of a variable and names the store it is not in. */
  predicate Moves(s: Stores, q: Request, rt: bool) {
    Replaces(s, q, rt) && Locate(s, q.key, rt).value.t == Other(StoreOf(q))
  }

  // ---- Which requests there are -----------------------------------------------------------------

  lemma NothingLive(s: Stores, k: Key)
    requires Inv(s, false) && k.name != [] && Locate(s, k, false).None?
    ensures Absent(s.nv, k) && Absent(s.vol, k)
  {
    SoundAll(s, false);
    FindIsNewest(s.All(), k, false, false);
    forall i | 0 <= i < |s.nv| && Live(s.nv[i]) ensures s.nv[i].key != k { assert s.All()[i] == s.nv[i]; }
    forall i | 0 <= i < |s.vol| && Live(s.vol[i]) ensures s.vol[i].key != k { assert s.All()[|s.nv| + i] == s.vol[i]; }
  }

  lemma AbsentKeeps(s: Stores, q: Request)
    requires Absent(s.nv, q.key) && Absent(s.vol, q.key)
    ensures KeepsAccess(s, q, false)
  {
    forall i | 0 <= i < |s.All()| && Live(s.All()[i]) ensures s.All()[i].key != q.key {
      if i < |s.nv| { assert s.All()[i] == s.nv[i]; } else { assert s.All()[i] == s.vol[i - |s.nv|]; }
    }
  }

  /** Before the runtime a request deletes, changes nothing, keeps the variable's volatility, or moves the variable. */
  lemma AllRequests(s: Stores, sizes: Sizes, q: Request)
    requires Inv(s, false) && q.key.name != []
    ensures Deletes(q) || KeepsAccess(s, q, false) || Moves(s, q, false) ||
            (SetRun(s, sizes, q, false) == Run(EFI_SUCCESS, [s], -1) &&
             Meaning(s, q.key, false).Some? && Meaning(s, q.key, false).value.data == q.data)
  {
    hide Inv, KeepsAccess, StoreNew, Deletes;
    var f := Locate(s, q.key, false);
    if f.None? {
      NothingLive(s, q.key);
      AbsentKeeps(s, q);
    } else if !Deletes(q) {
      LocateFinds(s, q.key, false, false);
      CurrentLive(s.Get(f.value.t), f.value.i);
      SameStoreKeeps(s, q, f.value, false);
    }
  }

  // ---- Reading back -----------------------------------------------------------------------------

  /** A move that ends without a stray mark has reclaimed. */
  lemma MoveThenGet(s: Stores, sizes: Sizes, q: Request)
    requires Inv(s, false) && q.key.name != [] && Moves(s, q, false) && SetRun(s, sizes, q, false).Run?
    ensures var run := SetRun(s, sizes, q, false);
      Meaning(Last(run.states), q.key, false) ==
        if run.status.EFI_SUCCESS? then Some(ValueOf(NewRecord(q))) else Meaning(s, q.key, false)
  {
    hide Inv, Meaning, Locate, Deletes, Compact, Offset, SetState;
    if SetRun(s, sizes, q, false).status.EFI_SUCCESS? {
      MovedReads(s, sizes, q, false, false);
    } else {
      LocateFinds(s, q.key, false, false);
      var Track(t, i) := Locate(s, q.key, false).value;
      CurrentLive(s.Get(t), i);
      MarkLive(s.Get(t)[i]);
      WriteTransition(s, t, i, q.key, false, false);
      WriteCompact(s.Set(t, SetState(s.Get(t), i, VAR_ADDED_IN_TRANSITION)), StoreOf(q), -1, q.key, false, false);
    }
  }

  /** The variable is found and holds this data already: nothing is written. */
  predicate SameData(s: Stores, q: Request, rt: bool) {
    && Locate(s, q.key, rt).Some?
    && var Track(t, i) := Locate(s, q.key, rt).value;
       s.Get(t)[i].data == q.data
  }

  lemma FoundIsMeaning(s: Stores, k: Key, rt: bool)
    ensures Locate(s, k, rt).None? ==> Meaning(s, k, rt).None?
    ensures Locate(s, k, rt).Some? ==>
      var Track(t, i) := Locate(s, k, rt).value;
      Meaning(s, k, rt) == Some(ValueOf(s.Get(t)[i]))
  {
  }

  lemma KeptIsRun(s: Stores, sizes: Sizes, q: Request, rt: bool, u: bool)
    requires rt ==> u
    requires Inv(s, u) && q.key.name != [] && (Deletes(q) || KeepsAccess(s, q, u))
    ensures SetRun(s, sizes, q, rt).Run?
  {
    hide Inv, KeepsAccess, Meaning, Update, Deletes;
    UpdateRun(s, sizes, q, rt, q.key, false, u);
  }

  lemma BootThenGet(s: Stores, sizes: Sizes, q: Request)
    requires Inv(s, false) && q.key.name != [] && !Deletes(q)
    ensures var run := SetRun(s, sizes, q, false);
      var was, got := Meaning(s, q.key, false), Meaning(Last(run.states), q.key, false);
      got == if Stored(run) && !SameData(s, q, false) then Some(ValueOf(NewRecord(q))) else was
  {
    hide Inv, KeepsAccess, Meaning, Deletes, Locate, StoreNew;
    FoundIsMeaning(s, q.key, false);
    AllRequests(s, sizes, q);
    if !SameData(s, q, false) {
      if KeepsAccess(s, q, false) {
        KeptIsRun(s, sizes, q, false, false);
        KeptThenGet(s, sizes, q, false, false);
      } else if Moves(s, q, false) {
        if SetRun(s, sizes, q, false).Stray? {
          MovedReads(s, sizes, q, false, false);
        } else {
          MoveThenGet(s, sizes, q);
        }
      }
    }
  }

  // ---- Reading back at runtime ------------------------------------------------------------------

  /** What FindVariable points to is the newest visible record of its store, no other visible one is added, and the
      other store has none. That needs no agreement on runtime access. */
  lemma FoundVisible(s: Stores, k: Key, rt: bool)
    requires Inv(s, false) && k.name != [] && Locate(s, k, rt).Some?
    ensures var Track(t, i) := Locate(s, k, rt).value;
      && i == Newest(s.Get(t), k, rt, |s.Get(t)|) && Absent(s.Get(Other(t)), k) && s.Get(t)[i].key == k
      && forall a :: 0 <= a < |s.Get(t)| && a != i && Hit(s.Get(t)[a], k, rt) ==> !Added(s.Get(t)[a])
  {
    SoundAll(s, false);
    FindIsNewest(s.All(), k, rt, false);
    NewestAll(s.nv, s.vol, k, rt, |s.vol|);
    var Track(t, i) := Locate(s, k, rt).value;
    OneSide(s, t, k, rt, false);
    forall a | 0 <= a < |s.Get(t)| && a != i && Hit(s.Get(t)[a], k, rt) ensures !Added(s.Get(t)[a]) {
      assert a < i && Supersedes(s.Get(t)[a], s.Get(t)[i], false);
    }
  }

  /** Replacing the record found at runtime: the new one is read if it has runtime access, else what stood before. */
  lemma ReplacedAtRuntime(s: Stores, q: Request)
    requires Inv(s, false) && q.key.name != [] && Locate(s, q.key, true).Some?
    ensures var Track(t, i) := Locate(s, q.key, true).value;
      var log, r := s.Get(t), NewRecord(q);
      Meaning(s.Set(t, SetState(log, i, MarkDeleted(VAR_ADDED_IN_TRANSITION)) + [r]), q.key, true) ==
        if AtRuntime(r) then Some(ValueOf(r)) else ValueAt(log, Newest(log, q.key, true, i))
  {
    hide Inv, Locate, Meaning, AtRuntime, Newest;
    FoundVisible(s, q.key, true);
    var Track(t, i) := Locate(s, q.key, true).value;
    var log, r := s.Get(t), NewRecord(q);
    var dead := SetState(log, i, MarkDeleted(VAR_ADDED_IN_TRANSITION));
    if AtRuntime(r) {
      OnlyAdded(s.Set(t, dead + [r]), t, |log|, q.key, true);
    } else {
      var mark := MarkDeleted(VAR_ADDED_IN_TRANSITION);
      InvDead(s, t, i, mark);
      DeadShowsOlder(log, i, mark, q.key, true);
      ContentAbsent(s.Get(Other(t)), q.key, true);
      MeaningSplit(s.Set(t, dead), t, q.key, true, false);
      HiddenAppend(s.Set(t, dead), t, r, q.key, true);
      assert s.Set(t, dead).Set(t, dead + [r]) == s.Set(t, dead + [r]);
      OlderInside(log, q.key, i);
    }
  }

  lemma OlderInside(log: seq<Record>, k: Key, i: nat)
    requires i < |log|
    ensures -1 <= Newest(log, k, true, i) < |log|
  {
  }

  lemma InvDead(s: Stores, t: StoreType, n: nat, state: u8)
    requires Inv(s, false) && n < |s.Get(t)| && state != VAR_ADDED && state != VAR_ADDED_IN_TRANSITION
    ensures Inv(s.Set(t, SetState(s.Get(t), n, state)), false)
  {
    var log' := SetState(s.Get(t), n, state);
    SoundOf(s, t, false);
    SoundMark(s.Get(t), n, state, false);
    forall j | 0 <= j < |log'| && Live(log'[j]) ensures Home(s, t, log'[j]) { HomeOld(s, t, j, false); }
    InvSet(s, t, log', false);
  }

  /** Moving it: the new record is read if it has runtime access, else the old one still is; so it is without the new
      record, when the move failed. */
  lemma MovedAtRuntime(s: Stores, q: Request, room: bool)
    requires Inv(s, false) && q.key.name != [] && Locate(s, q.key, true).Some?
    ensures var Track(t, i) := Locate(s, q.key, true).value;
      var s1 := s.Set(t, SetState(s.Get(t), i, VAR_ADDED_IN_TRANSITION));
      var to, r := Other(t), NewRecord(q);
      && Meaning(s1, q.key, true) == Meaning(s, q.key, true)
      && Meaning(s1.Set(to, Into(s.Get(to), room)), q.key, true) == Meaning(s, q.key, true)
      && Meaning(s1.Set(to, Into(s.Get(to), room) + [r]), q.key, true) ==
         if AtRuntime(r) then Some(ValueOf(r)) else Meaning(s, q.key, true)
  {
    hide Inv, Locate, Meaning, AtRuntime, Newest, Compact;
    FoundVisible(s, q.key, true);
    var Track(t, i) := Locate(s, q.key, true).value;
    var to, r := Other(t), NewRecord(q);
    MarkLive(s.Get(t)[i]);
    WriteTransition(s, t, i, q.key, true, false);
    var s1 := s.Set(t, SetState(s.Get(t), i, VAR_ADDED_IN_TRANSITION));
    WriteCompact(s1, to, -1, q.key, false, false);
    CompactAbsent(s.Get(to), -1, q.key);
    var into := Into(s.Get(to), room);
    assert s1.Set(to, s.Get(to)) == s1;
    ContentAbsent(into, q.key, true);
    ContentAbsent(s.Get(to), q.key, true);
    MeaningKept(s1, to, into, q.key, true, false);
    var s2 := s1.Set(to, into);
    if AtRuntime(r) {
      OnlyAdded(s1.Set(to, into + [r]), to, |into|, q.key, true);
    } else {
      HiddenAppend(s2, to, r, q.key, true);
    }
    assert s2.Set(to, into + [r]) == s1.Set(to, into + [r]);
  }

  lemma CreatedAtRuntime(s: Stores, q: Request)
    requires q.key.name != [] && Locate(s, q.key, true).None? && AtRuntime(NewRecord(q))
    ensures Meaning(s.Set(NvStore, s.nv + [NewRecord(q)]), q.key, true) == Some(ValueOf(NewRecord(q)))
  {
    ScanAnswer(s.All(), q.key, true, 0, -1);
    forall j | 0 <= j < |s.nv| ensures !Hit(s.nv[j], q.key, true) { assert s.All()[j] == s.nv[j]; }
    forall j | 0 <= j < |s.vol| ensures !Hit(s.vol[j], q.key, true) { assert s.All()[|s.nv| + j] == s.vol[j]; }
    OnlyAdded(s.Set(NvStore, s.nv + [NewRecord(q)]), NvStore, |s.nv|, q.key, true);
  }

  /** What a call at runtime can end with. */
  lemma RuntimeEnds(s: Stores, sizes: Sizes, q: Request)
    requires Inv(s, false) && !Deletes(q) && !SameData(s, q, true)
    ensures var run, f, r := SetRun(s, sizes, q, true), Locate(s, q.key, true), NewRecord(q);
      var x := Last(run.states);
      && (f.None? ==> if Stored(run) then AtRuntime(r) && x == s.Set(NvStore, s.nv + [r]) else x == s)
      && (f.Some? ==>
            var Track(t, i) := f.value;
            var s1 := s.Set(t, SetState(s.Get(t), i, VAR_ADDED_IN_TRANSITION));
            if Stored(run) then
              if t == StoreOf(q) then x == s.Set(t, SetState(s.Get(t), i, MarkDeleted(VAR_ADDED_IN_TRANSITION)) + [r])
              else x == s1.Set(Other(t), Into(s.Get(Other(t)), HasRoom(s, sizes, q)) + [r])
            else x == s || x == s1 || x == s1.Set(Other(t), Into(s.Get(Other(t)), false)))
  {
    hide Compact, Deletes, Locate, Offset, SizeOf, Inv, Meaning, AtRuntime, SetState, Fits;
    var f := Locate(s, q.key, true);
    if f.Some? {
      var Track(t, i) := f.value;
      MarkLive(s.Get(t)[i]);
      EndSame(s.Get(t), i);
      MarkedTwice(s.Get(t), i, VAR_ADDED_IN_TRANSITION, MarkDeleted(VAR_ADDED_IN_TRANSITION), NewRecord(q));
      if Stored(SetRun(s, sizes, q, true)) {
        if t == StoreOf(q) {
          StayRun(s, sizes, q, true);
          RunOfReplace(s, sizes, q, true);
          RuntimeRoom(s, sizes, q);
        } else {
          RunOfMove(s, sizes, q, true);
        }
      }
    }
  }

  lemma EndSame(log: seq<Record>, i: nat)
    requires i < |log|
    ensures |SetState(log, i, VAR_ADDED_IN_TRANSITION)| == |log|
  {
  }

  lemma RuntimeRoom(s: Stores, sizes: Sizes, q: Request)
    requires Replaces(s, q, true) && Locate(s, q.key, true).value.t == StoreOf(q) && Stored(SetRun(s, sizes, q, true))
    ensures HasRoom(s, sizes, q)
  {
    hide Compact, Deletes, Locate, Offset, SizeOf, AtRuntime;
    var Track(t, i) := Locate(s, q.key, true).value;
    MarkLive(s.Get(t)[i]);
    StateKeepsOffset(s.Get(t), i, VAR_ADDED_IN_TRANSITION);
  }

  lemma RuntimeThenGet(s: Stores, sizes: Sizes, q: Request)
    requires Inv(s, false) && q.key.name != [] && !Deletes(q)
    ensures var run, f := SetRun(s, sizes, q, true), Locate(s, q.key, true);
      var was, got := Meaning(s, q.key, true), Meaning(Last(run.states), q.key, true);
      if !Stored(run) || SameData(s, q, true) then got == was
      else if AtRuntime(NewRecord(q)) then got == Some(ValueOf(NewRecord(q)))
      else f.Some? && got == if f.value.t == StoreOf(q) then Older(s, q) else was
  {
    hide Inv, Meaning, Deletes, AtRuntime, StoreNew, Compact, SetState;
    if !SameData(s, q, true) {
      RuntimeEnds(s, sizes, q);
      if Locate(s, q.key, true).None? {
        if Stored(SetRun(s, sizes, q, true)) { CreatedAtRuntime(s, q); }
      } else {
        ReplacedAtRuntime(s, q);
        MovedAtRuntime(s, q, HasRoom(s, sizes, q));
        MovedAtRuntime(s, q, false);
      }
    }
  }

  /** The value of the next older record that the runtime sees. */
  function Older(s: Stores, q: Request): Option<Value>
    requires Locate(s, q.key, true).Some?
  {
    var Track(t, i) := Locate(s, q.key, true).value;
    ValueAt(s.Get(t), Newest(s.Get(t), q.key, true, i))
  }

  /** The runtime sees only records with runtime access, so nothing it reads is a record without. */
  lemma SeenAtRuntime(s: Stores, k: Key)
    ensures Meaning(s, k, true).Some? ==>
      TestMask(Meaning(s, k, true).value.attributes, EFI_VARIABLE_RUNTIME_ACCESS)
  {
  }

  /** After any request, before the runtime or at it, on any store: after an error, or when the data is there already,
      GetVariable answers what it did before; after another success it answers the new value if and only if that may be
      read at all, which at runtime takes runtime access. A deletion mark that goes astray comes after the states of the
      run; what it does is MovedOutcome. */
  lemma SetThenGet(s: Stores, sizes: Sizes, q: Request, rt: bool)
    requires Inv(s, false) && q.key.name != [] && !Deletes(q)
    ensures var run := SetRun(s, sizes, q, rt);
      var was, got := Meaning(s, q.key, rt), Meaning(Last(run.states), q.key, rt);
      && (!Stored(run) || SameData(s, q, rt) ==> got == was)
      && (SameData(s, q, rt) ==> was.Some? && was.value.data == q.data)
      && (Stored(run) && !SameData(s, q, rt) ==>
            (got == Some(ValueOf(NewRecord(q))) <==> (rt ==> AtRuntime(NewRecord(q)))))
  {
    hide Inv, Meaning, SetRun, Deletes, Stored;
    FoundIsMeaning(s, q.key, rt);
    if rt {
      RuntimeThenGet(s, sizes, q);
      SeenAtRuntime(Last(SetRun(s, sizes, q, true).states), q.key);
    } else {
      BootThenGet(s, sizes, q);
    }
  }

  /** A call at runtime that succeeds, keeps the volatility, does not reclaim and sends no mark astray, and after which
      the variable is gone for the runtime: the request leaves runtime access out. */
  lemma RuntimeHides(b: Record, q: Request, sizes: Sizes)
    requires Added(b) && b.key == q.key && q.key.name != [] && q.data != [] && b.data != q.data
    requires b.attributes == 7 && q.attributes == 3
    requires SizeOf(NewRecord(q)) + STORE_HEADER + SizeOf(b) <= sizes.nv
    ensures var s, run := Stores([b], []), SetRun(Stores([b], []), sizes, q, true);
      && Inv(s, true) && KeepsAccess(s, q, false)
      && run.Run? && run.status.EFI_SUCCESS? && run.erased == -1
      && Meaning(s, q.key, true) == Some(ValueOf(b)) && Meaning(Last(run.states), q.key, true) == None
  {
    var s := Stores([b], []);
    assert s.All() == [b];
    assert Scan([b], q.key, true, 0, -1) == 0;
    assert End([b]) == STORE_HEADER + SizeOf(b) by { assert Offset([b], 0) == STORE_HEADER; }
    FirstOnly(b, sizes, q);
    RuntimeThenGet(s, sizes, q);
    assert Newest([b], q.key, true, 0) == -1;
  }

  lemma FirstOnly(b: Record, sizes: Sizes, q: Request)
    requires Added(b) && b.key == q.key && q.data != [] && b.data != q.data && b.attributes == 7 && q.attributes == 3
    requires Locate(Stores([b], []), q.key, true) == Some(Track(NvStore, 0))
    requires End([b]) == STORE_HEADER + SizeOf(b) && SizeOf(NewRecord(q)) + STORE_HEADER + SizeOf(b) <= sizes.nv
    ensures var run := SetRun(Stores([b], []), sizes, q, true);
      run.Run? && run.status.EFI_SUCCESS? && run.erased == -1
  {
    hide Locate, Offset, SizeOf;
    StateKeepsOffset([b], 0, VAR_ADDED_IN_TRANSITION);
  }

  // ---- At runtime -------------------------------------------------------------------------------

  /** Only the non-volatile store changes, and nothing is erased. */
  predicate OnlyAppends(s: Stores, run: Run) {
    run.Run? && run.erased == -1 && forall n :: 0 <= n < |run.states| ==>
      run.states[n].vol == s.vol && |run.states[n].nv| >= |s.nv|
  }

  /** At runtime a call only appends to the non-volatile store, and so never erases anything, if and only if it does not
      move a variable out of that store. */
  lemma RuntimeOnlyAppends(s: Stores, sizes: Sizes, q: Request)
    requires Inv(s, false) && q.key.name != []
    ensures OnlyAppends(s, SetRun(s, sizes, q, true)) <==>
      !(Replaces(s, q, true) && Locate(s, q.key, true).value.t.NvStore? && StoreOf(q).VolatileStore?)
  {
    hide Deletes, Locate, AtRuntime, Fits, Compact, Sound, Apart, Offset;
    var run := SetRun(s, sizes, q, true);
    if Replaces(s, q, true) && Locate(s, q.key, true).value.t.NvStore? && StoreOf(q).VolatileStore? {
      assert run.Stray? || run.erased >= 0;
    }
  }

  // ---- Power failure ----------------------------------------------------------------------------

  lemma SameAfterReboot(s: Stores, log: seq<Record>, i: nat, k: Key, rt: bool, u: bool)
    requires Inv(s, u) && k.name != [] && i < |s.nv| && Live(s.nv[i])
    requires log == s.nv || log == SetState(s.nv, i, VAR_ADDED_IN_TRANSITION)
    ensures Meaning(Stores(log, []), k, rt) == Meaning(Reboot(s), k, rt)
  {
    RebootInv(s, u);
    MarkLive(s.nv[i]);
    WriteTransition(Reboot(s), NvStore, i, k, rt, u);
  }

  lemma CompactAfterReboot(s: Stores, k: Key, rt: bool, u: bool)
    requires rt ==> u
    requires Inv(s, u) && k.name != []
    ensures Inv(Stores(Compact(s.nv, -1), []), u)
    ensures Meaning(Stores(Compact(s.nv, -1), []), k, rt) == Meaning(Reboot(s), k, rt)
  {
    RebootInv(s, u);
    WriteCompact(Reboot(s), NvStore, -1, k, rt, u);
  }

  // ---- Power failure without a reclaim ----------------------------------------------------------

  /** The log with r in place of record n, or behind all records. */
  function Put(log: seq<Record>, n: nat, r: Record): seq<Record>
    requires n <= |log|
  {
    if n < |log| then log[n := r] else log + [r]
  }

  /** One write that concerns no variable but k. */
  ghost predicate Step(x: Stores, y: Stores, k: Key) {
    exists t: StoreType, n: nat, r: Record ::
      n <= |x.Get(t)| && r.key == k && (n < |x.Get(t)| ==> x.Get(t)[n].key == k) && y == x.Set(t, Put(x.Get(t), n, r))
  }

  lemma {:induction false} ScanMore(log: seq<Record>, r: Record, k: Key, rt: bool, i: nat, best: int)
    requires i <= |log| && -1 <= best < |log| && (best >= 0 ==> Hit(log[best], k, rt)) && !Hit(r, k, rt)
    ensures Scan(log + [r], k, rt, i, best) == Scan(log, k, rt, i, best)
    decreases |log| - i
  {
    if i < |log| {
      ScanMore(log, r, k, rt, i + 1, if Hit(log[i], k, rt) then i else best);
    }
  }

  lemma BlindAppend(log: seq<Record>, r: Record, k: Key, rt: bool)
    requires !Hit(r, k, rt)
    ensures Meaning(Stores(log + [r], []), k, rt) == Meaning(Stores(log, []), k, rt)
  {
    ScanMore(log, r, k, rt, 0, -1);
    assert Stores(log, []).All() == log && Stores(log + [r], []).All() == log + [r];
  }

  /** No other variable notices such a write. */
  lemma StepBlind(x: Stores, y: Stores, q: Key, k: Key, rt: bool)
    requires Step(x, y, q) && k.name != [] && k != q
    ensures Meaning(Reboot(y), k, rt) == Meaning(Reboot(x), k, rt)
  {
    hide Meaning;
    var t: StoreType, n: nat, r: Record :|
      n <= |x.Get(t)| && r.key == q && (n < |x.Get(t)| ==> x.Get(t)[n].key == q) && y == x.Set(t, Put(x.Get(t), n, r));
    if t.NvStore? {
      if n < |x.nv| { BlindTo(Reboot(x), NvStore, n, r, k, rt); } else { BlindAppend(x.nv, r, k, rt); }
    }
  }

  predicate NoReclaim(run: Run) { run.Run? ==> run.erased == -1 }

  lemma IsStep(x: Stores, t: StoreType, n: nat, r: Record, y: Stores)
    requires n <= |x.Get(t)| && (n < |x.Get(t)| ==> x.Get(t)[n].key == r.key) && y == x.Set(t, Put(x.Get(t), n, r))
    ensures Step(x, y, r.key)
  {
  }

  lemma StateStep(x: Stores, t: StoreType, n: nat, state: u8)
    requires n < |x.Get(t)|
    ensures Step(x, x.Set(t, SetState(x.Get(t), n, state)), x.Get(t)[n].key)
  {
    IsStep(x, t, n, x.Get(t)[n].(state := state), x.Set(t, SetState(x.Get(t), n, state)));
  }

  lemma AppendStep(x: Stores, t: StoreType, r: Record)
    ensures Step(x, x.Set(t, x.Get(t) + [r]), r.key)
  {
    IsStep(x, t, |x.Get(t)|, r, x.Set(t, x.Get(t) + [r]));
  }

  /** The states of a replacement without a reclaim. */
  function Replacement(s: Stores, t: StoreType, i: nat, r: Record, to: StoreType): seq<Stores>
    requires i < |s.Get(t)|
  {
    var s1 := s.Set(t, SetState(s.Get(t), i, VAR_ADDED_IN_TRANSITION));
    var s2 := s1.Set(to, s1.Get(to) + [r]);
    if t == to then [s, s1, s2, s2.Set(t, SetState(s2.Get(t), i, MarkDeleted(VAR_ADDED_IN_TRANSITION)))]
    else [s, s1, s2]
  }

  /** A run without a reclaim is a replacement or its beginning, or one write at most. */
  lemma NoReclaimStates(s: Stores, sizes: Sizes, q: Request, rt: bool)
    requires NoReclaim(SetRun(s, sizes, q, rt)) && q.key.name != []
    ensures var states := SetRun(s, sizes, q, rt).states;
      if |states| <= 2 then |states| == 2 ==> Step(s, states[1], q.key)
      else
        Locate(s, q.key, rt).Some? &&
        var Track(t, i) := Locate(s, q.key, rt).value;
        s.Get(t)[i].key == q.key && states == Replacement(s, t, i, NewRecord(q), StoreOf(q))
  {
    hide Deletes, Locate, Compact, Offset, SizeOf, AtRuntime, NonVolatile, Fits, Step;
    var f := Locate(s, q.key, rt);
    AppendStep(s, StoreOf(q), NewRecord(q));
    if f.Some? {
      MarkLive(s.Get(f.value.t)[f.value.i]);
      StateStep(s, f.value.t, f.value.i, VAR_ADDED_IN_TRANSITION);
      StateStep(s, f.value.t, f.value.i, MarkDeleted(s.Get(f.value.t)[f.value.i].state));
    }
  }

  lemma ReplacementSteps(s: Stores, t: StoreType, i: nat, r: Record, to: StoreType, n: nat)
    requires i < |s.Get(t)| && s.Get(t)[i].key == r.key && n + 1 < |Replacement(s, t, i, r, to)|
    ensures Step(Replacement(s, t, i, r, to)[n], Replacement(s, t, i, r, to)[n + 1], r.key)
  {
    hide Step;
    var states := Replacement(s, t, i, r, to);
    StateStep(states[0], t, i, VAR_ADDED_IN_TRANSITION);
    AppendStep(states[1], to, r);
    if t == to { StateStep(states[2], t, i, MarkDeleted(VAR_ADDED_IN_TRANSITION)); }
  }

  lemma {:induction false} ReplacementBlind(s: Stores, t: StoreType, i: nat, r: Record, to: StoreType, n: nat, k: Key,
      rt: bool)
    requires i < |s.Get(t)| && s.Get(t)[i].key == r.key && k.name != [] && k != r.key
    requires n < |Replacement(s, t, i, r, to)|
    ensures Meaning(Reboot(Replacement(s, t, i, r, to)[n]), k, rt) == Meaning(Reboot(s), k, rt)
  {
    hide Meaning, Step, Replacement;
    ReplacementFirst(s, t, i, r, to);
    if n > 0 {
      ReplacementSteps(s, t, i, r, to, n - 1);
      StepBlind(Replacement(s, t, i, r, to)[n - 1], Replacement(s, t, i, r, to)[n], r.key, k, rt);
      ReplacementBlind(s, t, i, r, to, n - 1, k, rt);
    }
  }

  lemma ReplacementFirst(s: Stores, t: StoreType, i: nat, r: Record, to: StoreType)
    requires i < |s.Get(t)|
    ensures 3 <= |Replacement(s, t, i, r, to)| <= 4 && Replacement(s, t, i, r, to)[0] == s
  {
  }

  /** Where there is an added hit, deleting a record in transition changes nothing. */
  lemma DeadInTransition(log: seq<Record>, i: nat, n: nat, k: Key, rt: bool)
    requires i < |log| && InTransition(log[i]) && n < |log| && Hit(log[n], k, rt) && Added(log[n])
    ensures Meaning(Stores(SetState(log, i, MarkDeleted(VAR_ADDED_IN_TRANSITION)), []), k, rt) ==
      Meaning(Stores(log, []), k, rt)
  {
    var log' := SetState(log, i, MarkDeleted(VAR_ADDED_IN_TRANSITION));
    ScanAnswer(log, k, rt, 0, -1);
    ScanAnswer(log', k, rt, 0, -1);
    assert log'[n] == log[n];
    var f, g := Find(log, k, rt), Find(log', k, rt);
    assert log'[f] == log[f] && log'[g] == log[g];
    assert Stores(log, []).All() == log && Stores(log', []).All() == log';
  }

  /** A replaced variable itself reads after a restart as before the replacement or as after it. */
  lemma ReplacementCrash(s: Stores, t: StoreType, i: nat, r: Record, to: StoreType, n: nat, rt: bool)
    requires Inv(s, false) && i < |s.Get(t)| && Live(s.Get(t)[i]) && s.Get(t)[i].key == r.key && r.key.name != []
    requires Added(r) && n < |Replacement(s, t, i, r, to)|
    ensures var states := Replacement(s, t, i, r, to);
      var x := Meaning(Reboot(states[n]), r.key, rt);
      states != [] && (x == Meaning(Reboot(s), r.key, rt) || x == Meaning(Reboot(Last(states)), r.key, rt))
  {
    hide Inv, Meaning, SetState, AtRuntime;
    var states, k := Replacement(s, t, i, r, to), r.key;
    if t.NvStore? { SameAfterReboot(s, states[1].nv, i, k, rt, false); }
    if n == 2 && t == to && t.NvStore? {
      if Hit(r, k, rt) {
        Marked2(s.nv, i, r);
        DeadInTransition(states[2].nv, i, |s.nv|, k, rt);
      } else {
        BlindAppend(states[1].nv, r, k, rt);
      }
    }
  }

  lemma Marked2(log: seq<Record>, i: nat, r: Record)
    requires i < |log|
    ensures var x := SetState(log, i, VAR_ADDED_IN_TRANSITION) + [r];
      |x| == |log| + 1 && InTransition(x[i]) && x[|log|] == r
  {
  }

  lemma NoReclaimCrash(s: Stores, sizes: Sizes, q: Request, rt: bool, k: Key, rt': bool, n: nat)
    requires Inv(s, false) && q.key.name != [] && k.name != []
    requires NoReclaim(SetRun(s, sizes, q, rt)) && n < |SetRun(s, sizes, q, rt).states|
    ensures var run := SetRun(s, sizes, q, rt);
      var x := Meaning(Reboot(run.states[n]), k, rt');
      && (x == Meaning(Reboot(s), k, rt') || x == Meaning(Reboot(Last(run.states)), k, rt'))
      && (k != q.key ==> x == Meaning(Reboot(s), k, rt'))
  {
    hide Inv, Meaning, SetRun, Step, Replacement, Locate;
    NoReclaimStates(s, sizes, q, rt);
    var states := SetRun(s, sizes, q, rt).states;
    if |states| <= 2 {
      if n == 1 && k != q.key { StepBlind(s, states[1], q.key, k, rt'); }
    } else {
      var Track(t, i) := Locate(s, q.key, rt).value;
      if k == q.key {
        ReplacementCrash(s, t, i, NewRecord(q), StoreOf(q), n, rt');
      } else {
        ReplacementBlind(s, t, i, NewRecord(q), StoreOf(q), n, k, rt');
      }
    }
  }

  // ---- Power failure in general -----------------------------------------------------------------

  /** The non-volatile log with the record marked that a call supersedes there, if any. */
  function Superseded(s: Stores, q: Request, rt: bool): seq<Record> {
    var f := Locate(s, q.key, rt);
    if f.Some? && f.value.t.NvStore? then SetState(s.nv, f.value.i, VAR_ADDED_IN_TRANSITION) else s.nv
  }

  lemma SupersededReads(s: Stores, q: Request, rt: bool, k: Key, rt': bool)
    requires Inv(s, false) && k.name != []
    ensures var log := Superseded(s, q, rt);
      && Sound(log, false) && Lookup(log, k, rt') == Meaning(Reboot(s), k, rt')
      && (SeesNewest(log, k) <==> SeesNewest(s.nv, k))
  {
    hide Inv, Meaning, Lookup, Sound, SeesNewest;
    SoundOf(s, NvStore, false);
    var f, log := Locate(s, q.key, rt), Superseded(s, q, rt);
    if f.Some? && f.value.t.NvStore? {
      var i := f.value.i;
      SoundMark(s.nv, i, VAR_ADDED_IN_TRANSITION, false);
      SameAfterReboot(s, log, i, k, rt', false);
      SeesMarked(s.nv, i, k);
    }
    LogMeaning(log, k, rt');
    assert Reboot(s) == Stores(s.nv, []);
  }

  lemma LogMeaning(log: seq<Record>, k: Key, rt: bool)
    ensures Meaning(Stores(log, []), k, rt) == Lookup(log, k, rt)
  {
    assert Stores(log, []).All() == log;
  }

  lemma SeesMarked(log: seq<Record>, i: nat, k: Key)
    requires i < |log| && Live(log[i])
    ensures SeesNewest(SetState(log, i, VAR_ADDED_IN_TRANSITION), k) <==> SeesNewest(log, k)
  {
    var log' := SetState(log, i, VAR_ADDED_IN_TRANSITION);
    forall a, rt | 0 <= a < |log| ensures Hit(log'[a], k, rt) == Hit(log[a], k, rt) {}
    var m, m' := Newest(log, k, false, |log|), Newest(log', k, false, |log|);
    assert m == m';
  }

  /** What the non-volatile store holds in every state of a call that reclaims. */
  lemma ReclaimStates(s: Stores, sizes: Sizes, q: Request, rt: bool, n: nat)
    requires !NoReclaim(SetRun(s, sizes, q, rt)) && n < |SetRun(s, sizes, q, rt).states|
    ensures var run, nv := SetRun(s, sizes, q, rt), SetRun(s, sizes, q, rt).states[n].nv;
      var log, cur := Superseded(s, q, rt), Current(Locate(s, q.key, rt), StoreOf(q));
      && 0 <= run.erased && !Deletes(q)
      && (if StoreOf(q).VolatileStore? || n < run.erased then nv == s.nv || nv == log
          else n > run.erased ==>
            nv == if n == run.erased + 1 then Compact(log, cur) else Compact(log, cur) + [NewRecord(q)])
      && run.erased + 2 <= |run.states| <= run.erased + 3
  {
    hide Deletes, Locate, AtRuntime, Fits, Compact, Offset, SetState;
    var f := Locate(s, q.key, rt);
    if f.Some? { MarkLive(s.Get(f.value.t)[f.value.i]); }
  }

  /** A reclaim of the non-volatile store has dropped what the runtime saw of the variable, and the new record, which
      will be seen, is not there yet. */
  predicate Torn(s: Stores, sizes: Sizes, q: Request, rt: bool, k: Key, rt': bool, n: nat) {
    var run := SetRun(s, sizes, q, rt);
    && rt' && run.Run? && 0 <= run.erased < n && StoreOf(q).NvStore? && !SeesNewest(s.nv, k)
    && (k == q.key ==> n < |run.states| - 1 && AtRuntime(NewRecord(q)))
  }

  /** A variable k that is read as x after the failure is as before the call or as after it, and any but the one that
      the call sets as before. */
  predicate Survives(s: Stores, run: Run, q: Request, k: Key, rt': bool, x: Option<Value>)
    requires run.states != []
  {
    && (x == Meaning(Reboot(s), k, rt') || x == Meaning(Reboot(Last(run.states)), k, rt'))
    && (k != q.key ==> x == Meaning(Reboot(s), k, rt'))
  }

  lemma CompactReads(s: Stores, q: Request, rt: bool, cur: int, k: Key, rt': bool)
    requires Inv(s, false) && k.name != []
    ensures var log := Superseded(s, q, rt);
      && (Lookup(Compact(log, cur), k, rt') == Meaning(Reboot(s), k, rt') <==> (rt' ==> SeesNewest(s.nv, k)))
      && (rt' && !SeesNewest(s.nv, k) ==> Lookup(Compact(log, cur), k, rt').None?)
  {
    hide Inv, Meaning, Lookup, Sound, Compact, Superseded;
    var log := Superseded(s, q, rt);
    SupersededReads(s, q, rt, k, rt');
    if rt' {
      ReclaimAtRuntime(log, cur, k, false);
    } else {
      ReclaimPreserves(log, cur, k, false, false);
    }
  }

  lemma SomeRead(log: seq<Record>, r: Record, k: Key, rt: bool)
    requires Hit(r, k, rt)
    ensures Lookup(log + [r], k, rt).Some?
  {
    ScanAnswer(log + [r], k, rt, 0, -1);
    assert (log + [r])[|log|] == r;
  }

  lemma ReclaimCrash(s: Stores, sizes: Sizes, q: Request, rt: bool, k: Key, rt': bool, n: nat)
    requires Inv(s, false) && q.key.name != [] && k.name != []
    requires var run := SetRun(s, sizes, q, rt);
      !NoReclaim(run) && n < |run.states| && (n == run.erased ==> StoreOf(q).VolatileStore?)
    ensures var run := SetRun(s, sizes, q, rt);
      Survives(s, run, q, k, rt', Meaning(Reboot(run.states[n]), k, rt')) <==>
        !Torn(s, sizes, q, rt, k, rt', n)
  {
    hide Inv, Meaning, SetRun, Locate, Lookup, Compact, Superseded, Deletes, SeesNewest, AtRuntime;
    var run, log, cur := SetRun(s, sizes, q, rt), Superseded(s, q, rt), Current(Locate(s, q.key, rt), StoreOf(q));
    var last, r, kept := |run.states| - 1, NewRecord(q), Compact(log, cur);
    ReclaimStates(s, sizes, q, rt, n);
    SupersededReads(s, q, rt, k, rt');
    LogMeaning(log, k, rt');
    if StoreOf(q).NvStore? && n > run.erased {
      ReclaimStates(s, sizes, q, rt, last);
      CompactReads(s, q, rt, cur, k, rt');
      LogMeaning(kept, k, rt');
      LogMeaning(kept + [r], k, rt');
      if Hit(r, k, rt') { SomeRead(kept, r, k, rt'); } else { BlindAppend(kept, r, k, rt'); }
    }
  }

  /** Crash consistency: a call cut off after any write but one that erases the non-volatile store, or a mark that goes
      astray, and followed by a restart, leaves every variable with the value a restart before the call or a restart
      after it gives, and all others alone, if and only if that is not read at runtime behind a reclaim of the
      non-volatile store which has dropped what the runtime saw. */
  lemma CrashConsistent(s: Stores, sizes: Sizes, q: Request, rt: bool, k: Key, rt': bool, n: nat)
    requires Inv(s, false) && q.key.name != [] && k.name != []
    requires var run := SetRun(s, sizes, q, rt);
      n < |run.states| && (run.Run? && n == run.erased ==> StoreOf(q).VolatileStore?)
    ensures var run := SetRun(s, sizes, q, rt);
      Survives(s, run, q, k, rt', Meaning(Reboot(run.states[n]), k, rt')) <==>
        !Torn(s, sizes, q, rt, k, rt', n)
  {
    hide Inv, Meaning, SetRun, SeesNewest, AtRuntime;
    if NoReclaim(SetRun(s, sizes, q, rt)) {
      NoReclaimCrash(s, sizes, q, rt, k, rt', n);
    } else {
      ReclaimCrash(s, sizes, q, rt, k, rt', n);
    }
  }

  lemma UniformSees(s: Stores, k: Key)
    requires Inv(s, true) && k.name != []
    ensures SeesNewest(s.nv, k)
  {
  }

  /** So where all records of one variable agree on runtime access, nothing is torn: whatever the request, every such
      call leaves every variable old or new, before the runtime and at it. */
  lemma UniformCrash(s: Stores, sizes: Sizes, q: Request, rt: bool, k: Key, rt': bool, n: nat)
    requires Inv(s, true) && q.key.name != [] && k.name != []
    requires var run := SetRun(s, sizes, q, rt);
      n < |run.states| && (run.Run? && n == run.erased ==> StoreOf(q).VolatileStore?)
    ensures var run := SetRun(s, sizes, q, rt);
      Survives(s, run, q, k, rt', Meaning(Reboot(run.states[n]), k, rt'))
  {
    hide Inv, Meaning, SetRun, SeesNewest, AtRuntime;
    InvWeaken(s, true);
    UniformSees(s, k);
    CrashConsistent(s, sizes, q, rt, k, rt', n);
  }

  /** A store holding a ghost a with runtime access in front of its variable b without. */
  predicate Shadowed(a: Record, b: Record, q: Request, size: u32) {
    && Crowded(a, b, q, size) && InTransition(a) && a.key == b.key && NonVolatile(a) && NonVolatile(b)
    && AtRuntime(a) && !AtRuntime(b) && AtRuntime(NewRecord(q))
  }

  /** A torn one: set with runtime access before the runtime, such a variable is read at runtime as the ghost if the
      call is never made, as the new data once it is complete, and not at all if the power fails behind the reclaim. */
  lemma RuntimeTorn(a: Record, b: Record, q: Request, size: u32)
    requires Shadowed(a, b, q, size)
    ensures var s, k := Stores([a, b], []), q.key;
      var run := SetRun(s, Sizes(size, 0), q, false);
      && Inv(s, false) && run.Run? && |run.states| == 5 && run.erased == 2
      && Meaning(Reboot(s), k, true) == Some(ValueOf(a))
      && Meaning(Reboot(run.states[3]), k, true) == None
      && Meaning(Reboot(Last(run.states)), k, true) == Some(ValueOf(NewRecord(q)))
  {
    var s, r := Stores([a, b], []), NewRecord(q);
    assert Inv(s, false) by { assert s.All() == [a, b]; }
    TornRun(a, b, q, size);
    ReadTwo(a, b, q.key);
    ReadTwo(Ghost(b), r, q.key);
    ReadOne(Ghost(b), q.key);
  }

  lemma TornRun(a: Record, b: Record, q: Request, size: u32)
    requires Shadowed(a, b, q, size)
    ensures var s := Stores([a, b], []);
      SetRun(s, Sizes(size, 0), q, false) ==
        Run(EFI_SUCCESS, [s, Stores([a, Ghost(b)], []), Stores([], []), Stores([Ghost(b)], []),
                          Stores([Ghost(b), NewRecord(q)], [])], 2)
  {
    hide Compact, Deletes, Fits, Locate, Hit, Offset;
    FindAddedSecond(a, b, q.key);
    assert SetState([a, b], 1, MarkTransition(b.state)) == [a, Ghost(b)];
    GhostFits(a, b, q, size);
    GhostCompact(a, b);
    assert [Ghost(b)] + [NewRecord(q)] == [Ghost(b), NewRecord(q)];
  }

  /** Of two records the runtime reads the only one that it sees. */
  lemma ReadTwo(a: Record, b: Record, k: Key)
    requires Hit(a, k, true) != Hit(b, k, true)
    ensures Meaning(Stores([a, b], []), k, true) == Some(ValueOf(if Hit(a, k, true) then a else b))
  {
    var log := [a, b];
    assert Stores(log, []).All() == log;
    assert Hit(a, k, true) ==> Scan(log, k, true, 2, 0) == 0;
    assert Hit(b, k, true) ==> Scan(log, k, true, 2, 1) == 1;
    assert Scan(log, k, true, 1, if Hit(a, k, true) then 0 else -1) == if Hit(a, k, true) then 0 else 1;
  }

  lemma ReadOne(a: Record, k: Key)
    requires !Hit(a, k, true)
    ensures Meaning(Stores([a], []), k, true) == None
  {
    assert Stores([a], []).All() == [a];
  }

  // ---- Restarting -------------------------------------------------------------------------------

  /** The start-up: the non-volatile log is scanned, and reclaimed if less than threshold bytes are left. */
  function StartUp(s: Stores, size: nat, threshold: nat): Stores {
    if size - End(s.nv) < threshold then Stores(Compact(s.nv, -1), []) else Reboot(s)
  }

  /** The reclaim of the start-up changes no variable, and leaves one added record of each. */
  lemma StartUpKeeps(s: Stores, size: nat, threshold: nat, k: Key, rt: bool, u: bool)
    requires rt ==> u
    requires Inv(s, u) && k.name != []
    ensures Inv(StartUp(s, size, threshold), u)
    ensures Meaning(StartUp(s, size, threshold), k, rt) == Meaning(Reboot(s), k, rt)
    ensures Named(s.nv) && size - End(s.nv) < threshold ==> Clean(StartUp(s, size, threshold).All())
  {
    RebootInv(s, u);
    CompactAfterReboot(s, k, rt, u);
    if Named(s.nv) { CleanCompact(s.nv, u); }
    assert Compact(s.nv, -1) + [] == Compact(s.nv, -1);
  }
}
