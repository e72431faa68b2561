/** What callers of the variable services can rely on, after whole calls and after interrupted ones. */
module VariableRecovery {
  import opened EfiTypes
  import opened Words
  import opened VariableLog
  import opened VariableUpdate
  import opened VariableRun

  /** UpdateVariable as SetVariable calls it. */
  function SetRun(s: Stores, sizes: Sizes, q: Request, rt: bool): (run: Run)
    ensures run.states != [] && run.states[0] == s
  {
    Update(s, sizes, q, Locate(s, q.key, rt), rt)
  }

  lemma KeptVisible(s: Stores, q: Request, rt: bool, u: bool)
    requires rt ==> u
    requires Inv(s, u) && q.key.name != [] && KeepsAccess(s, q, u) && Locate(s, q.key, rt).Some?
    ensures rt ==> AtRuntime(NewRecord(q))
    ensures var Track(t, i) := Locate(s, q.key, rt).value;
      Meaning(s, q.key, rt) == Some(ValueOf(s.Get(t)[i]))
  {
    LocateFinds(s, q.key, rt, u);
    KeepsSplit(s, q, u);
  }

  /** After a successful write that keeps the variable's access GetVariable answers the new data, with the new
      attributes unless the data was already there; after any error it answers what it answered before. */
  lemma KeptThenGet(s: Stores, sizes: Sizes, q: Request, rt: bool, u: bool)
    requires rt ==> u
    requires Inv(s, u) && q.key.name != [] && !Deletes(q) && KeepsAccess(s, q, u)
    ensures var run := SetRun(s, sizes, q, rt);
      var was, got := Meaning(s, q.key, rt), Meaning(Last(run.states), q.key, rt);
      && (run.status.EFI_SUCCESS? ==>
            got.Some? && got.value.data == q.data && (got.value.attributes == q.attributes || got == was))
      && (!run.status.EFI_SUCCESS? ==> got == was)
  {
    UpdateRun(s, sizes, q, rt, q.key, rt, u);
    var f := Locate(s, q.key, rt);
    if f.Some? {
      KeptVisible(s, q, rt, u);
    }
  }

  // ---- Deleting ---------------------------------------------------------------------------------

  lemma SetAll(s: Stores, t: StoreType, i: nat, state: u8)
    requires i < |s.Get(t)|
    ensures s.Set(t, SetState(s.Get(t), i, state)).All() ==
      SetState(s.All(), if t.NvStore? then i else |s.nv| + i, state)
  {
  }

  /** A log whose newest hit is marked deleted means what the next older hit says. */
  lemma DeadShowsOlder(log: seq<Record>, f: nat, state: u8, k: Key, rt: bool)
    requires f < |log| && f == Newest(log, k, rt, |log|) && state != VAR_ADDED && state != VAR_ADDED_IN_TRANSITION
    ensures Content(SetState(log, f, state), k, rt) == ValueAt(log, Newest(log, k, rt, f))
  {
    var log' := SetState(log, f, state);
    NewestPrefix(log', log, k, rt, f);
    var g, n := Newest(log, k, rt, f), Newest(log', k, rt, |log'|);
    assert g >= 0 ==> log'[g] == log[g];
    assert n >= 0 ==> log'[n] == log[n];
  }

  /** Deleting a variable succeeds and leaves what the newest visible record of it says that stood before the one
      deleted: an old value if there is a ghost. */
  lemma DeletingShowsGhost(s: Stores, sizes: Sizes, q: Request, rt: bool, u: bool)
    requires Inv(s, u) && q.key.name != [] && Deletes(q) && Locate(s, q.key, rt).Some?
    requires SetRun(s, sizes, q, rt).status.EFI_SUCCESS?
    ensures Meaning(Last(SetRun(s, sizes, q, rt).states), q.key, rt) ==
      ValueAt(s.All(), Newest(s.All(), q.key, rt, Find(s.All(), q.key, rt)))
  {
    var Track(t, i) := Locate(s, q.key, rt).value;
    var state := MarkDeleted(s.Get(t)[i].state);
    var s' := s.Set(t, SetState(s.Get(t), i, state));
    InvDelete(s, t, i, u);
    SetAll(s, t, i, state);
    SoundAll(s, u);
    FindIsNewest(s.All(), q.key, rt, u);
    DeadShowsOlder(s.All(), Find(s.All(), q.key, rt), state, q.key, rt);
    SoundAll(s', u);
    FindIsNewest(s'.All(), q.key, rt, u);
  }

  /** A deleted variable is gone exactly when no other visible record of it was left in the log. */
  lemma DeleteRun(s: Stores, sizes: Sizes, q: Request, rt: bool, u: bool)
    requires Inv(s, u) && q.key.name != [] && Deletes(q) && Locate(s, q.key, rt).Some?
    requires SetRun(s, sizes, q, rt).status.EFI_SUCCESS?
    ensures var s' := Last(SetRun(s, sizes, q, rt).states);
      Meaning(s', q.key, rt).None? <==>
        forall a :: 0 <= a < |s.All()| && a != Find(s.All(), q.key, rt) ==> !Hit(s.All()[a], q.key, rt)
  {
    hide Inv, Meaning, SetRun, Locate, Deletes;
    DeletingShowsGhost(s, sizes, q, rt, u);
    SoundAll(s, u);
    FindIsNewest(s.All(), q.key, rt, u);
    var f := Find(s.All(), q.key, rt);
    var g := Newest(s.All(), q.key, rt, f);
  }

  // ---- Power failure ----------------------------------------------------------------------------

  /** After a restart the non-volatile log is scanned again and the volatile store is new. */
  function Reboot(s: Stores): Stores { Stores(s.nv, []) }

  lemma RebootInv(s: Stores, u: bool)
    requires Inv(s, u)
    ensures Inv(Reboot(s), u)
  {
  }

  lemma FoundInStore(s: Stores, q: Request, rt: bool, u: bool)
    requires rt ==> u
    requires Inv(s, u) && q.key.name != [] && KeepsAccess(s, q, u) && Locate(s, q.key, rt).Some?
    ensures Locate(s, q.key, rt).value.t == StoreOf(q)
  {
    LocateFinds(s, q.key, rt, u);
    KeepsSplit(s, q, u);
  }

  /** Cut off in the middle of a reclaim, a store loses exactly what was live in it (and its header). */
  lemma EraseLoses(s: Stores, t: StoreType, k: Key, u: bool)
    requires Inv(s, u) && k.name != []
    ensures Meaning(s.Set(t, []), k, false) == Meaning(s, k, false) <==> Absent(s.Get(t), k)
  {
    InvSet(s, t, [], u);
    ContentAbsent([], k, false);
    MeaningSplit(s, t, k, false, u);
    MeaningSplit(s.Set(t, []), t, k, false, u);
    if Content(s.Get(t), k, false).Some? {
      OneSide(s, t, k, false, u);
      ContentAbsent(s.Get(Other(t)), k, false);
    }
  }

  // ---- Creating at runtime ----------------------------------------------------------------------

  /** Creating a variable at runtime keeps the invariant exactly when no record of it hides from the runtime. */
  lemma RuntimeCreate(s: Stores, q: Request)
    requires Inv(s, true) && q.key.name != [] && Locate(s, q.key, true).None?
    requires AtRuntime(NewRecord(q)) && NonVolatile(NewRecord(q))
    ensures Inv(s.Set(NvStore, s.nv + [NewRecord(q)]), true) <==> KeepsAccess(s, q, true)
  {
    if KeepsAccess(s, q, true) {
      LocateMisses(s, q, true, true);
      WriteAppend(s, NvStore, NewRecord(q), q.key, true, true);
    } else {
      var i :| 0 <= i < |s.All()| && Live(s.All()[i]) && s.All()[i].key == q.key &&
               !((AtRuntime(s.All()[i]) <==> AtRuntime(NewRecord(q))) &&
                 (NonVolatile(s.All()[i]) <==> NonVolatile(NewRecord(q))));
      HiddenBreaks(s, q, i);
    }
  }

  lemma HiddenBreaks(s: Stores, q: Request, i: nat)
    requires Inv(s, true) && i < |s.All()| && Live(s.All()[i]) && s.All()[i].key == q.key
    requires (AtRuntime(s.All()[i]) <==> AtRuntime(NewRecord(q))) ==>
      !(NonVolatile(s.All()[i]) <==> NonVolatile(NewRecord(q)))
    requires NonVolatile(NewRecord(q))
    ensures !Inv(s.Set(NvStore, s.nv + [NewRecord(q)]), true)
  {
    var r := NewRecord(q);
    if i < |s.nv| {
      SoundAppend(s.nv, r, true);
      assert !Supersedes(s.nv[i], r, true);
    } else {
      assert (s.nv + [r])[|s.nv|].key == s.vol[i - |s.nv|].key;
    }
  }
}
