/** Ghosts: records that an update left in transition in front of their successors, who makes them and what they do. */
module VariableGhosts {
  import opened EfiTypes
  import opened Words
  import opened VariableLog
  import opened VariableUpdate
  import opened VariableRun
  import opened VariableRecovery
  import opened VariableEnumeration

  // ---- One log ----------------------------------------------------------------------------------

  /** Replacing a record neither adds nor removes a ghost. */
  lemma ReplaceGhostFree(log: seq<Record>, i: nat, state: u8, r: Record)
    requires i < |log| && Live(log[i]) && Live(r) && r.key == log[i].key && !Live(r.(state := state))
    ensures GhostFree(SetState(log, i, state) + [r]) <==> GhostFree(log)
  {
    var log' := SetState(log, i, state) + [r];
    assert log'[|log|] == r;
    if GhostFree(log) {
      forall a, b | 0 <= a < b < |log'| && Live(log'[a]) && Live(log'[b]) ensures log'[a].key != log'[b].key {
        assert b == |log| ==> a < |log| && log[a].key != log[i].key;
      }
    } else {
      var a, b :| 0 <= a < b < |log| && Live(log[a]) && Live(log[b]) && log[a].key == log[b].key;
      assert a != i ==> log'[a] == log[a];
      assert b != i ==> log'[b] == log[b];
    }
  }

  /** What Reclaim keeps of a record is in the compacted log. */
  lemma {:induction false} CompactHas(log: seq<Record>, cur: int, i: nat, j: nat) returns (m: nat)
    requires i <= j < |log| && Keep(log, cur, j) != []
    ensures m < |CompactFrom(log, cur, i)| && CompactFrom(log, cur, i)[m] == Keep(log, cur, j)[0]
    decreases j - i
  {
    hide Keep;
    if i == j {
      m := 0;
    } else {
      var n := CompactHas(log, cur, i + 1, j);
      m := |Keep(log, cur, i)| + n;
    }
  }

  /** The record being updated is the one record of its key that a reclaim keeps, and it stays in transition. */
  lemma GhostKept(log: seq<Record>, i: nat, u: bool) returns (m: nat)
    requires Sound(log, u) && IsCurrent(log, i) && InTransition(log[i])
    ensures m < |Compact(log, i)| && Compact(log, i)[m] == log[i]
    ensures forall n :: 0 <= n < |Compact(log, i)| && n != m ==> Compact(log, i)[n].key != log[i].key
  {
    assert !Newer(log, i);
    m := CompactHas(log, i, 0, i);
    CompactFromDistinct(log, i, 0, u);
    forall n | 0 <= n < |Compact(log, i)| && n != m ensures Compact(log, i)[n].key != log[i].key {
      assert Compact(log, i)[if n < m then n else m].key != Compact(log, i)[if n < m then m else n].key;
    }
  }

  // ---- An update that replaces a variable's data ------------------------------------------------

  /** The request replaces the data of a variable that is found. */
  predicate Replaces(s: Stores, q: Request, rt: bool) {
    && !Deletes(q) && Locate(s, q.key, rt).Some?
    && var Track(t, i) := Locate(s, q.key, rt).value;
       s.Get(t)[i].data != q.data
  }

  /** The new record fits into its store without a reclaim. */
  predicate HasRoom(s: Stores, sizes: Sizes, q: Request) {
    Fits(s.Get(StoreOf(q)), NewRecord(q), sizes.Get(StoreOf(q)))
  }

  /** The log without the record found, deleted, or the log reclaimed around it. */
  function Rest(log: seq<Record>, i: nat, room: bool): seq<Record>
    requires i < |log|
  {
    if room then SetState(log, i, MarkDeleted(VAR_ADDED_IN_TRANSITION))
    else Compact(SetState(log, i, VAR_ADDED_IN_TRANSITION), i)
  }

  lemma MarkLive(r: Record)
    requires Live(r)
    ensures MarkTransition(r.state) == VAR_ADDED_IN_TRANSITION
  {
  }

  lemma MarkedTwice(log: seq<Record>, i: nat, a: u8, b: u8, r: Record)
    requires i < |log|
    ensures SetState(SetState(log, i, a) + [r], i, b) == SetState(log, i, b) + [r]
  {
  }

  /** An update before the runtime ends with the rest of the log and, if it succeeds, the new record; with room it does
      succeed. */
  lemma RunOfReplace(s: Stores, sizes: Sizes, q: Request, rt: bool)
    requires Replaces(s, q, rt) && SetRun(s, sizes, q, rt).Run? && Locate(s, q.key, rt).value.t == StoreOf(q)
    requires SetRun(s, sizes, q, rt).status.EFI_SUCCESS? || !rt
    ensures var Track(t, i) := Locate(s, q.key, rt).value;
      var run, room := SetRun(s, sizes, q, rt), HasRoom(s, sizes, q);
      && run.states != [] && (room ==> run.status.EFI_SUCCESS?)
      && Last(run.states) ==
         s.Set(t, Rest(s.Get(t), i, room) + if run.status.EFI_SUCCESS? then [NewRecord(q)] else [])
  {
    hide Compact, Deletes, Locate, Offset, SizeOf;
    var Track(t, i) := Locate(s, q.key, rt).value;
    var log := s.Get(t);
    MarkLive(log[i]);
    var log1 := SetState(log, i, VAR_ADDED_IN_TRANSITION);
    StateKeepsOffset(log, i, VAR_ADDED_IN_TRANSITION);
    assert HasRoom(s, sizes, q) <==> Fits(log1, NewRecord(q), sizes.Get(t));
    MarkedTwice(log, i, VAR_ADDED_IN_TRANSITION, MarkDeleted(VAR_ADDED_IN_TRANSITION), NewRecord(q));
    assert Rest(log, i, HasRoom(s, sizes, q)) + [] == Rest(log, i, HasRoom(s, sizes, q));
  }

  lemma RestGhosts(log: seq<Record>, i: nat, room: bool, r: Record, u: bool)
    requires Sound(log, u) && IsCurrent(log, i) && Added(r) && r.key == log[i].key
    ensures GhostFree(Rest(log, i, room) + [r]) <==> room && GhostFree(log)
    ensures !room ==> log[i].(state := VAR_ADDED_IN_TRANSITION) in Rest(log, i, room)
  {
    if room {
      ReplaceGhostFree(log, i, MarkDeleted(VAR_ADDED_IN_TRANSITION), r);
    } else {
      var log1 := SetState(log, i, VAR_ADDED_IN_TRANSITION);
      SoundMark(log, i, VAR_ADDED_IN_TRANSITION, u);
      var m := GhostKept(log1, i, u);
      var log' := Rest(log, i, room) + [r];
      assert log'[m] == log1[i] && log'[|log'| - 1] == r;
    }
  }

  /** A successful update leaves a log without ghosts if and only if there were none and it did not have to reclaim. If
      it reclaimed, the old record is left in transition in front of the new one. */
  lemma ReclaimLeavesGhost(s: Stores, sizes: Sizes, q: Request, rt: bool, u: bool)
    requires rt ==> u
    requires Inv(s, u) && q.key.name != [] && KeepsAccess(s, q, u) && Replaces(s, q, rt)
    requires SetRun(s, sizes, q, rt).Run? && SetRun(s, sizes, q, rt).status.EFI_SUCCESS?
    ensures var Track(t, i) := Locate(s, q.key, rt).value;
      var room, states := HasRoom(s, sizes, q), SetRun(s, sizes, q, rt).states;
      && states != [] && Last(states) == s.Set(t, Rest(s.Get(t), i, room) + [NewRecord(q)])
      && (GhostFree(Last(states).Get(t)) <==> room && GhostFree(s.Get(t)))
      && (!room ==> s.Get(t)[i].(state := VAR_ADDED_IN_TRANSITION) in Rest(s.Get(t), i, room))
  {
    hide Inv, KeepsAccess, Rest, SetRun, HasRoom, GhostFree, Locate;
    FoundInStore(s, q, rt, u);
    LocateFinds(s, q.key, rt, u);
    RunOfReplace(s, sizes, q, rt);
    var Track(t, i) := Locate(s, q.key, rt).value;
    SoundOf(s, t, u);
    RestGhosts(s.Get(t), i, HasRoom(s, sizes, q), NewRecord(q), u);
  }

  lemma SoundOf(s: Stores, t: StoreType, u: bool)
    requires Inv(s, u)
    ensures Sound(s.Get(t), u)
  {
  }

  // ---- An example -------------------------------------------------------------------------------

  lemma TwoRecords(a: Record, b: Record)
    ensures End([a, b]) == STORE_HEADER + SizeOf(a) + SizeOf(b) && End([a]) == STORE_HEADER + SizeOf(a)
  {
    assert Offset([a, b], 0) == STORE_HEADER;
    assert Offset([a, b], 1) == STORE_HEADER + SizeOf(a);
    assert Offset([a], 0) == STORE_HEADER;
  }

  lemma CompactTwo(a: Record, b: Record, cur: int)
    ensures Compact([a, b], cur) == Keep([a, b], cur, 0) + Keep([a, b], cur, 1)
  {
    assert CompactFrom([a, b], cur, 2) == [];
    assert CompactFrom([a, b], cur, 1) == Keep([a, b], cur, 1) + [];
  }

  lemma FindTwo(a: Record, b: Record, k: Key, rt: bool)
    requires Hit(b, k, rt) && Added(b) && !(Hit(a, k, rt) && Added(a))
    ensures Locate(Stores([a, b], []), k, rt) == Some(Track(NvStore, 1))
  {
    var log, best := [a, b], if Hit(a, k, rt) then 0 else -1;
    assert Scan(log, k, rt, 1, best) == 1;
    assert Scan(log, k, rt, 0, -1) == Scan(log, k, rt, 1, best);
    assert Stores(log, []).All() == log;
  }

  /** A store holding record a and a variable b, too full for the request until a reclaim frees a. */
  predicate Crowded(a: Record, b: Record, q: Request, size: u32) {
    && Added(b) && b.key == q.key && q.key.name != [] && b.data != q.data && !Deletes(q) && StoreOf(q) == NvStore
    && STORE_HEADER + SizeOf(b) + SizeOf(NewRecord(q)) <= size
    && size < STORE_HEADER + SizeOf(a) + SizeOf(b) + SizeOf(NewRecord(q)) < 0x1_0000_0000
  }

  /** The record a is garbage. */
  predicate TooFull(a: Record, b: Record, q: Request, size: u32) { !Live(a) && Crowded(a, b, q, size) }

  function Ghost(b: Record): Record { b.(state := VAR_ADDED_IN_TRANSITION) }

  lemma GhostCompact(a: Record, b: Record)
    requires !Live(a) || (InTransition(a) && a.key == b.key)
    ensures Compact([a, Ghost(b)], 1) == [Ghost(b)]
  {
    CompactTwo(a, Ghost(b), 1);
  }

  lemma GhostFits(a: Record, b: Record, q: Request, size: u32)
    requires Crowded(a, b, q, size)
    ensures !Fits([a, Ghost(b)], NewRecord(q), size) && Fits([Ghost(b)], NewRecord(q), size)
  {
    TwoRecords(a, Ghost(b));
    TwoRecords(Ghost(b), a);
  }

  lemma FindAddedSecond(a: Record, b: Record, k: Key)
    requires Added(b) && b.key == k && !Added(a)
    ensures Locate(Stores([a, b], []), k, false) == Some(Track(NvStore, 1))
  {
    FindTwo(a, b, k, false);
  }

  /** Such an update: it succeeds, and both records of the variable are live afterwards. */
  lemma GhostExample(a: Record, b: Record, q: Request, size: u32)
    requires TooFull(a, b, q, size)
    ensures var run := SetRun(Stores([a, b], []), Sizes(size, 0), q, false);
      run.Run? && run.status.EFI_SUCCESS? && Last(run.states) == Stores([Ghost(b), NewRecord(q)], [])
  {
    hide Compact, Deletes, Fits, Locate, Hit;
    FindAddedSecond(a, b, q.key);
    assert SetState([a, b], 1, MarkTransition(b.state)) == [a, Ghost(b)];
    GhostFits(a, b, q, size);
    GhostCompact(a, b);
    assert [Ghost(b)] + [NewRecord(q)] == [Ghost(b), NewRecord(q)];
  }

  // ---- What the runtime sees --------------------------------------------------------------------

  lemma NoHit(log: seq<Record>, k: Key, rt: bool)
    ensures Content(log, k, rt).None? <==> forall a :: 0 <= a < |log| ==> !Hit(log[a], k, rt)
  {
  }

  /** No live record of record i's variable but i itself has runtime access. */
  predicate OthersHidden(log: seq<Record>, i: nat)
    requires i < |log|
  {
    forall a :: 0 <= a < |log| && a != i && Live(log[a]) && log[a].key == log[i].key ==> !AtRuntime(log[a])
  }

  lemma RestAtRuntime(log: seq<Record>, i: nat, room: bool, u: bool)
    requires Sound(log, u) && IsCurrent(log, i) && log[i].key.name != []
    ensures room ==> (Content(Rest(log, i, room), log[i].key, true).None? <==> OthersHidden(log, i))
    ensures !room ==>
      Content(Rest(log, i, room), log[i].key, true) == (if AtRuntime(log[i]) then Some(ValueOf(log[i])) else None)
  {
    var k, rest := log[i].key, Rest(log, i, room);
    if room {
      NoHit(rest, k, true);
      forall a | 0 <= a < |log| && a != i ensures Hit(rest[a], k, true) == Hit(log[a], k, true) {}
    } else {
      SoundMark(log, i, VAR_ADDED_IN_TRANSITION, u);
      var m := GhostKept(SetState(log, i, VAR_ADDED_IN_TRANSITION), i, u);
      NoHit(rest, k, true);
      var f := Newest(rest, k, true, |rest|);
      assert f >= 0 ==> rest[f].key == k;
      assert Hit(rest[m], k, true) <==> AtRuntime(log[i]);
    }
  }

  /** The runtime sees the newest live record of the variable, or none. */
  predicate SeesNewest(log: seq<Record>, k: Key) {
    var m := Newest(log, k, false, |log|);
    (m >= 0 && AtRuntime(log[m])) || forall a :: 0 <= a < |log| ==> !Hit(log[a], k, true)
  }

  /** What a reclaim keeps of a variable is its newest live record, whether the runtime sees that or not: so the runtime
      reads on what it read if and only if it sees the newest live record of the variable or none. */
  lemma ReclaimAtRuntime(log: seq<Record>, cur: int, k: Key, u: bool)
    requires Sound(log, u) && k.name != []
    ensures var m := Newest(log, k, false, |log|);
      && Lookup(Compact(log, cur), k, true) == (if m >= 0 && AtRuntime(log[m]) then Some(ValueOf(log[m])) else None)
      && (Lookup(Compact(log, cur), k, true) == Lookup(log, k, true) <==> SeesNewest(log, k))
  {
    hide Compact, Sound, Newest, Hit;
    FindIsNewest(log, k, true, u);
    NoHit(log, k, true);
    RuntimeKept(log, cur, k, u);
    NewestBoth(log, k);
  }

  lemma NewestBoth(log: seq<Record>, k: Key)
    ensures var m := Newest(log, k, false, |log|);
      m >= 0 && AtRuntime(log[m]) ==> Newest(log, k, true, |log|) == m
  {
  }

  lemma RuntimeKept(log: seq<Record>, cur: int, k: Key, u: bool)
    requires Sound(log, u) && k.name != []
    ensures var m := Newest(log, k, false, |log|);
      Lookup(Compact(log, cur), k, true) == if m >= 0 && AtRuntime(log[m]) then Some(ValueOf(log[m])) else None
  {
    hide Compact, Sound, Find;
    var m, log' := Newest(log, k, false, |log|), Compact(log, cur);
    CompactSound(log, cur, u);
    FindIsNewest(log', k, true, u);
    var f := Newest(log', k, true, |log'|);
    if m >= 0 {
      var n := KeptNewest(log, cur, k, u);
      assert f >= 0 ==> f == n;
      assert Hit(log'[n], k, true) <==> AtRuntime(log[m]);
    } else if f >= 0 {
      var j := CompactLive(log, cur, f);
      assert false;
    }
  }

  lemma CompactLive(log: seq<Record>, cur: int, f: nat) returns (j: nat)
    requires f < |Compact(log, cur)|
    ensures j < |log| && Live(log[j]) && log[j].key == Compact(log, cur)[f].key
  {
    j := CompactOrigin(log, cur, 0, f);
  }

  lemma CompactSound(log: seq<Record>, cur: int, u: bool)
    requires Sound(log, u)
    ensures Sound(Compact(log, cur), u)
  {
    CompactFromDistinct(log, cur, 0, u);
  }

  lemma KeptNewest(log: seq<Record>, cur: int, k: Key, u: bool) returns (n: nat)
    requires Sound(log, u) && k.name != [] && Newest(log, k, false, |log|) >= 0
    ensures var m := Newest(log, k, false, |log|);
      && n < |Compact(log, cur)| && Live(Compact(log, cur)[n]) && Compact(log, cur)[n].key == k
      && ValueOf(Compact(log, cur)[n]) == ValueOf(log[m])
    ensures forall j :: 0 <= j < |Compact(log, cur)| && j != n ==> Compact(log, cur)[j].key != k
  {
    var m := Newest(log, k, false, |log|);
    assert !Newer(log, m) by {
      forall j | m < j < |log| && Live(log[j]) ensures log[j].key != log[m].key { assert !Hit(log[j], k, false); }
    }
    n := CompactHas(log, cur, 0, m);
    CompactFromDistinct(log, cur, 0, u);
    forall j | 0 <= j < |Compact(log, cur)| && j != n ensures Compact(log, cur)[j].key != k {
      assert Compact(log, cur)[if j < n then j else n].key != Compact(log, cur)[if j < n then n else j].key;
    }
  }

  /** After a successful update made before the runtime, the runtime reads the new state of the variable (its new value,
      or nothing if the request takes runtime access away) if and only if the new record has runtime access, or neither
      the old record, after a reclaim, nor, without one, an older ghost had it. Otherwise it reads an old value. */
  lemma RuntimeSeesGhost(s: Stores, sizes: Sizes, q: Request)
    requires Inv(s, false) && q.key.name != [] && KeepsAccess(s, q, false) && Replaces(s, q, false)
    requires SetRun(s, sizes, q, false).Run? && SetRun(s, sizes, q, false).status.EFI_SUCCESS?
    ensures var Track(t, i) := Locate(s, q.key, false).value;
      var log, r := s.Get(t), NewRecord(q);
      var got := Meaning(Last(SetRun(s, sizes, q, false).states), q.key, true);
      && (got == (if AtRuntime(r) then Some(ValueOf(r)) else None) <==>
            AtRuntime(r) || if HasRoom(s, sizes, q) then OthersHidden(log, i) else !AtRuntime(log[i]))
      && (!AtRuntime(r) && !HasRoom(s, sizes, q) && AtRuntime(log[i]) ==>
            got == Some(ValueOf(log[i])))
  {
    hide Inv, KeepsAccess, Rest, SetRun, HasRoom, Locate, Meaning, AtRuntime, Content, OthersHidden, Newest;
    FoundInStore(s, q, false, false);
    LocateFinds(s, q.key, false, false);
    RunOfReplace(s, sizes, q, false);
    var Track(t, i) := Locate(s, q.key, false).value;
    var room, r := HasRoom(s, sizes, q), NewRecord(q);
    SoundOf(s, t, false);
    RestAtRuntime(s.Get(t), i, room, false);
    var s' := Last(SetRun(s, sizes, q, false).states);
    RunInv(s, sizes, q);
    ReadAtRuntime(s', t, Rest(s.Get(t), i, room), r);
  }

  lemma RunInv(s: Stores, sizes: Sizes, q: Request)
    requires Inv(s, false) && q.key.name != [] && (Deletes(q) || KeepsAccess(s, q, false))
    ensures var run := SetRun(s, sizes, q, false);
      run.Run? && run.states != [] && Inv(Last(run.states), false)
  {
    hide Inv, KeepsAccess, Meaning;
    UpdateRun(s, sizes, q, false, q.key, false, false);
  }

  lemma ReadAtRuntime(s: Stores, t: StoreType, rest: seq<Record>, r: Record)
    requires Inv(s, false) && s.Get(t) == rest + [r] && Added(r) && r.key.name != []
    ensures Meaning(s, r.key, true) == if AtRuntime(r) then Some(ValueOf(r)) else Content(rest, r.key, true)
  {
    hide AtRuntime;
    MeaningSplit(s, t, r.key, true, false);
    ContentAppend(rest, r, r.key, true);
    assert Live(s.Get(t)[|rest|]);
    ContentAbsent(s.Get(Other(t)), r.key, true);
  }

  // ---- Clean stores -----------------------------------------------------------------------------

  predicate LiveAdded(log: seq<Record>) {
    forall i :: 0 <= i < |log| && Live(log[i]) ==> Added(log[i])
  }

  /** Every variable has one live record, which is added. */
  predicate Clean(log: seq<Record>) { GhostFree(log) && LiveAdded(log) && Named(log) }

  lemma CleanSplit(s: Stores, u: bool)
    requires Inv(s, u)
    ensures Clean(s.All()) <==> Clean(s.nv) && Clean(s.vol)
  {
    var all := s.All();
    forall i | 0 <= i < |s.nv| ensures all[i] == s.nv[i] {}
    forall i | 0 <= i < |s.vol| ensures all[|s.nv| + i] == s.vol[i] {}
    assert GhostFree(all) ==> GhostFree(s.nv) && GhostFree(s.vol);
    assert LiveAdded(all) ==> LiveAdded(s.nv) && LiveAdded(s.vol);
    assert Named(all) ==> Named(s.nv) && Named(s.vol);
  }

  lemma CleanAppend(log: seq<Record>, r: Record)
    requires Added(r) && r.key.name != [] && Absent(log, r.key)
    ensures Clean(log + [r]) <==> Clean(log)
  {
    var log' := log + [r];
    forall i | 0 <= i < |log| ensures log'[i] == log[i] {}
    assert Clean(log') ==> GhostFree(log) && LiveAdded(log) && Named(log);
  }

  lemma CleanDead(log: seq<Record>, i: nat, state: u8)
    requires Clean(log) && i < |log| && state != VAR_ADDED && state != VAR_ADDED_IN_TRANSITION
    ensures Clean(SetState(log, i, state))
  {
  }

  lemma CleanNamed(log: seq<Record>)
    requires Clean(log)
    ensures Named(log)
  {
  }

  /** A reclaim that is not part of an update cleans up. */
  lemma CleanCompact(log: seq<Record>, u: bool)
    requires Sound(log, u) && Named(log)
    ensures Clean(Compact(log, -1))
  {
    CompactFromDistinct(log, -1, 0, u);
    ReclaimTwice(log);
    forall m | 0 <= m < |Compact(log, -1)| ensures Compact(log, -1)[m].key.name != [] {
      var j := CompactOrigin(log, -1, 0, m);
    }
  }

  lemma CompactAbsent(log: seq<Record>, cur: int, k: Key)
    requires Absent(log, k)
    ensures Absent(Compact(log, cur), k)
  {
    forall m | 0 <= m < |Compact(log, cur)| && Live(Compact(log, cur)[m]) ensures Compact(log, cur)[m].key != k {
      var j := CompactOrigin(log, cur, 0, m);
    }
  }

  lemma RestClean(log: seq<Record>, i: nat, room: bool, r: Record, done: bool, u: bool)
    requires Sound(log, u) && Clean(log) && IsCurrent(log, i) && Added(r) && r.key == log[i].key && (room ==> done)
    ensures Clean(Rest(log, i, room) + if done then [r] else []) <==> room
  {
    if room {
      CleanDead(log, i, MarkDeleted(VAR_ADDED_IN_TRANSITION));
      CleanAppend(Rest(log, i, true), r);
    } else {
      RestGhosts(log, i, false, r, u);
      var m :| 0 <= m < |Rest(log, i, false)| && Rest(log, i, false)[m] == log[i].(state := VAR_ADDED_IN_TRANSITION);
      assert (Rest(log, i, false) + if done then [r] else [])[m] == log[i].(state := VAR_ADDED_IN_TRANSITION);
    }
  }

  lemma CleanSet(s: Stores, t: StoreType, log: seq<Record>, u: bool)
    requires Inv(s, u) && Clean(s.All()) && Inv(s.Set(t, log), u)
    ensures Clean(s.Set(t, log).All()) <==> Clean(log)
  {
    hide Inv, Clean;
    CleanSplit(s, u);
    CleanSplit(s.Set(t, log), u);
  }

  lemma CleanCreate(s: Stores, sizes: Sizes, q: Request)
    requires Inv(s, false) && Clean(s.All()) && q.key.name != [] && KeepsAccess(s, q, false)
    requires Locate(s, q.key, false).None? && !Deletes(q)
    ensures Clean(Last(SetRun(s, sizes, q, false).states).All())
  {
    hide Compact, Deletes, Locate, Fits, Inv, Clean;
    RunInv(s, sizes, q);
    CleanSplit(s, false);
    LocateMisses(s, q, false, false);
    var t, log := StoreOf(q), s.Get(StoreOf(q));
    SoundOf(s, t, false);
    CleanNamed(log);
    CleanCompact(log, false);
    CompactAbsent(log, -1, q.key);
    CleanAppend(log, NewRecord(q));
    CleanAppend(Compact(log, -1), NewRecord(q));
    CleanSet(s, t, Last(SetRun(s, sizes, q, false).states).Get(t), false);
  }

  /** A request leaves a clean store clean if and only if it does not replace a variable's data without room for the new
      record: then a reclaim leaves a ghost, or a refusal leaves the old record in transition. */
  lemma CleanStep(s: Stores, sizes: Sizes, q: Request)
    requires Inv(s, false) && Clean(s.All()) && q.key.name != [] && (Deletes(q) || KeepsAccess(s, q, false))
    ensures var run := SetRun(s, sizes, q, false);
      && run.Run? && run.states != [] && Inv(Last(run.states), false)
      && (Clean(Last(run.states).All()) <==> !Replaces(s, q, false) || HasRoom(s, sizes, q))
  {
    hide Inv, Clean, KeepsAccess, Locate, Deletes, HasRoom;
    RunInv(s, sizes, q);
    var f := Locate(s, q.key, false);
    if f.None? {
      if !Deletes(q) { CleanCreate(s, sizes, q); }
    } else {
      var Track(t, i) := f.value;
      LocateFinds(s, q.key, false, false);
      CleanSplit(s, false);
      if Deletes(q) {
        CleanDead(s.Get(t), i, MarkDeleted(s.Get(t)[i].state));
        CleanSet(s, t, SetState(s.Get(t), i, MarkDeleted(s.Get(t)[i].state)), false);
      } else if Replaces(s, q, false) {
        CleanReplace(s, sizes, q);
      }
    }
  }

  lemma CleanReplace(s: Stores, sizes: Sizes, q: Request)
    requires Inv(s, false) && Clean(s.All()) && q.key.name != [] && KeepsAccess(s, q, false) && Replaces(s, q, false)
    requires SetRun(s, sizes, q, false).Run? && SetRun(s, sizes, q, false).states != []
    requires Inv(Last(SetRun(s, sizes, q, false).states), false)
    ensures Clean(Last(SetRun(s, sizes, q, false).states).All()) <==> HasRoom(s, sizes, q)
  {
    hide Inv, Clean, KeepsAccess, Rest, SetRun, HasRoom, Locate;
    FoundInStore(s, q, false, false);
    LocateFinds(s, q.key, false, false);
    RunOfReplace(s, sizes, q, false);
    var Track(t, i) := Locate(s, q.key, false).value;
    SoundOf(s, t, false);
    CleanSplit(s, false);
    var done := SetRun(s, sizes, q, false).status.EFI_SUCCESS?;
    RestClean(s.Get(t), i, HasRoom(s, sizes, q), NewRecord(q), done, false);
    CleanSet(s, t, Rest(s.Get(t), i, HasRoom(s, sizes, q)) + (if done then [NewRecord(q)] else []), false);
  }

  // ---- Whole histories --------------------------------------------------------------------------

  /** The stores after a sequence of requests made before the runtime. */
  function History(s: Stores, sizes: Sizes, requests: seq<Request>): Stores
    decreases |requests|
  {
    if requests == [] then s
    else
      var states := SetRun(s, sizes, requests[0], false).states;
      History(if states == [] then s else Last(states), sizes, requests[1..])
  }

  /** Every request keeps the volatility of its variable and, where it replaces data, finds room. */
  predicate Smooth(s: Stores, sizes: Sizes, requests: seq<Request>)
    decreases |requests|
  {
    requests == [] ||
    (var q, states := requests[0], SetRun(s, sizes, requests[0], false).states;
      && q.key.name != [] && (Deletes(q) || KeepsAccess(s, q, false))
      && (Replaces(s, q, false) ==> HasRoom(s, sizes, q))
      && Smooth(if states == [] then s else Last(states), sizes, requests[1..]))
  }

  /** However many requests such a history has, an enumeration afterwards names every visible variable exactly once. */
  lemma {:induction false} HistoryEnumerates(s: Stores, sizes: Sizes, requests: seq<Request>, rt: bool)
    requires Inv(s, false) && Clean(s.All()) && Smooth(s, sizes, requests)
    ensures var last := History(s, sizes, requests);
      && Inv(last, false) && Clean(last.All())
      && Enumeration(last.All(), rt) == VisibleFrom(last.All(), rt, 0)
    decreases |requests|
  {
    hide Inv, SetRun, KeepsAccess, Deletes, Replaces, HasRoom, VisibleFrom, Enumeration;
    if requests == [] {
      EnumerationComplete(s.All(), rt);
    } else {
      CleanStep(s, sizes, requests[0]);
      HistoryEnumerates(Last(SetRun(s, sizes, requests[0], false).states), sizes, requests[1..], rt);
    }
  }
}
