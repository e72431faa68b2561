/** SetVariable as a run of atomic store writes: every run refines a map, and an interrupted one is all or nothing. */
module VariableRun {
  import opened EfiTypes
  import opened Words
  import opened VariableLog
  import opened VariableUpdate

  /** The arguments of SetVariable. */
  datatype Request = Request(key: Key, data: seq<u8>, attributes: u32)

  function NewRecord(q: Request): Record { Record(VAR_ADDED, 0, q.attributes, q.key, q.data) }

  /** No data, or no access: the variable is to be deleted. */
  predicate Deletes(q: Request) {
    || q.data == []
    || !(TestMask(q.attributes, EFI_VARIABLE_RUNTIME_ACCESS) || TestMask(q.attributes, EFI_VARIABLE_BOOTSERVICE_ACCESS))
  }

  function StoreOf(q: Request): StoreType {
    if TestMask(q.attributes, EFI_VARIABLE_NON_VOLATILE) then NvStore else VolatileStore
  }

  /** The sizes of the two stores. */
  datatype Sizes = Sizes(nv: u32, vol: u32) {
    function Get(t: StoreType): u32 { if t.NvStore? then nv else vol }
  }

  /** The source truncates the sum to 32 bits. */
  predicate Fits(log: seq<Record>, r: Record, size: nat) {
    (SizeOf(r) + End(log)) % 0x1_0000_0000 <= size
  }

  /** The status, the stores before the call and after each atomic write, and which of these states is the erased
      store in the middle of a reclaim (-1 if none). That store has no records, and its header is gone as well: what its
      bytes say is VariableJournal.WipedReads. Stray: the last write, of the byte mark at offset at, goes to the store
      of the new record although the superseded one is in the other store. */
  datatype Run =
    | Run(status: Status, states: seq<Stores>, erased: int)
    | Stray(states: seq<Stores>, at: nat, mark: u8)

  function Last(states: seq<Stores>): Stores
    requires states != []
  {
    states[|states| - 1]
  }

  /** UpdateVariable's last step: without a reclaim, the superseded record is marked deleted. */
  function Retire(states: seq<Stores>, f: Option<Track>, t: StoreType): (run: Run)
    requires states != [] && (f.Some? ==> f.value.i < |Last(states).Get(f.value.t)|)
    ensures states <= run.states
  {
    if f.None? then Run(EFI_SUCCESS, states, -1)
    else if f.value.t != t then
      var log := Last(states).Get(f.value.t);
      Stray(states, Offset(log, f.value.i) + 2, MarkDeleted(log[f.value.i].state))
    else
      var log := Last(states).Get(t);
      Run(EFI_SUCCESS, states + [Last(states).Set(t, SetState(log, f.value.i, MarkDeleted(log[f.value.i].state)))], -1)
  }

  function Current(f: Option<Track>, t: StoreType): int {
    if f.Some? && f.value.t == t then f.value.i else -1
  }

  /** UpdateVariable's second half: append the new record, reclaiming first when it does not fit. */
  function StoreNew(states: seq<Stores>, sizes: Sizes, q: Request, f: Option<Track>, rt: bool): (run: Run)
    requires states != [] && (f.Some? ==> f.value.i < |Last(states).Get(f.value.t)|)
    ensures states <= run.states
  {
    var s, t, r := Last(states), StoreOf(q), NewRecord(q);
    if Fits(s.Get(t), r, sizes.Get(t)) then Retire(states + [s.Set(t, s.Get(t) + [r])], f, t)
    else if t.NvStore? && rt then Run(EFI_OUT_OF_RESOURCES, states, -1)
    else
      var log := Compact(s.Get(t), Current(f, t));
      var reclaimed := states + [s.Set(t, []), s.Set(t, log)];
      if Fits(log, r, sizes.Get(t)) then Run(EFI_SUCCESS, reclaimed + [s.Set(t, log + [r])], |states|)
      else Run(EFI_OUT_OF_RESOURCES, reclaimed, |states|)
  }

  /** UpdateVariable, given what FindVariable found. */
  function Update(s: Stores, sizes: Sizes, q: Request, f: Option<Track>, rt: bool): (run: Run)
    requires f.Some? ==> f.value.i < |s.Get(f.value.t)|
    ensures [s] <= run.states
  {
    match f
    case Some(Track(t, i)) =>
      var found := s.Get(t)[i];
      if rt && t.VolatileStore? then Run(EFI_WRITE_PROTECTED, [s], -1)
      else if rt && !NonVolatile(found) then Run(EFI_INVALID_PARAMETER, [s], -1)
      else if Deletes(q) then Run(EFI_SUCCESS, [s, s.Set(t, SetState(s.Get(t), i, MarkDeleted(found.state)))], -1)
      else if found.data == q.data then Run(EFI_SUCCESS, [s], -1)
      else if Live(found) then
        StoreNew([s, s.Set(t, SetState(s.Get(t), i, MarkTransition(found.state)))], sizes, q, f, rt)
      else StoreNew([s], sizes, q, f, rt)
    case None =>
      if Deletes(q) then Run(EFI_NOT_FOUND, [s], -1)
      else if rt && !(AtRuntime(NewRecord(q)) && NonVolatile(NewRecord(q))) then Run(EFI_INVALID_PARAMETER, [s], -1)
      else StoreNew([s], sizes, q, f, rt)
  }

  // ---- What FindVariable's answer means ---------------------------------------------------------

  /** Every live record of the key has the volatility the request asks for and, where u, its runtime access. */
  predicate KeepsAccess(s: Stores, q: Request, u: bool) {
    forall i :: 0 <= i < |s.All()| && Live(s.All()[i]) && s.All()[i].key == q.key ==>
      && (u ==> (AtRuntime(s.All()[i]) <==> AtRuntime(NewRecord(q))))
      && (NonVolatile(s.All()[i]) <==> NonVolatile(NewRecord(q)))
  }

  /** Record i is the newest live record of its key, and only the newest can be added. */
  predicate IsCurrent(log: seq<Record>, i: nat) {
    && i < |log| && Live(log[i])
    && forall a :: 0 <= a < |log| && a != i && Live(log[a]) && log[a].key == log[i].key ==>
      a < i && InTransition(log[a])
  }

  lemma NewestIsCurrent(log: seq<Record>, k: Key, rt: bool, u: bool)
    requires rt ==> u
    requires Sound(log, u) && k.name != [] && Newest(log, k, rt, |log|) >= 0
    ensures IsCurrent(log, Newest(log, k, rt, |log|))
  {
    var i := Newest(log, k, rt, |log|);
    forall a | 0 <= a < |log| && a != i && Live(log[a]) && log[a].key == log[i].key
      ensures a < i && InTransition(log[a])
    {
      assert Supersedes(log[if a < i then a else i], log[if a < i then i else a], u);
    }
  }

  lemma {:induction false} NewestAll(a: seq<Record>, b: seq<Record>, k: Key, rt: bool, n: nat)
    requires n <= |b|
    ensures Newest(a + b, k, rt, |a| + n) ==
      if Newest(b, k, rt, n) >= 0 then |a| + Newest(b, k, rt, n) else Newest(a, k, rt, |a|)
  {
    if n == 0 {
      NewestPrefix(a + b, a, k, rt, |a|);
    } else {
      NewestAll(a, b, k, rt, n - 1);
    }
  }

  /** FindVariable points to the newest live record of the key in its store, and the other store has none. */
  lemma LocateFinds(s: Stores, k: Key, rt: bool, u: bool)
    requires rt ==> u
    requires Inv(s, u) && k.name != [] && Locate(s, k, rt).Some?
    ensures var Track(t, i) := Locate(s, k, rt).value;
      IsCurrent(s.Get(t), i) && s.Get(t)[i].key == k && Absent(s.Get(Other(t)), k)
  {
    SoundAll(s, u);
    FindIsNewest(s.All(), k, rt, u);
    NewestAll(s.nv, s.vol, k, rt, |s.vol|);
    var Track(t, i) := Locate(s, k, rt).value;
    NewestIsCurrent(s.Get(t), k, rt, u);
    OneSide(s, t, k, rt, u);
  }

  /** Nothing found means no live record at all, unless a record hides from the runtime. */
  lemma LocateMisses(s: Stores, q: Request, rt: bool, u: bool)
    requires rt ==> u
    requires Inv(s, u) && q.key.name != [] && Locate(s, q.key, rt).None? && KeepsAccess(s, q, u)
    requires rt ==> AtRuntime(NewRecord(q))
    ensures Absent(s.nv, q.key) && Absent(s.vol, q.key)
  {
    SoundAll(s, u);
    FindIsNewest(s.All(), q.key, rt, u);
    forall i | 0 <= i < |s.nv| && Live(s.nv[i]) ensures s.nv[i].key != q.key { assert s.All()[i] == s.nv[i]; }
    forall i | 0 <= i < |s.vol| && Live(s.vol[i])
      ensures s.vol[i].key != q.key
    {
      assert s.All()[|s.nv| + i] == s.vol[i];
    }
  }

  // ---- Appending the new record -----------------------------------------------------------------

  /** What a key means once the new record is in. */
  function After(s: Stores, q: Request, k: Key, rt: bool): Option<Value> {
    if Hit(NewRecord(q), k, rt) then Some(ValueOf(NewRecord(q))) else Meaning(s, k, rt)
  }

  predicate KeepsIn(log: seq<Record>, q: Request, u: bool) {
    forall i :: 0 <= i < |log| && Live(log[i]) && log[i].key == q.key ==>
      && (u ==> (AtRuntime(log[i]) <==> AtRuntime(NewRecord(q))))
      && (NonVolatile(log[i]) <==> NonVolatile(NewRecord(q)))
  }

  lemma KeepsSplit(s: Stores, q: Request, u: bool)
    requires KeepsAccess(s, q, u)
    ensures KeepsIn(s.nv, q, u) && KeepsIn(s.vol, q, u)
  {
    forall i | 0 <= i < |s.nv| ensures s.All()[i] == s.nv[i] {}
    forall i | 0 <= i < |s.vol| ensures s.All()[|s.nv| + i] == s.vol[i] {}
  }

  /** The new record may follow every record of the log. */
  predicate Ready(log: seq<Record>, q: Request, u: bool) {
    forall a :: 0 <= a < |log| ==> Supersedes(log[a], NewRecord(q), u)
  }

  lemma TransitionReady(log: seq<Record>, i: nat, q: Request, u: bool)
    requires IsCurrent(log, i) && log[i].key == q.key && KeepsIn(log, q, u)
    ensures var log' := SetState(log, i, MarkTransition(log[i].state));
      Ready(log', q, u) && IsCurrent(log', i) && log'[i].key == q.key && KeepsIn(log', q, u)
  {
  }

  lemma OldDropped(log: seq<Record>, cur: nat, j: nat)
    requires IsCurrent(log, cur) && j < |log| && j != cur && log[j].key == log[cur].key
    ensures Keep(log, cur, j) == []
  {
    assert Live(log[j]) ==> j < cur && InTransition(log[j]);
  }

  /** The record being updated stays in transition through a reclaim, so the new record may still follow. */
  lemma CompactReady(log: seq<Record>, cur: int, q: Request, u: bool)
    requires Ready(log, q, u)
    requires Absent(log, q.key) || (cur >= 0 && IsCurrent(log, cur) && log[cur].key == q.key)
    ensures Ready(Compact(log, cur), q, u)
  {
    var log' := Compact(log, cur);
    forall m | 0 <= m < |log'| ensures Supersedes(log'[m], NewRecord(q), u) {
      var j := CompactOrigin(log, cur, 0, m);
      assert Supersedes(log[j], NewRecord(q), u);
      if log[j].key == q.key && j != cur {
        OldDropped(log, cur, j);
      }
    }
  }

  /** UpdateVariable's second half may run: the record found, if any, is current and in the new record's store. */
  predicate StoreReady(s: Stores, q: Request, f: Option<Track>, u: bool) {
    var t, r := StoreOf(q), NewRecord(q);
    && Inv(s, u) && Home(s, t, r) && Ready(s.Get(t), q, u)
    && (f.None? ==> Absent(s.Get(t), q.key))
    && (f.Some? ==> f.value.t == t && IsCurrent(s.Get(t), f.value.i) && s.Get(t)[f.value.i].key == q.key
                    && (u ==> (AtRuntime(s.Get(t)[f.value.i]) <==> AtRuntime(r))))
  }

  lemma RetireRun(s: Stores, states: seq<Stores>, q: Request, f: Option<Track>, k: Key, rt: bool, u: bool)
    requires rt ==> u
    requires StoreReady(s, q, f, u) && states != [] && k.name != []
    requires Last(states) == s.Set(StoreOf(q), s.Get(StoreOf(q)) + [NewRecord(q)])
    ensures var run := Retire(states, f, StoreOf(q));
      && run.Run? && run.status == EFI_SUCCESS && run.erased == -1 &&
        states <= run.states <= states + [Last(run.states)]
      && Inv(Last(run.states), u) && Meaning(Last(run.states), k, rt) == After(s, q, k, rt)
  {
    var t, r := StoreOf(q), NewRecord(q);
    WriteAppend(s, t, r, k, rt, u);
    if f.Some? {
      WriteDelete(Last(states), t, f.value.i, k, rt, u);
    }
  }

  lemma ReclaimRun(s: Stores, q: Request, f: Option<Track>, k: Key, rt: bool, u: bool)
    requires rt ==> u
    requires StoreReady(s, q, f, u) && k.name != []
    ensures var t, log := StoreOf(q), Compact(s.Get(StoreOf(q)), Current(f, StoreOf(q)));
      && Inv(s.Set(t, []), u) && Inv(s.Set(t, log), u) && Inv(s.Set(t, log + [NewRecord(q)]), u)
      && Meaning(s.Set(t, log), k, rt) == Meaning(s, k, rt)
      && Meaning(s.Set(t, log + [NewRecord(q)]), k, rt) == After(s, q, k, rt)
  {
    var t, r, cur := StoreOf(q), NewRecord(q), Current(f, StoreOf(q));
    var log := Compact(s.Get(t), cur);
    InvSet(s, t, [], u);
    WriteCompact(s, t, cur, k, rt, u);
    CompactReady(s.Get(t), cur, q, u);
    WriteAppend(s.Set(t, log), t, r, k, rt, u);
    assert s.Set(t, log).Set(t, log + [r]) == s.Set(t, log + [r]);
  }

  // ---- Whole runs -------------------------------------------------------------------------------

  /** Everything a run promises about key k: every state satisfies the invariant, and every state but the erased one
      gives k its first or its last meaning. */
  predicate Atomic(s: Stores, run: Run, k: Key, rt: bool, u: bool) {
    && run.Run? && run.states != [] && run.states[0] == s
    && forall n :: 0 <= n < |run.states| ==>
         && Inv(run.states[n], u)
         && (n != run.erased ==> Meaning(run.states[n], k, rt) == Meaning(s, k, rt) ||
                                 Meaning(run.states[n], k, rt) == Meaning(Last(run.states), k, rt))
  }

  /** States leading up to s have not changed any meaning yet. */
  predicate Quiet(s: Stores, states: seq<Stores>, k: Key, rt: bool, u: bool) {
    states != [] && forall n :: 0 <= n < |states| ==>
      Inv(states[n], u) && Meaning(states[n], k, rt) == Meaning(s, k, rt)
  }

  lemma FitsRun(states: seq<Stores>, sizes: Sizes, q: Request, f: Option<Track>, rt: bool, k: Key, rt': bool, u: bool)
    requires rt' ==> u
    requires states != [] && Quiet(states[0], states, k, rt', u) && StoreReady(Last(states), q, f, u) && k.name != []
    requires Fits(Last(states).Get(StoreOf(q)), NewRecord(q), sizes.Get(StoreOf(q)))
    ensures var run := StoreNew(states, sizes, q, f, rt);
      && Atomic(states[0], run, k, rt', u) && run.status.EFI_SUCCESS?
      && Meaning(Last(run.states), k, rt') == After(states[0], q, k, rt')
  {
    var s, t, r := Last(states), StoreOf(q), NewRecord(q);
    var states' := states + [s.Set(t, s.Get(t) + [r])];
    WriteAppend(s, t, r, k, rt', u);
    RetireRun(s, states', q, f, k, rt', u);
  }

  lemma FullRun(states: seq<Stores>, sizes: Sizes, q: Request, f: Option<Track>, rt: bool, k: Key, rt': bool, u: bool)
    requires rt' ==> u
    requires states != [] && Quiet(states[0], states, k, rt', u) && StoreReady(Last(states), q, f, u) && k.name != []
    requires !Fits(Last(states).Get(StoreOf(q)), NewRecord(q), sizes.Get(StoreOf(q)))
    ensures var run := StoreNew(states, sizes, q, f, rt);
      && Atomic(states[0], run, k, rt', u) && (run.status.EFI_SUCCESS? || run.status.EFI_OUT_OF_RESOURCES?)
      && Meaning(Last(run.states), k, rt') ==
         if run.status.EFI_SUCCESS? then After(states[0], q, k, rt') else Meaning(states[0], k, rt')
  {
    hide Inv, Meaning, Compact, Fits, Ready, Home, IsCurrent, Absent;
    ReclaimRun(Last(states), q, f, k, rt', u);
  }

  lemma AfterOthers(s: Stores, q: Request, k: Key, rt: bool)
    requires k.name != [] && k != q.key
    ensures After(s, q, k, rt) == Meaning(s, k, rt)
  {
  }

  /** What the last state of a run makes k mean: the old meaning after an error or when the same data is written, else
      the new value for the request's key. A deletion is described by DeleteRun. */
  function Expected(s: Stores, q: Request, f: Option<Track>, status: Status, k: Key, rt: bool): Option<Value>
    requires f.Some? ==> f.value.i < |s.Get(f.value.t)|
  {
    if !status.EFI_SUCCESS? || k != q.key || (f.Some? && s.Get(f.value.t)[f.value.i].data == q.data) then
      Meaning(s, k, rt)
    else After(s, q, k, rt)
  }

  lemma CreateRun(s: Stores, sizes: Sizes, q: Request, rt: bool, k: Key, rt': bool, u: bool)
    requires rt || rt' ==> u
    requires Inv(s, u) && q.key.name != [] && k.name != [] && Locate(s, q.key, rt).None? && KeepsAccess(s, q, u)
    requires rt ==> AtRuntime(NewRecord(q))
    ensures var run := StoreNew([s], sizes, q, None, rt);
      Atomic(s, run, k, rt', u) && Meaning(Last(run.states), k, rt') == Expected(s, q, None, run.status, k, rt')
  {
    LocateMisses(s, q, rt, u);
    if Fits(s.Get(StoreOf(q)), NewRecord(q), sizes.Get(StoreOf(q))) {
      FitsRun([s], sizes, q, None, rt, k, rt', u);
    } else {
      FullRun([s], sizes, q, None, rt, k, rt', u);
    }
  }

  lemma FoundReady(s: Stores, q: Request, f: Track, k: Key, rt: bool, u: bool)
    requires rt ==> u
    requires Inv(s, u) && k.name != [] && KeepsAccess(s, q, u) && Absent(s.Get(Other(f.t)), q.key)
    requires f.i < |s.Get(f.t)| && IsCurrent(s.Get(f.t), f.i) && s.Get(f.t)[f.i].key == q.key
    ensures var s1 := s.Set(f.t, SetState(s.Get(f.t), f.i, MarkTransition(s.Get(f.t)[f.i].state)));
      Quiet(s, [s, s1], k, rt, u) && StoreReady(s1, q, Some(f), u)
  {
    KeepsSplit(s, q, u);
    WriteTransition(s, f.t, f.i, k, rt, u);
    TransitionReady(s.Get(f.t), f.i, q, u);
  }

  lemma ReplaceReady(s: Stores, q: Request, rt: bool, k: Key, rt': bool, u: bool)
    requires rt || rt' ==> u
    requires Inv(s, u) && q.key.name != [] && k.name != [] && Locate(s, q.key, rt).Some? && KeepsAccess(s, q, u)
    ensures var Track(t, i) := Locate(s, q.key, rt).value;
      var s1 := s.Set(t, SetState(s.Get(t), i, MarkTransition(s.Get(t)[i].state)));
      Quiet(s, [s, s1], k, rt', u) && StoreReady(s1, q, Locate(s, q.key, rt), u)
  {
    hide Inv, KeepsAccess, StoreReady, Meaning, IsCurrent, Locate;
    LocateFinds(s, q.key, rt, u);
    FoundReady(s, q, Locate(s, q.key, rt).value, k, rt', u);
  }

  lemma ReplaceRun(s: Stores, sizes: Sizes, q: Request, rt: bool, k: Key, rt': bool, u: bool)
    requires rt || rt' ==> u
    requires Inv(s, u) && q.key.name != [] && k.name != [] && Locate(s, q.key, rt).Some? && KeepsAccess(s, q, u)
    ensures var Track(t, i) := Locate(s, q.key, rt).value;
      var s1 := s.Set(t, SetState(s.Get(t), i, MarkTransition(s.Get(t)[i].state)));
      var run := StoreNew([s, s1], sizes, q, Locate(s, q.key, rt), rt);
      && Atomic(s, run, k, rt', u)
      && Meaning(Last(run.states), k, rt') ==
         if run.status.EFI_SUCCESS? && k == q.key then After(s, q, k, rt') else Meaning(s, k, rt')
  {
    hide Inv, KeepsAccess, StoreReady, Meaning, After;
    ReplaceReady(s, q, rt, k, rt', u);
    if k != q.key { AfterOthers(s, q, k, rt'); }
    var f := Locate(s, q.key, rt);
    var Track(t, i) := f.value;
    var s1 := s.Set(t, SetState(s.Get(t), i, MarkTransition(s.Get(t)[i].state)));
    if Fits(s1.Get(StoreOf(q)), NewRecord(q), sizes.Get(StoreOf(q))) {
      FitsRun([s, s1], sizes, q, f, rt, k, rt', u);
    } else {
      FullRun([s, s1], sizes, q, f, rt, k, rt', u);
    }
  }

  lemma QuietRun(s: Stores, status: Status, k: Key, rt: bool, u: bool)
    requires Inv(s, u)
    ensures Atomic(s, Run(status, [s], -1), k, rt, u) && Meaning(Last([s]), k, rt) == Meaning(s, k, rt)
  {
  }

  /** Deleting is one write; no other variable notices. */
  lemma DeleteStep(s: Stores, q: Request, rt: bool, k: Key, rt': bool, u: bool)
    requires rt ==> u
    requires Inv(s, u) && q.key.name != [] && k.name != [] && Locate(s, q.key, rt).Some?
    ensures var Track(t, i) := Locate(s, q.key, rt).value;
      var s' := s.Set(t, SetState(s.Get(t), i, MarkDeleted(s.Get(t)[i].state)));
      Atomic(s, Run(EFI_SUCCESS, [s, s'], -1), k, rt', u) && (k != q.key ==> Meaning(s', k, rt') == Meaning(s, k, rt'))
  {
    LocateFinds(s, q.key, rt, u);
    var Track(t, i) := Locate(s, q.key, rt).value;
    InvDelete(s, t, i, u);
    if k != q.key {
      WriteDelete(s, t, i, k, rt', u);
    }
  }

  /** Every update that keeps the variable's access is a run of states that all satisfy the invariant, is all or
      nothing for every variable when it is cut off outside the middle of a reclaim, and sets exactly one variable. */
  lemma UpdateRun(s: Stores, sizes: Sizes, q: Request, rt: bool, k: Key, rt': bool, u: bool)
    requires rt || rt' ==> u
    requires Inv(s, u) && q.key.name != [] && k.name != [] && (Deletes(q) || KeepsAccess(s, q, u))
    ensures var f := Locate(s, q.key, rt);
      var run := Update(s, sizes, q, f, rt);
      && Atomic(s, run, k, rt', u)
      && (!Deletes(q) || k != q.key ==> Meaning(Last(run.states), k, rt') == Expected(s, q, f, run.status, k, rt'))
  {
    hide Inv, KeepsAccess, Meaning, Atomic, StoreNew, Deletes, Locate, After, AtRuntime, NonVolatile;
    var f := Locate(s, q.key, rt);
    var run := Update(s, sizes, q, f, rt);
    QuietRun(s, if run.Run? then run.status else EFI_SUCCESS, k, rt', u);
    if f.None? {
      if !Deletes(q) && (rt ==> AtRuntime(NewRecord(q)) && NonVolatile(NewRecord(q))) {
        CreateRun(s, sizes, q, rt, k, rt', u);
      }
    } else if Deletes(q) {
      DeleteStep(s, q, rt, k, rt', u);
    } else {
      LocateFinds(s, q.key, rt, u);
      ReplaceRun(s, sizes, q, rt, k, rt', u);
    }
  }
}
